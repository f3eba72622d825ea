/**
 * The value level of the two indexes of the reference database (RefDb.java): an index maps a key
 * (an initials name or a title word) to the set of ids filed under it. An index is proper when no
 * key maps to an empty set, and it matches the publications when it lists exactly the keys each
 * registered id should be found under.
 */
module IndexMaps {
  import opened Wrappers
  import opened Text

  type Index = map<string, set<nat>>

  /** For each registered id, the keys it must be filed under. */
  type KeyMap = map<nat, set<string>>

  /** No key is kept with an empty set of ids. */
  ghost predicate NoEmptySets(m: Index) {
    forall k :: k in m ==> m[k] != {}
  }

  /** Every id listed under a key is registered and has that key. */
  ghost predicate Sound(m: Index, keys: KeyMap) {
    forall k, id :: k in m && id in m[k] ==> id in keys && k in keys[id]
  }

  /** Every registered id is listed under each of its keys. */
  ghost predicate Complete(m: Index, keys: KeyMap) {
    forall id, k :: id in keys && k in keys[id] ==> k in m && id in m[k]
  }

  /** The index is exactly the inversion of the key map. */
  ghost predicate IndexMatches(m: Index, keys: KeyMap) {
    NoEmptySets(m) && Sound(m, keys) && Complete(m, keys)
  }

  /** RefDbIndex.hasProperIndex: every set is non-empty and holds only ids of the id table. */
  ghost predicate ProperIndex(m: Index, tableIds: set<nat>) {
    forall k :: k in m ==> m[k] != {} && m[k] <= tableIds
  }

  function KeysOf(keys: KeyMap, id: nat): set<string> {
    if id in keys then keys[id] else {}
  }

  /** Files `id` under every key of `ks`. */
  function AddUnder(m: Index, ks: set<string>, id: nat): Index {
    map k | k in m.Keys + ks :: (if k in m then m[k] else {}) + (if k in ks then {id} else {})
  }

  /** Withdraws `id` from every key of `ks`, deleting the keys left with no id. */
  function RemoveUnder(m: Index, ks: set<string>, id: nat): Index {
    map k | k in m && (k !in ks || m[k] - {id} != {}) :: if k in ks then m[k] - {id} else m[k]
  }

  /** One step of the insertion loops: get the set under `k` (a new one if there is none), add the
      id and put the set back under `k`. */
  function AddKey(m: Index, k: string, id: nat): (r: Index)
    ensures r == AddUnder(m, {k}, id)
  {
    var r := m[k := (if k in m then m[k] else {}) + {id}];
    var a := AddUnder(m, {k}, id);
    assert r.Keys == a.Keys;
    assert forall x :: x in r ==> r[x] == a[x];
    r
  }

  /** One step of the removal loops: a key that is absent is skipped; otherwise the id is withdrawn
      and the key deleted when its set becomes empty. */
  function RemoveKey(m: Index, k: string, id: nat): (r: Index)
    ensures r == RemoveUnder(m, {k}, id)
  {
    var r := if k !in m then m else if m[k] - {id} == {} then m - {k} else m[k := m[k] - {id}];
    var a := RemoveUnder(m, {k}, id);
    assert r.Keys == a.Keys;
    assert forall x :: x in r ==> r[x] == a[x];
    r
  }

  /** Filing under no key changes nothing. */
  lemma AddUnderNothing(m: Index, id: nat)
    ensures AddUnder(m, {}, id) == m
  {
    assert AddUnder(m, {}, id).Keys == m.Keys;
    forall k | k in m
      ensures AddUnder(m, {}, id)[k] == m[k]
    {
      assert AddUnder(m, {}, id)[k] == m[k] + {};
    }
  }

  lemma RemoveUnderNothing(m: Index, id: nat)
    ensures RemoveUnder(m, {}, id) == m
  {
    assert RemoveUnder(m, {}, id).Keys == m.Keys;
  }

  /** The insertion loops grow the set of keys one at a time. */
  lemma AddKeyStep(m: Index, ks: set<string>, k: string, id: nat)
    ensures AddKey(AddUnder(m, ks, id), k, id) == AddUnder(m, ks + {k}, id)
  {
    var l := AddKey(AddUnder(m, ks, id), k, id);
    var r := AddUnder(m, ks + {k}, id);
    assert l.Keys == r.Keys;
    forall x | x in l
      ensures l[x] == r[x]
    {
    }
  }

  /** The removal loops shrink the index one key at a time; withdrawing twice from the same key is
      the same as once. */
  lemma RemoveKeyStep(m: Index, ks: set<string>, k: string, id: nat)
    ensures RemoveKey(RemoveUnder(m, ks, id), k, id) == RemoveUnder(m, ks + {k}, id)
  {
    var l := RemoveKey(RemoveUnder(m, ks, id), k, id);
    var r := RemoveUnder(m, ks + {k}, id);
    assert l.Keys == r.Keys;
    forall x | x in l
      ensures l[x] == r[x]
    {
    }
  }

  /** An index that matches a key map is determined by it. */
  lemma IndexUnique(m1: Index, m2: Index, keys: KeyMap)
    requires IndexMatches(m1, keys) && IndexMatches(m2, keys)
    ensures m1 == m2
  {
    forall k | k in m1
      ensures k in m2 && m1[k] == m2[k]
    {
      var id :| id in m1[k];
      assert id in keys && k in keys[id];
      forall j
        ensures j in m1[k] <==> j in m2[k]
      {
        if j in m1[k] {
          assert j in keys && k in keys[j];
        }
        if j in m2[k] {
          assert j in keys && k in keys[j];
        }
      }
    }
    forall k | k in m2
      ensures k in m1
    {
      var id :| id in m2[k];
      assert id in keys && k in keys[id];
    }
    assert m1.Keys == m2.Keys;
  }

  /** The empty index matches a key map in which no id has a key (the state of a fresh database). */
  lemma EmptyIndexMatches(keys: KeyMap)
    requires forall id :: id in keys ==> keys[id] == {}
    ensures IndexMatches(map[], keys)
  {
  }

  /** Filing `id` under `ks` keeps the index matching, once `ks` is added to the keys of `id`. */
  lemma AddUnderMatches(m: Index, keys: KeyMap, ks: set<string>, id: nat)
    requires IndexMatches(m, keys)
    ensures IndexMatches(AddUnder(m, ks, id), keys[id := KeysOf(keys, id) + ks])
  {
  }

  /** Withdrawing `id` from `ks` keeps the index matching, once `ks` is taken from the keys of `id`. */
  lemma RemoveUnderMatches(m: Index, keys: KeyMap, ks: set<string>, id: nat)
    requires IndexMatches(m, keys) && id in keys
    ensures IndexMatches(RemoveUnder(m, ks, id), keys[id := keys[id] - ks])
  {
    var r := RemoveUnder(m, ks, id);
    var keys' := keys[id := keys[id] - ks];
    forall j, k | j in keys' && k in keys'[j]
      ensures k in r && j in r[k]
    {
      assert k in m && j in m[k];
      if j != id {
        assert j in m[k] - {id};
      }
    }
  }

  /** Withdrawing `id` from all its keys and filing it under `ks` keeps the index matching, once
      the keys of `id` are replaced by `ks`. */
  lemma ReplaceKeysMatches(m: Index, keys: KeyMap, id: nat, ks: set<string>)
    requires IndexMatches(m, keys) && id in keys
    ensures IndexMatches(AddUnder(RemoveUnder(m, keys[id], id), ks, id), keys[id := ks])
  {
    RemoveUnderMatches(m, keys, keys[id], id);
    var keys1 := keys[id := keys[id] - keys[id]];
    AddUnderMatches(RemoveUnder(m, keys[id], id), keys1, ks, id);
    assert KeysOf(keys1, id) + ks == ks;
    assert keys1[id := ks] == keys[id := ks];
  }

  /** Filing under a set of keys and then withdrawing from it restores an index in which the id
      was not filed anywhere. */
  lemma AddRemoveRoundTrip(m: Index, ks: set<string>, id: nat)
    requires forall k :: k in m ==> id !in m[k] && m[k] != {}
    ensures RemoveUnder(AddUnder(m, ks, id), ks, id) == m
  {
    var l := RemoveUnder(AddUnder(m, ks, id), ks, id);
    assert l.Keys == m.Keys;
    forall k | k in m
      ensures l[k] == m[k]
    {
    }
  }

  /** A registered id without keys does not matter to the index. */
  lemma DropKeylessId(m: Index, keys: KeyMap, id: nat)
    requires id in keys && keys[id] == {}
    ensures IndexMatches(m, keys) <==> IndexMatches(m, keys - {id})
  {
    var keys' := keys - {id};
    assert forall j :: j in keys' ==> j in keys && keys'[j] == keys[j];
    assert forall j :: j in keys && j != id ==> j in keys';
  }

  /** An index that matches the key map of the registered ids is proper for the id table. */
  lemma MatchingIndexIsProper(m: Index, keys: KeyMap)
    requires IndexMatches(m, keys)
    ensures ProperIndex(m, keys.Keys)
  {
  }

  // ---------------------------------------------------------------------------------------------
  // The two index steps as the source writes them.

  /** removeAuthorNameFromIndex as written: the set under the key is taken without a check, so an
      absent key dereferences null (None here). */
  function RemoveKeyAsWritten(m: Index, k: string, id: nat): (r: Option<Index>)
    ensures k in m ==> r == Some(RemoveKey(m, k, id))
    ensures k !in m ==> r.None?
  {
    if k !in m then None
    else if m[k] - {id} == {} then Some(m - {k})
    else Some(m[k := m[k] - {id}])
  }

  /** removePublicationFromDb withdraws the id once per author rank. When two authors of the same
      publication share an initials key, the first withdrawal deletes the key and the second finds
      no set; the null-tolerant step leaves the index matching the remaining publications. */
  lemma SharedKeyRemovalFails()
    ensures RemoveKeyAsWritten(map["D. Adams" := {1}], "D. Adams", 1) == Some(map[])
    ensures RemoveKeyAsWritten(map[], "D. Adams", 1).None?
    ensures RemoveKey(RemoveKey(map["D. Adams" := {1}], "D. Adams", 1), "D. Adams", 1) == map[]
    ensures IndexMatches(RemoveKey(RemoveKey(map["D. Adams" := {1}], "D. Adams", 1), "D. Adams", 1), map[])
  {
    var m: Index := map["D. Adams" := {1}];
    assert RemoveKey(m, "D. Adams", 1) == map[];
  }

  /** addTitleWordsToIndex as written: the set is looked up under the word but stored back under
      the trimmed word. For a word that trim leaves alone this is the insertion step. */
  function AddWordAsWritten(m: Index, w: string, id: nat): (r: Index)
    ensures Trim(w) in r && id in r[Trim(w)]
    ensures Trim(w) == w ==> r == AddKey(m, w, id)
  {
    m[Trim(w) := (if w in m then m[w] else {}) + {id}]
  }

  /** A word with a leading tab, such as "\toranges" in the title "Apples \tOranges" (a tab is not
      a word delimiter, but trim removes it), overwrites the set of "oranges" with a fresh one:
      publication 1 disappears from the index although its title still holds the word. Filing
      under the untrimmed word keeps the index matching. */
  lemma TrimTab()
    ensures Trim("\toranges") == "oranges"
  {
    var s := "\toranges";
    assert s[0] == '\t' && IsTrimmed(s[0]);
    assert s[1..] == "oranges";
    assert TrimLeft("oranges") == "oranges";
    assert TrimLeft(s) == "oranges";
    assert TrimRight("oranges") == "oranges";
  }

  lemma TrimmedKeyLosesId()
    ensures Trim("\toranges") == "oranges"
    ensures AddWordAsWritten(map["oranges" := {1}], "\toranges", 2)["oranges"] == {2}
    ensures !IndexMatches(AddWordAsWritten(map["oranges" := {1}], "\toranges", 2),
                          map[1 := {"oranges"}, 2 := {"\toranges"}])
    ensures IndexMatches(AddKey(map["oranges" := {1}], "\toranges", 2),
                         map[1 := {"oranges"}, 2 := {"\toranges"}])
  {
    TrimTab();
    var keys: KeyMap := map[1 := {"oranges"}, 2 := {"\toranges"}];
    var keys0: KeyMap := map[1 := {"oranges"}];
    var m: Index := map["oranges" := {1}];
    assert IndexMatches(m, keys0);
    var keys1 := keys0[2 := KeysOf(keys0, 2) + {"\toranges"}];
    assert keys1.Keys == keys.Keys;
    assert keys1[1] == keys[1] && keys1[2] == keys[2];
    assert keys1 == keys;
    AddUnderMatches(m, keys0, {"\toranges"}, 2);
    var r := AddWordAsWritten(m, "\toranges", 2);
    assert "\toranges" != "oranges";
    assert "\toranges" !in m;
    assert r["oranges"] == {2};
    assert 1 in keys && "oranges" in keys[1] && 1 !in r["oranges"];
  }
}

/**
 * The reference database (RefDb.java) and the publications it registers (Publication.java).
 *
 * A database keeps an id table from reference id to publication, a counter from which new ids are
 * drawn, and two indexes: the author index, keyed by the initials form of every author
 * ("F. D. Roosevelt"), and the title-word index, keyed by the lower-cased words of every title.
 * A registered publication carries its id (the mirror rule) and calls back into the database when
 * its title or authors change, so that both indexes stay sound and complete. Publications cite one
 * another; the `cites` and `citedBy` sets of the citation graph are kept symmetric.
 *
 * The Java database is a set of static fields; here it is one `RefDb` object that the publication
 * methods receive as a parameter. Publication and database call each other, so they share this
 * module.
 */
module RefDatabase {
  import opened Wrappers
  import opened Text
  import opened Names
  import opened IndexMaps
  import opened Indexes

  /** The concrete class of a publication (JournalArticle, ConferencePaper or Book). */
  datatype Kind = JournalArticle | ConferencePaper | Book

  /** The exceptions a publication method throws. */
  datatype PublicationError =
    | TitleIsNull
    | TitleIsBlank
    | YearNotValid
    | ZeroAuthors
    | AuthorNameNotValid
    | RankNotPositive
    | RankTooBig
    | PublicationNotValid

  /** The exceptions a database method throws. */
  datatype DbError =
    | PublicationIsNull
    | PublicationAlreadyInDb
    | PublicationDuplicateValue
    | IdNotValid
    | IdNotInReferenceDb(id: nat)
    | CitationNotValid
    | AuthorNameIsNull
    | WordIsNull

  /** getMinYearOfPublication. The maximum year is the current year, which the source reads from
      the system clock; here the caller passes it. */
  const MinYear: int := 1

  /** The initials keys of an author list: the author-index keys of a publication. */
  function AuthorKeys(authors: seq<Name>): set<string> {
    set a | a in authors :: Initials(a)
  }

  /** Whether another author than the one at `i` has the same initials key. */
  predicate SharedKey(authors: seq<Name>, i: nat)
    requires i < |authors|
  {
    exists j :: 0 <= j < |authors| && j != i && Initials(authors[j]) == Initials(authors[i])
  }

  /** The fields of a publication that citation edits leave alone. */
  twostate predicate SameRecord(p: Publication)
    reads p
  {
    p.title == old(p.title) && p.authors == old(p.authors) && p.referenceId == old(p.referenceId)
  }

  /** What the database relies on of a registered publication: its title, its authors and the id
      it carries. */
  datatype Entry = Entry(title: string, authors: seq<Name>, referenceId: Option<nat>)

  /** hasProperAuthors: every author is a name as convertNameToIntRepr produces it. */
  predicate ProperAuthors(authors: seq<Name>) {
    forall a :: a in authors ==> WellFormed(a)
  }

  /** For every registered id, the author-index keys of its publication. */
  ghost function AuthorKeysOf(entries: map<nat, Entry>): KeyMap {
    map id | id in entries :: AuthorKeys(entries[id].authors)
  }

  /** For every registered id, the title-word keys of its publication. */
  ghost function TitleKeysOf(entries: map<nat, Entry>): KeyMap {
    map id | id in entries :: TitleWords(entries[id].title)
  }

  /** The table invariants: the mirror rule (the publication stored under an id carries it), ids
      drawn from the counter, and proper authors. */
  ghost predicate ProperEntries(entries: map<nat, Entry>, counter: nat) {
    forall id :: id in entries ==>
      entries[id].referenceId == Some(id) && id <= counter && ProperAuthors(entries[id].authors)
  }

  /** The database invariant on values: the table invariants, and two indexes that are exactly
      the inversions of the key maps of the registered publications (sound, complete, without
      empty sets). */
  ghost predicate Consistent(entries: map<nat, Entry>, counter: nat, authorIndex: Index, titleIndex: Index) {
    && ProperEntries(entries, counter)
    && IndexMatches(authorIndex, AuthorKeysOf(entries))
    && IndexMatches(titleIndex, TitleKeysOf(entries))
  }

  /** A consistent title-word index lists an entry's id under each word of its title. */
  lemma TitleWordFiled(entries: map<nat, Entry>, counter: nat, ai: Index, ti: Index, id: nat, w: string)
    requires Consistent(entries, counter, ai, ti) && id in entries && w in TitleWords(entries[id].title)
    ensures w in ti && id in ti[w]
  {
    assert w in TitleKeysOf(entries)[id];
  }

  /** Changing the entry of one id changes its keys and no other. */
  lemma KeysOfUpdate(entries: map<nat, Entry>, id: nat, e: Entry)
    ensures AuthorKeysOf(entries[id := e]) == AuthorKeysOf(entries)[id := AuthorKeys(e.authors)]
    ensures TitleKeysOf(entries[id := e]) == TitleKeysOf(entries)[id := TitleWords(e.title)]
  {
    var a := AuthorKeysOf(entries[id := e]);
    var a' := AuthorKeysOf(entries)[id := AuthorKeys(e.authors)];
    assert a.Keys == a'.Keys;
    var t := TitleKeysOf(entries[id := e]);
    var t' := TitleKeysOf(entries)[id := TitleWords(e.title)];
    assert t.Keys == t'.Keys;
  }

  /** Dropping the entry of one id drops its keys. */
  lemma KeysOfRemove(entries: map<nat, Entry>, id: nat)
    ensures AuthorKeysOf(entries - {id}) == AuthorKeysOf(entries) - {id}
    ensures TitleKeysOf(entries - {id}) == TitleKeysOf(entries) - {id}
  {
    assert AuthorKeysOf(entries - {id}).Keys == (AuthorKeysOf(entries) - {id}).Keys;
    assert TitleKeysOf(entries - {id}).Keys == (TitleKeysOf(entries) - {id}).Keys;
  }

  lemma AuthorKeysConcat(a: seq<Name>, b: seq<Name>)
    ensures AuthorKeys(a + b) == AuthorKeys(a) + AuthorKeys(b)
  {
    forall k | k in AuthorKeys(a + b)
      ensures k in AuthorKeys(a) + AuthorKeys(b)
    {
      var x :| x in a + b && Initials(x) == k;
      assert x in a || x in b;
    }
    forall k | k in AuthorKeys(a) + AuthorKeys(b)
      ensures k in AuthorKeys(a + b)
    {
      if k in AuthorKeys(a) {
        var x :| x in a && Initials(x) == k;
        assert x in a + b;
      } else {
        var x :| x in b && Initials(x) == k;
        assert x in a + b;
      }
    }
  }

  lemma AuthorKeysSingle(n: Name)
    ensures AuthorKeys([n]) == {Initials(n)}
  {
    assert n in [n];
  }

  lemma AuthorKeysInsert(authors: seq<Name>, i: nat, n: Name)
    requires i <= |authors|
    ensures AuthorKeys(authors[..i] + [n] + authors[i..]) == AuthorKeys(authors) + {Initials(n)}
  {
    assert authors == authors[..i] + authors[i..];
    AuthorKeysConcat(authors[..i], authors[i..]);
    AuthorKeysConcat(authors[..i] + [n], authors[i..]);
    AuthorKeysConcat(authors[..i], [n]);
    AuthorKeysSingle(n);
  }

  lemma AuthorKeysAppend(authors: seq<Name>, n: Name)
    ensures AuthorKeys(authors + [n]) == AuthorKeys(authors) + {Initials(n)}
  {
    AuthorKeysConcat(authors, [n]);
    AuthorKeysSingle(n);
  }

  /** The author list with the author at `i` struck out still has every other author. */
  lemma AuthorKeysSplit(authors: seq<Name>, i: nat)
    requires i < |authors|
    ensures AuthorKeys(authors) == AuthorKeys(authors[..i] + authors[i + 1..]) + {Initials(authors[i])}
  {
    assert authors == authors[..i] + ([authors[i]] + authors[i + 1..]);
    AuthorKeysConcat(authors[..i], [authors[i]] + authors[i + 1..]);
    AuthorKeysConcat([authors[i]], authors[i + 1..]);
    AuthorKeysConcat(authors[..i], authors[i + 1..]);
    AuthorKeysSingle(authors[i]);
  }

  /** The positions of the list with the author at `i` struck out. */
  lemma StrikeIndex(authors: seq<Name>, i: nat, j: nat)
    requires i < |authors| && j < |authors| - 1
    ensures (authors[..i] + authors[i + 1..])[j] == authors[if j < i then j else j + 1]
  {
  }

  /** Another author has the key of the author at `i` exactly when the rest of the list has it. */
  lemma SharedKeyInRest(authors: seq<Name>, i: nat)
    requires i < |authors|
    ensures SharedKey(authors, i) <==> Initials(authors[i]) in AuthorKeys(authors[..i] + authors[i + 1..])
  {
    if SharedKey(authors, i) {
      SharedKeyFound(authors, i);
    }
    if Initials(authors[i]) in AuthorKeys(authors[..i] + authors[i + 1..]) {
      KeyInRestShared(authors, i);
    }
  }

  lemma SharedKeyFound(authors: seq<Name>, i: nat)
    requires i < |authors| && SharedKey(authors, i)
    ensures Initials(authors[i]) in AuthorKeys(authors[..i] + authors[i + 1..])
  {
    var rest := authors[..i] + authors[i + 1..];
    var j :| 0 <= j < |authors| && j != i && Initials(authors[j]) == Initials(authors[i]);
    var j' := if j < i then j else j - 1;
    StrikeIndex(authors, i, j');
    assert rest[j'] in rest;
  }

  lemma KeyInRestShared(authors: seq<Name>, i: nat)
    requires i < |authors|
    requires Initials(authors[i]) in AuthorKeys(authors[..i] + authors[i + 1..])
    ensures SharedKey(authors, i)
  {
    var rest := authors[..i] + authors[i + 1..];
    var x :| x in rest && Initials(x) == Initials(authors[i]);
    var j :| 0 <= j < |rest| && rest[j] == x;
    StrikeIndex(authors, i, j);
    var j' := if j < i then j else j + 1;
    assert authors[j'] == x;
  }

  /** Removing the author at `i` withdraws its key only when no other author shares it. */
  lemma AuthorKeysRemove(authors: seq<Name>, i: nat)
    requires i < |authors|
    ensures !SharedKey(authors, i) ==> AuthorKeys(authors[..i] + authors[i + 1..]) == AuthorKeys(authors) - {Initials(authors[i])}
    ensures SharedKey(authors, i) ==> AuthorKeys(authors[..i] + authors[i + 1..]) == AuthorKeys(authors)
  {
    AuthorKeysSplit(authors, i);
    SharedKeyInRest(authors, i);
  }

  /** The initials keys of the authors at the first `n` ranks. */
  ghost function KeysBefore(authors: seq<Name>, n: nat): set<string>
    requires n <= |authors|
  {
    set i | 0 <= i < n :: Initials(authors[i])
  }

  lemma KeysBeforeStep(authors: seq<Name>, n: nat)
    requires n < |authors|
    ensures KeysBefore(authors, n + 1) == KeysBefore(authors, n) + {Initials(authors[n])}
  {
  }

  lemma KeysBeforeAll(authors: seq<Name>)
    ensures KeysBefore(authors, |authors|) == AuthorKeys(authors)
  {
  }

  /** Filing `id` under the initials key of the author at rank `n + 1` extends the set of keys it
      is filed under from those of the first `n` authors to those of the first `n + 1`. */
  lemma FileNextAuthor(m: Index, authors: seq<Name>, n: nat, id: nat, cur: Index)
    requires n < |authors| && cur == AddUnder(m, KeysBefore(authors, n), id)
    ensures AddUnder(cur, {Initials(authors[n])}, id) == AddUnder(m, KeysBefore(authors, n + 1), id)
  {
    var k := Initials(authors[n]);
    var before := KeysBefore(authors, n);
    AddKeyStep(m, before, k, id);
    KeysBeforeStep(authors, n);
    var upTo := KeysBefore(authors, n + 1);
    assert before + {k} == upTo;
    assert AddUnder(m, before + {k}, id) == AddUnder(m, upTo, id);
  }

  lemma AuthorKeysSuffix(authors: seq<Name>, i: nat)
    requires i < |authors|
    ensures AuthorKeys(authors[i..]) == AuthorKeys(authors[i + 1..]) + {Initials(authors[i])}
  {
    assert authors[i..] == [authors[i]] + authors[i + 1..];
    AuthorKeysConcat([authors[i]], authors[i + 1..]);
    AuthorKeysSingle(authors[i]);
  }

  lemma WordSetStep(words: seq<string>, i: nat)
    requires i < |words|
    ensures WordSet(words[..i + 1]) == WordSet(words[..i]) + {words[i]}
  {
    assert words[..i + 1] == words[..i] + [words[i]];
  }

  /** The author list without any occurrence of `n`. */
  function Without(authors: seq<Name>, n: Name): (r: seq<Name>)
    ensures |r| <= |authors|
  {
    if authors == [] then []
    else (if authors[0] == n then [] else [authors[0]]) + Without(authors[1..], n)
  }

  /** Without drops every occurrence of `n` and keeps every other author. */
  lemma {:induction false} WithoutMembers(authors: seq<Name>, n: Name)
    ensures forall a :: a in Without(authors, n) <==> a in authors && a != n
  {
    if authors != [] {
      WithoutMembers(authors[1..], n);
      assert authors == [authors[0]] + authors[1..];
    }
  }

  lemma {:induction false} WithoutAppend(a: seq<Name>, b: seq<Name>, n: Name)
    ensures Without(a + b, n) == Without(a, n) + Without(b, n)
    decreases |a|
  {
    if a == [] {
      assert a + b == b;
    } else {
      assert (a + b)[1..] == a[1..] + b;
      WithoutAppend(a[1..], b, n);
    }
  }

  /** Striking one occurrence of `n` leaves the same list without `n`. */
  lemma WithoutDropOne(authors: seq<Name>, i: nat, n: Name)
    requires i < |authors| && authors[i] == n
    ensures Without(authors[..i] + authors[i + 1..], n) == Without(authors, n)
  {
    var pre, post := authors[..i], authors[i + 1..];
    assert authors == pre + ([n] + post);
    assert [n][1..] == [];
    calc {
      Without(authors, n);
      { WithoutAppend(pre, [n] + post, n); }
      Without(pre, n) + Without([n] + post, n);
      { WithoutAppend([n], post, n); }
      Without(pre, n) + (Without([n], n) + Without(post, n));
      Without(pre, n) + ([] + Without(post, n));
      { assert [] + Without(post, n) == Without(post, n); }
      Without(pre, n) + Without(post, n);
      { WithoutAppend(pre, post, n); }
      Without(pre + post, n);
    }
  }

  lemma {:induction false} WithoutAbsent(authors: seq<Name>, n: Name)
    requires n !in authors
    ensures Without(authors, n) == authors
  {
    if authors != [] {
      WithoutAbsent(authors[1..], n);
      assert authors == [authors[0]] + authors[1..];
    }
  }

  /** No id but `id` stores `p`. */
  ghost predicate OnlyAt(table: map<nat, Publication>, p: Publication, id: Option<nat>) {
    forall i :: i in table && table[i] == p ==> id == Some(i)
  }

  /** In a valid database a publication is stored at most under the id it carries. */
  lemma OnlyAtOwnId(db: RefDb, p: Publication)
    requires db.Valid()
    ensures OnlyAt(db.idTable, p, p.referenceId)
  {
    forall i | i in db.idTable && db.idTable[i] == p
      ensures p.referenceId == Some(i)
    {
      assert db.Entries()[i].referenceId == Some(i);
    }
  }

  /** The entries of a database are those of the other publications plus, when `p` is registered,
      the entry of `p`. */
  lemma EntriesSplit(db: RefDb, p: Publication)
    requires OnlyAt(db.idTable, p, p.referenceId)
    ensures db.Registered(p) ==> db.Entries() == db.EntriesExcept(p)[p.referenceId.value := p.Record()]
    ensures !db.Registered(p) ==> db.Entries() == db.EntriesExcept(p)
  {
    var e := db.Entries();
    if db.Registered(p) {
      var e' := db.EntriesExcept(p)[p.referenceId.value := p.Record()];
      assert e.Keys == e'.Keys;
    } else {
      assert e.Keys == db.EntriesExcept(p).Keys;
    }
  }

  lemma UpdateTwice<K, V>(m: map<K, V>, k: K, v0: V, v1: V)
    ensures m[k := v0][k := v1] == m[k := v1]
  {
  }

  /** Replacing the entry of a registered id by one with the same id and proper authors keeps the
      table invariants. */
  lemma ProperEntriesUpdate(entries: map<nat, Entry>, counter: nat, id: nat, e: Entry)
    requires ProperEntries(entries, counter) && id in entries
    requires e.referenceId == Some(id) && ProperAuthors(e.authors)
    ensures ProperEntries(entries[id := e], counter)
  {
  }

  /** The authors after an insertion are the old ones and the new one. */
  lemma ProperAuthorsInsert(authors: seq<Name>, i: nat, n: Name)
    requires i <= |authors|
    ensures ProperAuthors(authors) && WellFormed(n) ==> ProperAuthors(authors[..i] + [n] + authors[i..])
  {
    assert authors == authors[..i] + authors[i..];
    assert forall a :: a in authors[..i] + [n] + authors[i..] ==> a == n || a in authors;
  }

  lemma ProperAuthorsAppend(authors: seq<Name>, n: Name)
    ensures ProperAuthors(authors) && WellFormed(n) ==> ProperAuthors(authors + [n])
  {
  }

  lemma ProperAuthorsRemove(authors: seq<Name>, i: nat)
    requires i < |authors|
    ensures ProperAuthors(authors) ==> ProperAuthors(authors[..i] + authors[i + 1..])
  {
    assert authors == authors[..i] + [authors[i]] + authors[i + 1..];
    assert forall a :: a in authors[..i] + authors[i + 1..] ==> a in authors;
  }

  /** Inserting a well-formed author at position `i` of the publication registered under `id`
      keeps the database consistent once the id is filed under the new author's key. */
  lemma InsertAuthorConsistent(e0: map<nat, Entry>, counter: nat, id: nat, i: nat, n: Name, ai: Index, ti: Index)
    requires Consistent(e0, counter, ai, ti) && id in e0 && i <= |e0[id].authors| && WellFormed(n)
    ensures Consistent(e0[id := e0[id].(authors := e0[id].authors[..i] + [n] + e0[id].authors[i..])],
                       counter, AddUnder(ai, {Initials(n)}, id), ti)
  {
    var a0 := e0[id].authors;
    var e := e0[id].(authors := a0[..i] + [n] + a0[i..]);
    ProperAuthorsInsert(a0, i, n);
    ProperEntriesUpdate(e0, counter, id, e);
    AuthorKeysInsert(a0, i, n);
    KeysOfUpdate(e0, id, e);
    AddUnderMatches(ai, AuthorKeysOf(e0), {Initials(n)}, id);
    SameKeysUpdate(TitleKeysOf(e0), id, TitleWords(e.title));
  }

  /** Appending a well-formed author: the same, at the end of the list. */
  lemma AppendAuthorConsistent(e0: map<nat, Entry>, counter: nat, id: nat, n: Name, ai: Index, ti: Index)
    requires Consistent(e0, counter, ai, ti) && id in e0 && WellFormed(n)
    ensures Consistent(e0[id := e0[id].(authors := e0[id].authors + [n])], counter, AddUnder(ai, {Initials(n)}, id), ti)
  {
    var a0 := e0[id].authors;
    var e := e0[id].(authors := a0 + [n]);
    ProperAuthorsAppend(a0, n);
    ProperEntriesUpdate(e0, counter, id, e);
    AuthorKeysAppend(a0, n);
    KeysOfUpdate(e0, id, e);
    AddUnderMatches(ai, AuthorKeysOf(e0), {Initials(n)}, id);
    SameKeysUpdate(TitleKeysOf(e0), id, TitleWords(e.title));
  }

  /** Striking the author at position `i` keeps the database consistent once the id is withdrawn
      from that author's key, unless another author of the publication shares the key; withdrawing
      it then would lose the other author's entry. */
  lemma RemoveAuthorConsistent(e0: map<nat, Entry>, counter: nat, id: nat, i: nat, ai: Index, ti: Index)
    requires Consistent(e0, counter, ai, ti) && id in e0 && i < |e0[id].authors|
    ensures Consistent(e0[id := e0[id].(authors := e0[id].authors[..i] + e0[id].authors[i + 1..])], counter,
                       if SharedKey(e0[id].authors, i) then ai else RemoveUnder(ai, {Initials(e0[id].authors[i])}, id), ti)
  {
    var a0 := e0[id].authors;
    var e := e0[id].(authors := a0[..i] + a0[i + 1..]);
    ProperAuthorsRemove(a0, i);
    ProperEntriesUpdate(e0, counter, id, e);
    AuthorKeysRemove(a0, i);
    KeysOfUpdate(e0, id, e);
    if SharedKey(a0, i) {
      SameKeysUpdate(AuthorKeysOf(e0), id, AuthorKeys(e.authors));
    } else {
      RemoveUnderMatches(ai, AuthorKeysOf(e0), {Initials(a0[i])}, id);
    }
    SameKeysUpdate(TitleKeysOf(e0), id, TitleWords(e.title));
  }

  /** removeAuthorAt as written withdraws the id from the key of the struck author even when
      another author shares it: striking "Adams, Douglas" from the authors "Adams, Douglas" and
      "Adams, Dan" of publication 1 leaves "D. Adams" a key of the publication, but the withdrawal
      deletes the key, so the index no longer finds publication 1 under it. */
  lemma SharedKeyWithdrawnAsWritten()
    ensures var authors := [Name("Adams", "Douglas"), Name("Adams", "Dan")];
      SharedKey(authors, 0) && AuthorKeys(authors[1..]) == {"D. Adams"}
    ensures IndexMatches(map["D. Adams" := {1}], map[1 := {"D. Adams"}])
    ensures RemoveUnder(map["D. Adams" := {1}], {"D. Adams"}, 1) == map[]
    ensures !IndexMatches(map[], map[1 := {"D. Adams"}])
  {
    AdamsShareKey();
    LastWithdrawalEmptiesIndex();
  }

  /** "Adams, Douglas" shares its key with "Adams, Dan", which keeps it once the first is gone. */
  lemma AdamsShareKey()
    ensures var authors := [Name("Adams", "Douglas"), Name("Adams", "Dan")];
      SharedKey(authors, 0) && AuthorKeys(authors[1..]) == {"D. Adams"}
  {
    var authors := [Name("Adams", "Douglas"), Name("Adams", "Dan")];
    SharedInitialsKey();
    assert Initials(authors[1]) == Initials(authors[0]);
    AuthorKeysSingle(authors[1]);
    assert authors[1..] == [authors[1]];
  }

  /** Withdrawing the only id under a key deletes the key, and an index without it no longer
      matches a key map that still gives the id that key. */
  lemma LastWithdrawalEmptiesIndex()
    ensures IndexMatches(map["D. Adams" := {1}], map[1 := {"D. Adams"}])
    ensures RemoveUnder(map["D. Adams" := {1}], {"D. Adams"}, 1) == map[]
    ensures !IndexMatches(map[], map[1 := {"D. Adams"}])
  {
    assert RemoveUnder(map["D. Adams" := {1}], {"D. Adams"}, 1).Keys == {};
    var keys: KeyMap := map[1 := {"D. Adams"}];
    var none: Index := map[];
    assert 1 in keys && "D. Adams" in keys[1] && "D. Adams" !in none;
  }

  /** Changing the title keeps the database consistent once the id is withdrawn from the old
      title words and filed under the new ones. */
  lemma RetitleConsistent(e0: map<nat, Entry>, counter: nat, id: nat, t: string, ai: Index, ti: Index)
    requires Consistent(e0, counter, ai, ti) && id in e0
    ensures Consistent(e0[id := e0[id].(title := t)], counter, ai,
                       AddUnder(RemoveUnder(ti, TitleWords(e0[id].title), id), TitleWords(t), id))
  {
    var e := e0[id].(title := t);
    ProperEntriesUpdate(e0, counter, id, e);
    KeysOfUpdate(e0, id, e);
    ReplaceKeysMatches(ti, TitleKeysOf(e0), id, TitleWords(t));
    SameKeysUpdate(AuthorKeysOf(e0), id, AuthorKeys(e.authors));
  }

  /** A key map updated at `id` with the keys it already had is the same key map. */
  lemma SameKeysUpdate(keys: KeyMap, id: nat, ks: set<string>)
    requires id in keys && keys[id] == ks
    ensures keys[id := ks] == keys
  {
  }

  class Publication {
    var title: string
    const year: int
    const kind: Kind
    var authors: seq<Name>
    var referenceId: Option<nat>
    var cites: set<Publication>
    var citedBy: set<Publication>

    /** The state right after the Java constructor: not registered and without citations. */
    constructor Init(title: string, year: int, kind: Kind, authors: seq<Name>)
      ensures this.title == title && this.year == year && this.kind == kind
      ensures this.authors == authors && referenceId == None && cites == {} && citedBy == {}
    {
      this.title := title;
      this.year := year;
      this.kind := kind;
      this.authors := authors;
      referenceId := None;
      cites := {};
      citedBy := {};
    }

    /** hasProperAuthors: every author is a name as convertNameToIntRepr produces it. */
    predicate HasProperAuthors()
      reads this
    {
      ProperAuthors(authors)
    }

    /** The entry the database keeps of this publication. */
    function Record(): Entry
      reads this`title, this`authors, this`referenceId
    {
      Entry(title, authors, referenceId)
    }

    // -------------------------------------------------------------------------------------------
    // Citations

    /** canHaveAsCitation: a publication can cite any other, non-null publication. */
    predicate CanHaveAsCitation(p: Publication?) {
      p != null && p != this
    }

    /** hasProperCitations: every cited publication can be cited and lists this one as citator. */
    predicate HasProperCitations()
      reads this`cites, cites`citedBy
    {
      forall p :: p in cites ==> CanHaveAsCitation(p) && this in p.citedBy
    }

    /** hasProperCitators: every citator differs from this one and lists it as a citation. */
    predicate HasProperCitators()
      reads this`citedBy, citedBy`cites
    {
      forall p :: p in citedBy ==> p != this && this in p.cites
    }

    /** addAsCitation: this publication cites `p`, and `p` is cited by this one. A null target or
        this publication itself is refused and nothing changes. */
    method AddAsCitation(p: Publication?, ghost world: set<Publication>) returns (out: Outcome<PublicationError>)
      modifies this, p
      ensures !CanHaveAsCitation(p) ==>
        out == Fail(PublicationNotValid) && unchanged(this) && (p != null ==> unchanged(p))
      ensures CanHaveAsCitation(p) ==> out == Pass
      ensures CanHaveAsCitation(p) ==> cites == old(cites) + {p} && p.citedBy == old(p.citedBy) + {this}
      ensures CanHaveAsCitation(p) ==> citedBy == old(citedBy) && p.cites == old(p.cites)
      ensures SameRecord(this) && (p != null ==> SameRecord(p))
      ensures old(CitationGraph(world)) && this in world && p in world ==> CitationGraph(world)
    {
      if !CanHaveAsCitation(p) {
        return Fail(PublicationNotValid);
      }
      cites := cites + {p};
      p.citedBy := p.citedBy + {this};
      out := Pass;
    }

    /** removeAsCitation: when this publication cites `p`, the citation and its mirror are
        dropped; otherwise nothing changes. */
    method RemoveAsCitation(p: Publication?, ghost world: set<Publication>)
      modifies this, p
      ensures p == null || p !in old(cites) ==> unchanged(this) && (p != null ==> unchanged(p))
      ensures p != null && p in old(cites) ==> cites == old(cites) - {p} && p.citedBy == old(p.citedBy) - {this}
      ensures p != null && p in old(cites) && p != this ==> citedBy == old(citedBy) && p.cites == old(p.cites)
      ensures SameRecord(this) && (p != null ==> SameRecord(p))
      ensures old(CitationGraph(world)) && this in world ==> CitationGraph(world)
    {
      if p != null && p in cites {
        cites := cites - {p};
        p.citedBy := p.citedBy - {this};
      }
    }

    /** terminate: every citation of this publication and every citation of it is dropped on both
        sides; a publication carrying an id then leaves the database. Afterwards it is linked to no
        publication and carries no id. */
    method Terminate(db: RefDb, ghost world: set<Publication>)
      requires db.Valid() && db.HasProperReferenceId(this)
      requires this in world && CitationGraph(world)
      modifies world, db, db.authorIndex, db.titleWordIndex
      ensures db.Valid() && CitationGraph(world)
      ensures cites == {} && citedBy == {} && referenceId.None?
      ensures title == old(title) && authors == old(authors)
      ensures forall q :: q in world ==> this !in q.cites && this !in q.citedBy
      ensures db.idTable == if old(referenceId).Some? then old(db.idTable) - {old(referenceId).value} else old(db.idTable)
      ensures db.idCounter == old(db.idCounter)
      ensures old(referenceId).Some? ==>
        && db.authorIndex.index == RemoveUnder(old(db.authorIndex.index), AuthorKeys(authors), old(referenceId).value)
        && db.titleWordIndex.index == RemoveUnder(old(db.titleWordIndex.index), TitleWords(title), old(referenceId).value)
      ensures old(referenceId).None? ==> unchanged(db.authorIndex, db.titleWordIndex)
      ensures forall q :: q in world && q != this ==>
        && q.title == old(q.title) && q.authors == old(q.authors) && q.referenceId == old(q.referenceId)
        && q.cites == old(q.cites) - {this} && q.citedBy == old(q.citedBy) - {this}
    {
      ghost var e0 := db.Entries();
      DropAllCitations(this, world);
      DropAllCitators(this, world);
      forall i | i in db.idTable
        ensures db.idTable[i].Record() == old(db.idTable[i].Record())
      {
      }
      assert db.Entries() == e0;
      forall q | q in world && q != this
        ensures q.cites == old(q.cites) - {this} && q.citedBy == old(q.citedBy) - {this}
      {
        assert this in old(q.cites) ==> q in old(citedBy);
        assert this in old(q.citedBy) ==> q in old(cites);
      }
      if referenceId.Some? {
        db.RemovePublicationFromDb(referenceId, world);
      }
      Unlinked(world, this);
    }

    // -------------------------------------------------------------------------------------------
    // Authors

    /** getAuthorAt: the author at a rank from 1 to the number of authors, in the default format. */
    function GetAuthorAt(rank: int): (r: Result<string, PublicationError>)
      reads this
      ensures rank <= 0 <==> r == Failure(RankNotPositive)
      ensures rank > |authors| <==> r == Failure(RankTooBig)
      ensures r.Success? ==> r.value == FullNames(authors)[rank - 1]
      ensures r.Success? ==> HasProperAuthors() ==> ValidAuthorName(r.value)
      ensures r.Success? ==> HasProperAuthors() ==> ConvertName(Some(r.value)) == Success(authors[rank - 1])
    {
      if rank <= 0 then Failure(RankNotPositive)
      else if rank > |authors| then Failure(RankTooBig)
      else if HasProperAuthors() then
        assert authors[rank - 1] in authors;
        FullNameRoundTrip(authors[rank - 1]);
        Success(FullName(authors[rank - 1]))
      else Success(FullName(authors[rank - 1]))
    }

    /** getAuthorWithInitialAt: the author at a rank from 1 to the number of authors, in the
        initials format under which the author index files it. */
    function GetAuthorWithInitialAt(rank: int): (r: Result<string, PublicationError>)
      reads this
      ensures rank <= 0 <==> r == Failure(RankNotPositive)
      ensures rank > |authors| <==> r == Failure(RankTooBig)
      ensures r.Success? ==> r.value == Initials(authors[rank - 1]) && r.value in AuthorKeys(authors)
    {
      if rank <= 0 then Failure(RankNotPositive)
      else if rank > |authors| then Failure(RankTooBig)
      else Success(Initials(authors[rank - 1]))
    }

    /** The assignment of the author list, seen from the database: the entry of this publication
        changes, when it is registered, and no other entry. */
    method StoreAuthors(a: seq<Name>, db: RefDb)
      requires OnlyAt(db.idTable, this, referenceId)
      modifies this
      ensures authors == a && title == old(title) && referenceId == old(referenceId)
      ensures cites == old(cites) && citedBy == old(citedBy)
      ensures OnlyAt(db.idTable, this, referenceId)
      ensures db.Registered(this) ==> db.Entries() == old(db.Entries())[referenceId.value := Record()]
      ensures !db.Registered(this) ==> db.Entries() == old(db.Entries())
    {
      ghost var rest := db.EntriesExcept(this);
      ghost var r0 := Record();
      EntriesSplit(db, this);
      authors := a;
      EntriesSplit(db, this);
      if db.Registered(this) {
        UpdateTwice(rest, referenceId.value, r0, Record());
      }
    }

    /** addAuthorAt: the author is inserted at a rank from 1 to one past the last author, later
        authors move one rank up, and a registered publication files the new key. Invalid ranks
        and names are refused and nothing changes. */
    method AddAuthorAt(name: Option<string>, rank: int, db: RefDb) returns (out: Outcome<PublicationError>)
      requires db.Valid() && db.HasProperReferenceId(this)
      modifies this, db.authorIndex
      ensures db.Valid() && db.HasProperReferenceId(this)
      ensures title == old(title) && referenceId == old(referenceId)
      ensures cites == old(cites) && citedBy == old(citedBy)
      ensures old(HasProperAuthors()) ==> HasProperAuthors()
      ensures rank <= 0 ==> out == Fail(RankNotPositive)
      ensures rank > |old(authors)| + 1 ==> out == Fail(RankTooBig)
      ensures 1 <= rank <= |old(authors)| + 1 && ConvertName(name).Failure? ==> out == Fail(PublicationError.AuthorNameNotValid)
      ensures out.Fail? ==> authors == old(authors) && unchanged(db.authorIndex)
      ensures out.Pass? <==> 1 <= rank <= |old(authors)| + 1 && ConvertName(name).Success?
      ensures out.Pass? ==> |authors| == |old(authors)| + 1
      ensures out.Pass? ==> authors == old(authors)[..rank - 1] + [ConvertName(name).value] + old(authors)[rank - 1..]
    {
      if rank <= 0 {
        return Fail(RankNotPositive);
      }
      if rank > |authors| + 1 {
        return Fail(RankTooBig);
      }
      var converted := ConvertName(name);
      if converted.Failure? {
        return Fail(PublicationError.AuthorNameNotValid);
      }
      ghost var e0 := db.Entries();
      ghost var ai0 := db.authorIndex.index;
      ghost var ti0 := db.titleWordIndex.index;
      ghost var old0 := authors;
      OnlyAtOwnId(db, this);
      StoreAuthors(authors[..rank - 1] + [converted.value] + authors[rank - 1..], db);
      ProperAuthorsInsert(old0, rank - 1, converted.value);
      if referenceId.Some? {
        var filed := db.AddAuthorNameToIndex(rank, referenceId);
        InsertAuthorConsistent(e0, db.idCounter, referenceId.value, rank - 1, converted.value, ai0, ti0);
      }
      out := Pass;
    }

    /** addAsAuthor: the author is appended after the last one, and a registered publication files
        the new key. An invalid name is refused and nothing changes. */
    method AddAsAuthor(name: Option<string>, db: RefDb) returns (out: Outcome<PublicationError>)
      requires db.Valid() && db.HasProperReferenceId(this)
      modifies this, db.authorIndex
      ensures db.Valid() && db.HasProperReferenceId(this)
      ensures title == old(title) && referenceId == old(referenceId)
      ensures cites == old(cites) && citedBy == old(citedBy)
      ensures old(HasProperAuthors()) ==> HasProperAuthors()
      ensures ConvertName(name).Failure? ==> out == Fail(PublicationError.AuthorNameNotValid) && authors == old(authors) && unchanged(db.authorIndex)
      ensures ConvertName(name).Success? ==> out == Pass && authors == old(authors) + [ConvertName(name).value]
    {
      var converted := ConvertName(name);
      if converted.Failure? {
        return Fail(PublicationError.AuthorNameNotValid);
      }
      ghost var e0 := db.Entries();
      ghost var ai0 := db.authorIndex.index;
      ghost var ti0 := db.titleWordIndex.index;
      ghost var old0 := authors;
      OnlyAtOwnId(db, this);
      StoreAuthors(authors + [converted.value], db);
      ProperAuthorsAppend(old0, converted.value);
      if referenceId.Some? {
        var filed := db.AddAuthorNameToIndex(|authors|, referenceId);
        AppendAuthorConsistent(e0, db.idCounter, referenceId.value, converted.value, ai0, ti0);
      }
      out := Pass;
    }

    /** removeAuthorAt: the author at a rank from 1 to the number of authors is dropped and later
        authors move one rank down. A registered publication withdraws the author's key, unless
        another of its authors still has that key. */
    method RemoveAuthorAt(rank: int, db: RefDb) returns (out: Outcome<PublicationError>)
      requires db.Valid() && db.HasProperReferenceId(this)
      modifies this, db.authorIndex
      ensures db.Valid() && db.HasProperReferenceId(this)
      ensures title == old(title) && referenceId == old(referenceId)
      ensures cites == old(cites) && citedBy == old(citedBy)
      ensures old(HasProperAuthors()) ==> HasProperAuthors()
      ensures rank <= 0 ==> out == Fail(RankNotPositive)
      ensures rank > |old(authors)| ==> out == Fail(RankTooBig)
      ensures out.Fail? ==> authors == old(authors) && unchanged(db.authorIndex)
      ensures out.Pass? <==> 1 <= rank <= |old(authors)|
      ensures out.Pass? ==> |authors| == |old(authors)| - 1
      ensures out.Pass? ==> authors == old(authors)[..rank - 1] + old(authors)[rank..]
    {
      if rank <= 0 {
        return Fail(RankNotPositive);
      }
      if rank > |authors| {
        return Fail(RankTooBig);
      }
      ghost var e0 := db.Entries();
      ghost var ai0 := db.authorIndex.index;
      ghost var ti0 := db.titleWordIndex.index;
      ghost var old0 := authors;
      OnlyAtOwnId(db, this);
      var shared := SharedKey(authors, rank - 1);
      if referenceId.Some? && !shared {
        var withdrawn := db.RemoveAuthorNameFromIndex(rank, referenceId);
      }
      StoreAuthors(authors[..rank - 1] + authors[rank..], db);
      ProperAuthorsRemove(old0, rank - 1);
      if referenceId.Some? {
        RemoveAuthorConsistent(e0, db.idCounter, referenceId.value, rank - 1, ai0, ti0);
      }
      out := Pass;
    }

    /** One round of removeAsAuthor: the author at `rank` is dropped with removeAuthorAt, which
        leaves every other author, so the authors without that name stay the same. */
    method StrikeAuthorAt(rank: nat, db: RefDb)
      requires db.Valid() && db.HasProperReferenceId(this)
      requires 1 <= rank <= |authors|
      modifies this, db.authorIndex
      ensures db.Valid() && db.HasProperReferenceId(this)
      ensures title == old(title) && referenceId == old(referenceId)
      ensures cites == old(cites) && citedBy == old(citedBy)
      ensures old(HasProperAuthors()) ==> HasProperAuthors()
      ensures |authors| == |old(authors)| - 1
      ensures Without(authors, old(authors)[rank - 1]) == Without(old(authors), old(authors)[rank - 1])
    {
      ghost var before := authors;
      var removed := RemoveAuthorAt(rank, db);
      assert authors == before[..rank - 1] + before[rank..];
      WithoutDropOne(before, rank - 1, before[rank - 1]);
    }

    /** removeAsAuthor: every occurrence of the name is dropped; the loop starts over after each
        removal. An invalid name is refused when there is at least one author to compare with. */
    method RemoveAsAuthor(name: Option<string>, db: RefDb) returns (out: Outcome<PublicationError>)
      requires db.Valid() && db.HasProperReferenceId(this)
      modifies this, db.authorIndex
      ensures db.Valid() && db.HasProperReferenceId(this)
      ensures title == old(title) && referenceId == old(referenceId)
      ensures cites == old(cites) && citedBy == old(citedBy)
      ensures old(HasProperAuthors()) ==> HasProperAuthors()
      ensures old(authors) == [] ==> out == Pass && authors == []
      ensures old(authors) != [] && ConvertName(name).Failure? ==>
        out == Fail(PublicationError.AuthorNameNotValid) && authors == old(authors)
      ensures ConvertName(name).Success? ==> out == Pass && authors == Without(old(authors), ConvertName(name).value)
    {
      ghost var target := ConvertName(name);
      ghost var authors0 := authors;
      var rank := 1;
      while rank <= |authors|
        invariant 1 <= rank <= |authors| + 1
        invariant db.Valid() && db.HasProperReferenceId(this)
        invariant title == old(title) && referenceId == old(referenceId)
        invariant cites == old(cites) && citedBy == old(citedBy)
        invariant old(HasProperAuthors()) ==> HasProperAuthors()
        invariant target.Failure? ==> authors == authors0 && rank == 1
        invariant authors0 == [] ==> authors == []
        invariant target.Success? ==>
          && Without(authors, target.value) == Without(authors0, target.value)
          && target.value !in authors[..rank - 1]
        decreases |authors|, |authors| + 1 - rank
      {
        var converted := ConvertName(name);
        if converted.Failure? {
          return Fail(PublicationError.AuthorNameNotValid);
        }
        if authors[rank - 1] == converted.value {
          StrikeAuthorAt(rank, db);
          rank := 1;
        } else {
          assert authors[..rank] == authors[..rank - 1] + [authors[rank - 1]];
          rank := rank + 1;
        }
      }
      if target.Success? {
        assert authors[..rank - 1] == authors;
        WithoutAbsent(authors, target.value);
      }
      out := Pass;
    }

    // -------------------------------------------------------------------------------------------
    // Title

    /** The assignment of the title field, seen from the database: the entry of this publication
        changes, when it is registered, and no other entry. */
    method StoreTitle(t: string, db: RefDb)
      requires OnlyAt(db.idTable, this, referenceId)
      modifies this
      ensures title == t && authors == old(authors) && referenceId == old(referenceId)
      ensures cites == old(cites) && citedBy == old(citedBy)
      ensures OnlyAt(db.idTable, this, referenceId)
      ensures db.Registered(this) ==> db.Entries() == old(db.Entries())[referenceId.value := Record()]
      ensures !db.Registered(this) ==> db.Entries() == old(db.Entries())
    {
      ghost var rest := db.EntriesExcept(this);
      ghost var r0 := Record();
      EntriesSplit(db, this);
      title := t;
      EntriesSplit(db, this);
      if db.Registered(this) {
        UpdateTwice(rest, referenceId.value, r0, Record());
      }
    }

    /** setTitle: a null or blank title is refused; otherwise the trimmed title is stored, and a
        registered publication withdraws its old title words before the change and files the new
        ones after it. */
    method SetTitle(t: Option<string>, db: RefDb) returns (out: Outcome<PublicationError>)
      requires db.Valid() && db.HasProperReferenceId(this)
      modifies this, db.titleWordIndex
      ensures db.Valid() && db.HasProperReferenceId(this)
      ensures authors == old(authors) && referenceId == old(referenceId)
      ensures cites == old(cites) && citedBy == old(citedBy)
      ensures t.None? ==> out == Fail(TitleIsNull)
      ensures t.Some? && IsBlank(t.value) ==> out == Fail(TitleIsBlank)
      ensures out.Fail? ==> title == old(title) && unchanged(db.titleWordIndex)
      ensures t.Some? && !IsBlank(t.value) ==> out == Pass && title == Trim(t.value)
      ensures out.Pass? ==> title != [] && HasTrimmedEnds(title)
    {
      if t.None? {
        return Fail(TitleIsNull);
      }
      if IsBlank(t.value) {
        return Fail(TitleIsBlank);
      }
      ghost var e0 := db.Entries();
      ghost var ai0 := db.authorIndex.index;
      ghost var ti0 := db.titleWordIndex.index;
      OnlyAtOwnId(db, this);
      if referenceId.Some? {
        db.RemoveTitleWordsFromIndex(referenceId);
      }
      StoreTitle(Trim(t.value), db);
      if referenceId.Some? {
        db.AddTitleWordsToIndex(referenceId);
        RetitleConsistent(e0, db.idCounter, referenceId.value, title, ai0, ti0);
      }
      out := Pass;
    }

    // -------------------------------------------------------------------------------------------
    // Equality

    /** isEqualTo: the titles agree ignoring case, then the years, then the classes; then the
        author loop takes the first remaining author of this publication, strikes it and its first
        match from copies of both lists and starts over, failing when it finds no match or when
        authors of `q` are left over. */
    method IsEqualTo(q: Publication) returns (eq: bool)
      ensures eq <==> SameDescription(this, q)
    {
      if LowerStr(title) != LowerStr(q.title) || year != q.year || kind != q.kind {
        return false;
      }
      var mine := FullNames(authors);
      var theirs := FullNames(q.authors);
      SameAuthorsIsMultisetEquality(mine, theirs);
      while mine != []
        invariant SameAuthors(mine, theirs) == SameAuthors(FullNames(authors), FullNames(q.authors))
        decreases |mine|
      {
        var j := 0;
        while j < |theirs| && theirs[j] != mine[0]
          invariant 0 <= j <= |theirs|
          invariant mine[0] !in theirs[..j]
        {
          j := j + 1;
        }
        if j == |theirs| {
          assert theirs[..j] == theirs;
          SameAuthorsUnmatched(mine, theirs);
          return false;
        }
        SameAuthorsStrike(mine, theirs, j);
        mine := mine[1..];
        theirs := theirs[..j] + theirs[j + 1..];
      }
      eq := theirs == [];
    }
  }

  /** The citation graph over a closed set of publications: every publication's citations and
      citators lie inside the set and mirror each other, and no publication cites itself. */
  ghost predicate CitationGraph(world: set<Publication>)
    reads world`cites, world`citedBy
  {
    forall p :: p in world ==>
      p.cites <= world && p.citedBy <= world && p.HasProperCitations() && p.HasProperCitators()
  }

  /** The equality of isEqualTo: the same title ignoring case, the same year, the same class, and
      the same authors in the default name format, each name occurring equally often in both
      lists (identically named authors count separately). */
  predicate SameDescription(p: Publication, q: Publication)
    reads p`title, p`authors, q`title, q`authors
  {
    && EqualsIgnoreCase(p.title, q.title)
    && p.year == q.year
    && p.kind == q.kind
    && multiset(FullNames(p.authors)) == multiset(FullNames(q.authors))
  }

  /** Two lists of proper authors with the same default names, counted with multiplicity, have the
      same authors; so the first author of one has its initials key in the other. */
  lemma SameNamesShareKey(a: seq<Name>, b: seq<Name>)
    requires ProperAuthors(a) && ProperAuthors(b) && a != []
    requires multiset(FullNames(a)) == multiset(FullNames(b))
    ensures Initials(a[0]) in AuthorKeys(b)
  {
    assert FullNames(a)[0] == FullName(a[0]);
    assert FullName(a[0]) in multiset(FullNames(b));
    var j :| 0 <= j < |b| && FullNames(b)[j] == FullName(a[0]);
    FullNameRoundTrip(a[0]);
    FullNameRoundTrip(b[j]);
    assert b[j] == a[0];
  }

  /** Dropping a registered entry keeps the database consistent once its id is withdrawn from its
      author keys and title words. */
  lemma RemoveEntryConsistent(e0: map<nat, Entry>, counter: nat, id: nat, ai: Index, ti: Index,
                              e1: map<nat, Entry>, ai1: Index, ti1: Index)
    requires Consistent(e0, counter, ai, ti) && id in e0
    requires e1 == e0 - {id}
    requires ai1 == RemoveUnder(ai, AuthorKeys(e0[id].authors), id) && ti1 == RemoveUnder(ti, TitleWords(e0[id].title), id)
    ensures Consistent(e1, counter, ai1, ti1)
  {
    var ak := AuthorKeysOf(e0);
    var tk := TitleKeysOf(e0);
    RemoveUnderMatches(ai, ak, ak[id], id);
    DropKeylessId(ai1, ak[id := ak[id] - ak[id]], id);
    assert ak[id := ak[id] - ak[id]] - {id} == ak - {id};
    RemoveUnderMatches(ti, tk, tk[id], id);
    DropKeylessId(ti1, tk[id := tk[id] - tk[id]], id);
    assert tk[id := tk[id] - tk[id]] - {id} == tk - {id};
    KeysOfRemove(e0, id);
  }

  /** The citation loop of removePublicationFromDb: `p` stops citing every publication it cites
      that carries an id; a citation of a publication without an id stays. */
  method DropRegisteredCitations(p: Publication, ghost world: set<Publication>)
    requires p in world && CitationGraph(world)
    modifies world
    ensures CitationGraph(world)
    ensures forall q :: q in world ==> SameRecord(q)
    ensures p.cites == set c | c in old(p.cites) && c.referenceId.None?
    ensures p.citedBy == old(p.citedBy)
    ensures forall q :: q in world && q != p ==> q.cites == old(q.cites)
    ensures forall q :: q in world && q != p ==>
      q.citedBy == if q in old(p.cites) && q.referenceId.Some? then old(q.citedBy) - {p} else old(q.citedBy)
  {
    var citations := p.cites;
    var todo := citations;
    while todo != {}
      invariant todo <= citations && citations == old(p.cites)
      invariant CitationGraph(world)
      invariant forall q :: q in world ==> SameRecord(q)
      invariant p.cites == set c | c in citations && (c in todo || c.referenceId.None?)
      invariant p.citedBy == old(p.citedBy)
      invariant forall q :: q in world && q != p ==> q.cites == old(q.cites)
      invariant forall q :: q in world && q != p ==>
        q.citedBy == if q in citations && q !in todo && q.referenceId.Some? then old(q.citedBy) - {p} else old(q.citedBy)
      decreases |todo|
    {
      var c :| c in todo;
      if c.referenceId.Some? {
        p.RemoveAsCitation(c, world);
      }
      todo := todo - {c};
    }
  }

  /** The citator loop of removePublicationFromDb: every publication citing `p` that carries an id
      stops citing it; a citator without an id keeps its citation. */
  method DropRegisteredCitators(p: Publication, ghost world: set<Publication>)
    requires p in world && CitationGraph(world)
    modifies world
    ensures CitationGraph(world)
    ensures forall q :: q in world ==> SameRecord(q)
    ensures p.citedBy == set c | c in old(p.citedBy) && c.referenceId.None?
    ensures p.cites == old(p.cites)
    ensures forall q :: q in world && q != p ==> q.citedBy == old(q.citedBy)
    ensures forall q :: q in world && q != p ==>
      q.cites == if q in old(p.citedBy) && q.referenceId.Some? then old(q.cites) - {p} else old(q.cites)
  {
    var citators := p.citedBy;
    var todo := citators;
    while todo != {}
      invariant todo <= citators && citators == old(p.citedBy)
      invariant CitationGraph(world)
      invariant forall q :: q in world ==> SameRecord(q)
      invariant p.citedBy == set c | c in citators && (c in todo || c.referenceId.None?)
      invariant p.cites == old(p.cites)
      invariant forall q :: q in world && q != p ==> q.citedBy == old(q.citedBy)
      invariant forall q :: q in world && q != p ==>
        q.cites == if q in citators && q !in todo && q.referenceId.Some? then old(q.cites) - {p} else old(q.cites)
      decreases |todo|
    {
      var c :| c in todo;
      if c.referenceId.Some? {
        c.RemoveAsCitation(p, world);
      }
      todo := todo - {c};
    }
  }

  /** The first loop of terminate: `p` stops citing every publication it cites. */
  method DropAllCitations(p: Publication, ghost world: set<Publication>)
    requires p in world && CitationGraph(world)
    modifies world
    ensures CitationGraph(world)
    ensures forall q :: q in world ==> SameRecord(q)
    ensures p.cites == {} && p.citedBy == old(p.citedBy)
    ensures forall q :: q in world && q != p ==> q.cites == old(q.cites)
    ensures forall q :: q in world && q != p ==>
      q.citedBy == if q in old(p.cites) then old(q.citedBy) - {p} else old(q.citedBy)
  {
    var citations := p.cites;
    var todo := citations;
    while todo != {}
      invariant todo <= citations && citations == old(p.cites)
      invariant CitationGraph(world)
      invariant forall q :: q in world ==> SameRecord(q)
      invariant p.cites == todo && p.citedBy == old(p.citedBy)
      invariant forall q :: q in world && q != p ==> q.cites == old(q.cites)
      invariant forall q :: q in world && q != p ==>
        q.citedBy == if q in citations && q !in todo then old(q.citedBy) - {p} else old(q.citedBy)
      decreases |todo|
    {
      var c :| c in todo;
      p.RemoveAsCitation(c, world);
      todo := todo - {c};
    }
  }

  /** The second loop of terminate: every publication citing `p` stops citing it. */
  method DropAllCitators(p: Publication, ghost world: set<Publication>)
    requires p in world && CitationGraph(world)
    modifies world
    ensures CitationGraph(world)
    ensures forall q :: q in world ==> SameRecord(q)
    ensures p.citedBy == {} && p.cites == old(p.cites)
    ensures forall q :: q in world && q != p ==> q.citedBy == old(q.citedBy)
    ensures forall q :: q in world && q != p ==>
      q.cites == if q in old(p.citedBy) then old(q.cites) - {p} else old(q.cites)
  {
    var citators := p.citedBy;
    var todo := citators;
    while todo != {}
      invariant todo <= citators && citators == old(p.citedBy)
      invariant CitationGraph(world)
      invariant forall q :: q in world ==> SameRecord(q)
      invariant p.citedBy == todo && p.cites == old(p.cites)
      invariant forall q :: q in world && q != p ==> q.citedBy == old(q.citedBy)
      invariant forall q :: q in world && q != p ==>
        q.cites == if q in citators && q !in todo then old(q.cites) - {p} else old(q.cites)
      decreases |todo|
    {
      var c :| c in todo;
      c.RemoveAsCitation(p, world);
      todo := todo - {c};
    }
  }

  /** A publication that cites nothing and is cited by nothing is linked to no publication of a
      well-formed citation graph. */
  lemma Unlinked(world: set<Publication>, p: Publication)
    requires CitationGraph(world) && p.cites == {} && p.citedBy == {}
    ensures forall q :: q in world ==> p !in q.cites && p !in q.citedBy
  {
  }

  /** The publications hasSamePublicationInDb can find through the indexes: those with proper
      authors and at least one author or one title word. */
  predicate Findable(p: Publication)
    reads p
  {
    p.HasProperAuthors() && (p.authors != [] || SplitWords(LowerStr(p.title)) != [])
  }

  /** Registering an entry under a fresh id above the counter keeps the database consistent once
      the id is filed under its author keys and title words, and the counter moves to the id. */
  lemma InsertEntryConsistent(e0: map<nat, Entry>, counter: nat, id: nat, e: Entry, ai: Index, ti: Index,
                               e1: map<nat, Entry>, ai1: Index, ti1: Index)
    requires Consistent(e0, counter, ai, ti) && counter < id
    requires e.referenceId == Some(id) && ProperAuthors(e.authors)
    requires e1 == e0[id := e] && ai1 == AddUnder(ai, AuthorKeys(e.authors), id) && ti1 == AddUnder(ti, TitleWords(e.title), id)
    ensures Consistent(e1, id, ai1, ti1)
  {
    assert id !in e0;
    KeysOfUpdate(e0, id, e);
    assert KeysOf(AuthorKeysOf(e0), id) + AuthorKeys(e.authors) == AuthorKeys(e.authors);
    assert KeysOf(TitleKeysOf(e0), id) + TitleWords(e.title) == TitleWords(e.title);
    AddUnderMatches(ai, AuthorKeysOf(e0), AuthorKeys(e.authors), id);
    AddUnderMatches(ti, TitleKeysOf(e0), TitleWords(e.title), id);
  }

  /** One of the initials keys of the authors equals `key`, ignoring case (the inner loop of
      isValidAuthorIndexTuple). */
  predicate HasAuthorKeyIgnoringCase(authors: seq<Name>, key: string) {
    exists i :: 0 <= i < |authors| && EqualsIgnoreCase(key, Initials(authors[i]))
  }

  /** Every author key is matched, ignoring case, by the initials of some author. */
  lemma AuthorKeyHasAuthor(authors: seq<Name>, k: string)
    requires k in AuthorKeys(authors)
    ensures HasAuthorKeyIgnoringCase(authors, k)
  {
    var i :| 0 <= i < |authors| && Initials(authors[i]) == k;
    assert EqualsIgnoreCase(k, Initials(authors[i]));
  }

  /** One of the words of the title, split as it is (not lower-cased), equals `key`, ignoring case
      (the inner loop of isValidTitleWordIndexTuple). */
  predicate HasTitleWordIgnoringCase(title: string, key: string) {
    exists i :: 0 <= i < |SplitWords(title)| && EqualsIgnoreCase(key, SplitWords(title)[i])
  }

  class RefDb {
    var idTable: map<nat, Publication>
    const authorIndex: RefDbIndex
    const titleWordIndex: RefDbIndex
    var idCounter: nat

    /** An empty database. */
    constructor()
      ensures Valid() && idTable == map[] && idCounter == 0
      ensures fresh(authorIndex) && fresh(titleWordIndex)
    {
      idTable := map[];
      idCounter := 0;
      authorIndex := new RefDbIndex();
      titleWordIndex := new RefDbIndex();
    }

    /** The entries of the registered publications. */
    ghost function Entries(): map<nat, Entry>
      reads this`idTable, idTable.Values`title, idTable.Values`authors, idTable.Values`referenceId
    {
      map id | id in idTable :: idTable[id].Record()
    }

    /** The entries of the registered publications other than `p`. */
    ghost function EntriesExcept(p: Publication): map<nat, Entry>
      reads this`idTable, (idTable.Values - {p})`title, (idTable.Values - {p})`authors, (idTable.Values - {p})`referenceId
    {
      map id | id in idTable && idTable[id] != p :: idTable[id].Record()
    }

    /** The invariants of RefDb: two distinct index objects, consistent with the entries of the
        registered publications. */
    ghost predicate Valid()
      reads this, idTable.Values, authorIndex, titleWordIndex
    {
      authorIndex != titleWordIndex && Consistent(Entries(), idCounter, authorIndex.index, titleWordIndex.index)
    }

    /** The publication is the one stored under its own id. */
    ghost predicate Registered(p: Publication)
      reads this, p
    {
      p.referenceId.Some? && p.referenceId.value in idTable && idTable[p.referenceId.value] == p
    }

    /** hasProperReferenceId: a publication without id is proper; one with an id must be the
        publication stored under it. */
    predicate HasProperReferenceId(p: Publication)
      reads this, p
    {
      p.referenceId.None? || (p.referenceId.value in idTable && idTable[p.referenceId.value] == p)
    }

    /** hasIdinDb: a non-null id that is a key of the id table. */
    predicate HasIdInDb(id: Option<nat>)
      reads this
    {
      id.Some? && id.value in idTable
    }

    // -------------------------------------------------------------------------------------------
    // Index maintenance

    /** addAuthorNameToIndex: files the id under the initials key of the author at `rank`; an id
        that is null or not in the table is ignored. */
    method AddAuthorNameToIndex(rank: int, id: Option<nat>) returns (out: Outcome<PublicationError>)
      modifies authorIndex
      ensures !HasIdInDb(id) ==> out == Pass && unchanged(authorIndex)
      ensures HasIdInDb(id) && rank <= 0 ==> out == Fail(RankNotPositive) && unchanged(authorIndex)
      ensures HasIdInDb(id) && rank > |idTable[id.value].authors| ==> out == Fail(RankTooBig) && unchanged(authorIndex)
      ensures HasIdInDb(id) && 1 <= rank <= |idTable[id.value].authors| ==>
        && out == Pass
        && authorIndex.index == AddUnder(old(authorIndex.index), {Initials(idTable[id.value].authors[rank - 1])}, id.value)
      ensures Entries() == old(Entries())
    {
      if !HasIdInDb(id) {
        return Pass;
      }
      var authorName := idTable[id.value].GetAuthorWithInitialAt(rank);
      if authorName.Failure? {
        return Fail(authorName.error);
      }
      authorIndex.index := AddKey(authorIndex.index, authorName.value, id.value);
      out := Pass;
    }

    /** removeAuthorNameFromIndex, tolerating an absent key: withdraws the id from the initials key
        of the author at `rank`, deleting the key when no id is left under it. */
    method RemoveAuthorNameFromIndex(rank: int, id: Option<nat>) returns (out: Outcome<PublicationError>)
      modifies authorIndex
      ensures !HasIdInDb(id) ==> out == Pass && unchanged(authorIndex)
      ensures HasIdInDb(id) && rank <= 0 ==> out == Fail(RankNotPositive) && unchanged(authorIndex)
      ensures HasIdInDb(id) && rank > |idTable[id.value].authors| ==> out == Fail(RankTooBig) && unchanged(authorIndex)
      ensures HasIdInDb(id) && 1 <= rank <= |idTable[id.value].authors| ==>
        && out == Pass
        && authorIndex.index == RemoveUnder(old(authorIndex.index), {Initials(idTable[id.value].authors[rank - 1])}, id.value)
      ensures Entries() == old(Entries())
    {
      if !HasIdInDb(id) {
        return Pass;
      }
      var authorName := idTable[id.value].GetAuthorWithInitialAt(rank);
      if authorName.Failure? {
        return Fail(authorName.error);
      }
      authorIndex.index := RemoveKey(authorIndex.index, authorName.value, id.value);
      out := Pass;
    }

    /** The author loop of addPublicationToDb: addAuthorNameToIndex for every rank from the first
        to the last, filing the id under the initials key of every author. */
    method AddAuthorNamesToIndex(id: Option<nat>)
      modifies authorIndex
      ensures !HasIdInDb(id) ==> unchanged(authorIndex)
      ensures HasIdInDb(id) ==>
        authorIndex.index == AddUnder(old(authorIndex.index), AuthorKeys(idTable[id.value].authors), id.value)
      ensures Entries() == old(Entries())
    {
      if !HasIdInDb(id) {
        return;
      }
      var authors := idTable[id.value].authors;
      ghost var index0 := authorIndex.index;
      AddUnderNothing(index0, id.value);
      assert KeysBefore(authors, 0) == {};
      var rank := 1;
      while rank <= |authors|
        invariant 1 <= rank <= |authors| + 1
        invariant authors == idTable[id.value].authors && Entries() == old(Entries())
        invariant authorIndex.index == AddUnder(index0, KeysBefore(authors, rank - 1), id.value)
      {
        FileNextAuthor(index0, authors, rank - 1, id.value, authorIndex.index);
        var filed := AddAuthorNameToIndex(rank, id);
        rank := rank + 1;
      }
      KeysBeforeAll(authors);
    }

    /** The author loop of removePublicationFromDb: removeAuthorNameFromIndex for every rank from
        the last down to the first, withdrawing the id from the initials key of every author. */
    method RemoveAuthorNamesFromIndex(id: Option<nat>)
      modifies authorIndex
      ensures !HasIdInDb(id) ==> unchanged(authorIndex)
      ensures HasIdInDb(id) ==>
        authorIndex.index == RemoveUnder(old(authorIndex.index), AuthorKeys(idTable[id.value].authors), id.value)
      ensures Entries() == old(Entries())
    {
      if !HasIdInDb(id) {
        return;
      }
      var authors := idTable[id.value].authors;
      ghost var index0 := authorIndex.index;
      RemoveUnderNothing(index0, id.value);
      assert authors[|authors|..] == [];
      var rank := |authors|;
      while rank > 0
        invariant 0 <= rank <= |authors|
        invariant authors == idTable[id.value].authors && Entries() == old(Entries())
        invariant authorIndex.index == RemoveUnder(index0, AuthorKeys(authors[rank..]), id.value)
      {
        var withdrawn := RemoveAuthorNameFromIndex(rank, id);
        RemoveKeyStep(index0, AuthorKeys(authors[rank..]), Initials(authors[rank - 1]), id.value);
        AuthorKeysSuffix(authors, rank - 1);
        rank := rank - 1;
      }
      assert authors[0..] == authors;
    }

    /** addTitleWordsToIndex: files the id under every word of the lower-cased title, word by word,
        each under the word itself. */
    method AddTitleWordsToIndex(id: Option<nat>)
      modifies titleWordIndex
      ensures !HasIdInDb(id) ==> unchanged(titleWordIndex)
      ensures HasIdInDb(id) ==>
        titleWordIndex.index == AddUnder(old(titleWordIndex.index), TitleWords(idTable[id.value].title), id.value)
      ensures Entries() == old(Entries())
    {
      if !HasIdInDb(id) {
        return;
      }
      var words := SplitWords(LowerStr(idTable[id.value].title));
      ghost var index0 := titleWordIndex.index;
      AddUnderNothing(index0, id.value);
      assert WordSet(words[..0]) == {};
      var i := 0;
      while i < |words|
        invariant 0 <= i <= |words|
        invariant titleWordIndex.index == AddUnder(index0, WordSet(words[..i]), id.value)
      {
        AddKeyStep(index0, WordSet(words[..i]), words[i], id.value);
        WordSetStep(words, i);
        titleWordIndex.index := AddKey(titleWordIndex.index, words[i], id.value);
        i := i + 1;
      }
      assert words[..i] == words;
    }

    /** removeTitleWordsFromIndex: withdraws the id from every word of the lower-cased title,
        skipping absent words and deleting the keys left without ids. */
    method RemoveTitleWordsFromIndex(id: Option<nat>)
      modifies titleWordIndex
      ensures !HasIdInDb(id) ==> unchanged(titleWordIndex)
      ensures HasIdInDb(id) ==>
        titleWordIndex.index == RemoveUnder(old(titleWordIndex.index), TitleWords(idTable[id.value].title), id.value)
      ensures Entries() == old(Entries())
    {
      if !HasIdInDb(id) {
        return;
      }
      var words := SplitWords(LowerStr(idTable[id.value].title));
      ghost var index0 := titleWordIndex.index;
      RemoveUnderNothing(index0, id.value);
      assert WordSet(words[..0]) == {};
      var i := 0;
      while i < |words|
        invariant 0 <= i <= |words|
        invariant titleWordIndex.index == RemoveUnder(index0, WordSet(words[..i]), id.value)
      {
        RemoveKeyStep(index0, WordSet(words[..i]), words[i], id.value);
        WordSetStep(words, i);
        titleWordIndex.index := RemoveKey(titleWordIndex.index, words[i], id.value);
        i := i + 1;
      }
      assert words[..i] == words;
    }

    // -------------------------------------------------------------------------------------------
    // Lookups

    /** getPublicationById: the publication stored under a non-null id of the table, or null. */
    function GetPublicationById(id: Option<nat>): (r: Option<Publication>)
      reads this
      ensures r.Some? <==> HasIdInDb(id)
      ensures r.Some? ==> r.value in idTable.Values
    {
      if HasIdInDb(id) then Some(idTable[id.value]) else None
    }

    /** The publications stored under the ids of `ids`. */
    function PublicationsOf(ids: set<nat>): set<Publication>
      reads this
    {
      set id | id in ids && id in idTable :: idTable[id]
    }

    /** convertSetOfIdsToSetOfPublications: the publications stored under the ids, skipping the ids
        that are not in the table. */
    method ConvertSetOfIds(ids: set<nat>) returns (r: set<Publication>)
      ensures r == PublicationsOf(ids)
    {
      r := {};
      var rest := ids;
      while rest != {}
        invariant rest <= ids
        invariant r == PublicationsOf(ids - rest)
        decreases |rest|
      {
        var id :| id in rest;
        ghost var done := ids - rest;
        if id in idTable {
          r := r + {idTable[id]};
        }
        rest := rest - {id};
        assert ids - rest == done + {id};
      }
    }

    /** getPublicationsByAuthorName: null is refused; otherwise the publications filed under the
        trimmed name in the author index, none when the key is absent. With a consistent index
        these are exactly the registered publications with an author of those initials. */
    method GetPublicationsByAuthorName(authorName: Option<string>) returns (r: Result<set<Publication>, DbError>)
      requires Valid()
      ensures authorName.None? <==> r == Failure(AuthorNameIsNull)
      ensures r.Success? ==> forall p :: p in r.value <==>
        p in idTable.Values && Trim(authorName.value) in AuthorKeys(p.authors)
    {
      if authorName.None? {
        return Failure(AuthorNameIsNull);
      }
      var key := Trim(authorName.value);
      AuthorLookup(key);
      var ids := authorIndex.GetIdSetForKey(key);
      if ids.Some? {
        var found := ConvertSetOfIds(ids.value);
        return Success(found);
      }
      return Success({});
    }

    /** getPublicationsByTitleWord: null is refused; otherwise the publications filed under the
        trimmed, lower-cased word in the title-word index. With a consistent index these are
        exactly the registered publications whose lower-cased title has that word. */
    method GetPublicationsByTitleWord(word: Option<string>) returns (r: Result<set<Publication>, DbError>)
      requires Valid()
      ensures word.None? <==> r == Failure(WordIsNull)
      ensures r.Success? ==> forall p :: p in r.value <==>
        p in idTable.Values && LowerStr(Trim(word.value)) in TitleWords(p.title)
    {
      if word.None? {
        return Failure(WordIsNull);
      }
      var key := LowerStr(Trim(word.value));
      TitleLookup(key);
      var ids := titleWordIndex.GetIdSetForKey(key);
      if ids.Some? {
        var found := ConvertSetOfIds(ids.value);
        return Success(found);
      }
      return Success({});
    }

    /** Looking a key up in a consistent author index finds exactly the registered publications
        with an author of those initials. */
    lemma AuthorLookup(k: string)
      requires Valid()
      ensures forall p :: p in (if k in authorIndex.index then PublicationsOf(authorIndex.index[k]) else {}) <==>
        p in idTable.Values && k in AuthorKeys(p.authors)
    {
      var keys := AuthorKeysOf(Entries());
      forall p
        ensures p in (if k in authorIndex.index then PublicationsOf(authorIndex.index[k]) else {}) <==>
          p in idTable.Values && k in AuthorKeys(p.authors)
      {
        if p in idTable.Values && k in AuthorKeys(p.authors) {
          var id :| id in idTable && idTable[id] == p;
          assert id in keys && k in keys[id];
        }
        if k in authorIndex.index && p in PublicationsOf(authorIndex.index[k]) {
          var id :| id in authorIndex.index[k] && id in idTable && idTable[id] == p;
          assert id in keys && k in keys[id];
        }
      }
    }

    /** Looking a key up in a consistent title-word index finds exactly the registered
        publications whose title has that word. */
    lemma TitleLookup(k: string)
      requires Valid()
      ensures forall p :: p in (if k in titleWordIndex.index then PublicationsOf(titleWordIndex.index[k]) else {}) <==>
        p in idTable.Values && k in TitleWords(p.title)
    {
      var keys := TitleKeysOf(Entries());
      forall p
        ensures p in (if k in titleWordIndex.index then PublicationsOf(titleWordIndex.index[k]) else {}) <==>
          p in idTable.Values && k in TitleWords(p.title)
      {
        if p in idTable.Values && k in TitleWords(p.title) {
          var id :| id in idTable && idTable[id] == p;
          assert id in keys && k in keys[id];
        }
        if k in titleWordIndex.index && p in PublicationsOf(titleWordIndex.index[k]) {
          var id :| id in titleWordIndex.index[k] && id in idTable && idTable[id] == p;
          assert id in keys && k in keys[id];
        }
      }
    }

    /** In a consistent database the publication found under an id carries that id. */
    lemma LookupMirror(id: Option<nat>)
      requires Valid() && GetPublicationById(id).Some?
      ensures GetPublicationById(id).value.referenceId == id
    {
      assert Entries()[id.value] == idTable[id.value].Record();
    }

    // -------------------------------------------------------------------------------------------
    // Consistency checkers

    /** isValidIdTableTuple for every entry: the publication stored under an id carries that id. */
    predicate MirrorRule()
      reads this, idTable.Values
    {
      forall id :: id in idTable ==> idTable[id].referenceId == Some(id)
    }

    /** isValidAuthorIndexTuple for every key: each publication filed under the key has an author
        with those initials, ignoring case. */
    predicate AuthorIndexTuplesValid()
      reads this, idTable.Values, authorIndex
    {
      forall k :: k in authorIndex.index ==> AuthorTupleValid(k, authorIndex.index[k])
    }

    /** The condition isValidAuthorIndexTuple checks for one key and its ids. */
    predicate AuthorTupleValid(k: string, ids: set<nat>)
      reads this, idTable.Values
    {
      forall p :: p in PublicationsOf(ids) ==> HasAuthorKeyIgnoringCase(p.authors, k)
    }

    /** The condition isValidTitleWordIndexTuple checks for one key and its ids. */
    predicate TitleTupleValid(k: string, ids: set<nat>)
      reads this, idTable.Values
    {
      forall p :: p in PublicationsOf(ids) ==> HasTitleWordIgnoringCase(p.title, k)
    }

    /** isValidTitleWordIndexTuple for every key: each publication filed under the key has the
        word in its title, ignoring case. */
    predicate TitleIndexTuplesValid()
      reads this, idTable.Values, titleWordIndex
    {
      forall k :: k in titleWordIndex.index ==> TitleTupleValid(k, titleWordIndex.index[k])
    }

    /** hasProperIdTable: every entry passes isValidIdTableTuple. */
    method HasProperIdTable() returns (ok: bool)
      ensures ok <==> MirrorRule()
      ensures Valid() ==> ok
    {
      if Valid() {
        ValidMirror();
      }
      var ids := idTable.Keys;
      while ids != {}
        invariant ids <= idTable.Keys
        invariant forall id :: id in idTable && id !in ids ==> idTable[id].referenceId == Some(id)
        decreases |ids|
      {
        var id :| id in ids;
        if idTable[id].referenceId != Some(id) {
          return false;
        }
        ids := ids - {id};
      }
      return true;
    }

    /** isValidAuthorIndexTuple: every publication stored under one of the ids has an author whose
        initials equal the key, ignoring case. */
    method IsValidAuthorIndexTuple(key: string, ids: set<nat>) returns (ok: bool)
      ensures ok <==> AuthorTupleValid(key, ids)
    {
      var pubs := ConvertSetOfIds(ids);
      var rest := pubs;
      while rest != {}
        invariant rest <= pubs
        invariant forall p :: p in pubs && p !in rest ==> HasAuthorKeyIgnoringCase(p.authors, key)
        decreases |rest|
      {
        var p :| p in rest;
        var found := false;
        var i := 0;
        while i < |p.authors| && !found
          invariant 0 <= i <= |p.authors|
          invariant found ==> 0 < i && EqualsIgnoreCase(key, Initials(p.authors[i - 1]))
          invariant !found ==> forall j :: 0 <= j < i ==> !EqualsIgnoreCase(key, Initials(p.authors[j]))
        {
          found := EqualsIgnoreCase(key, Initials(p.authors[i]));
          i := i + 1;
        }
        if !found {
          return false;
        }
        rest := rest - {p};
      }
      return true;
    }

    /** isValidTitleWordIndexTuple: every publication stored under one of the ids has a title word
        equal to the key, ignoring case. */
    method IsValidTitleWordIndexTuple(key: string, ids: set<nat>) returns (ok: bool)
      ensures ok <==> TitleTupleValid(key, ids)
    {
      var pubs := ConvertSetOfIds(ids);
      var rest := pubs;
      while rest != {}
        invariant rest <= pubs
        invariant forall p :: p in pubs && p !in rest ==> HasTitleWordIgnoringCase(p.title, key)
        decreases |rest|
      {
        var p :| p in rest;
        var words := SplitWords(p.title);
        var found := false;
        var i := 0;
        while i < |words| && !found
          invariant 0 <= i <= |words|
          invariant found ==> 0 < i && EqualsIgnoreCase(key, words[i - 1])
          invariant !found ==> forall j :: 0 <= j < i ==> !EqualsIgnoreCase(key, words[j])
        {
          found := EqualsIgnoreCase(key, words[i]);
          i := i + 1;
        }
        if !found {
          return false;
        }
        rest := rest - {p};
      }
      return true;
    }

    /** hasProperAuthorIndex: the generic index check, then isValidAuthorIndexTuple for every key.
        ValidAuthorIndex shows that a consistent database passes it. */
    method HasProperAuthorIndex() returns (ok: bool)
      ensures ok <==> ProperIndex(authorIndex.index, idTable.Keys) && AuthorIndexTuplesValid()
    {
      ok := authorIndex.HasProperIndex(idTable.Keys);
      if !ok {
        return;
      }
      var keys := authorIndex.index.Keys;
      while keys != {}
        invariant keys <= authorIndex.index.Keys
        invariant forall k :: k in authorIndex.index && k !in keys ==> AuthorTupleValid(k, authorIndex.index[k])
        decreases |keys|
      {
        var k :| k in keys;
        var valid := IsValidAuthorIndexTuple(k, authorIndex.index[k]);
        if !valid {
          return false;
        }
        keys := keys - {k};
      }
      return true;
    }

    /** hasProperTitleWordIndex: the generic index check, then isValidTitleWordIndexTuple for every
        key. ValidTitleWordIndex shows that a consistent database passes it. */
    method HasProperTitleWordIndex() returns (ok: bool)
      ensures ok <==> ProperIndex(titleWordIndex.index, idTable.Keys) && TitleIndexTuplesValid()
    {
      ok := titleWordIndex.HasProperIndex(idTable.Keys);
      if !ok {
        return;
      }
      var keys := titleWordIndex.index.Keys;
      while keys != {}
        invariant keys <= titleWordIndex.index.Keys
        invariant forall k :: k in titleWordIndex.index && k !in keys ==> TitleTupleValid(k, titleWordIndex.index[k])
        decreases |keys|
      {
        var k :| k in keys;
        var valid := IsValidTitleWordIndexTuple(k, titleWordIndex.index[k]);
        if !valid {
          return false;
        }
        keys := keys - {k};
      }
      return true;
    }

    /** A consistent database passes hasProperIdTable. */
    lemma ValidMirror()
      requires Valid()
      ensures MirrorRule()
    {
      forall id | id in idTable
        ensures idTable[id].referenceId == Some(id)
      {
        assert Entries()[id] == idTable[id].Record();
      }
    }

    /** A consistent database passes hasProperAuthorIndex. */
    lemma ValidAuthorIndex()
      requires Valid()
      ensures ProperIndex(authorIndex.index, idTable.Keys) && AuthorIndexTuplesValid()
    {
      var keys := AuthorKeysOf(Entries());
      assert keys.Keys == idTable.Keys;
      MatchingIndexIsProper(authorIndex.index, keys);
      forall k, p | k in authorIndex.index && p in PublicationsOf(authorIndex.index[k])
        ensures HasAuthorKeyIgnoringCase(p.authors, k)
      {
        var id :| id in authorIndex.index[k] && id in idTable && idTable[id] == p;
        AuthorKeyOfEntry(keys, k, id);
        AuthorKeyHasAuthor(p.authors, k);
      }
    }

    /** A key under which the index files an id is one of that entry's author keys. */
    lemma AuthorKeyOfEntry(keys: KeyMap, k: string, id: nat)
      requires Valid() && keys == AuthorKeysOf(Entries())
      requires k in authorIndex.index && id in authorIndex.index[k] && id in idTable
      ensures k in AuthorKeys(idTable[id].authors)
    {
      assert k in keys[id];
      assert Entries()[id] == idTable[id].Record();
    }

    /** A consistent database passes hasProperTitleWordIndex: each lower-cased title word is the
        lower case of a word of the title as it is. */
    lemma ValidTitleWordIndex()
      requires Valid()
      ensures ProperIndex(titleWordIndex.index, idTable.Keys) && TitleIndexTuplesValid()
    {
      var keys := TitleKeysOf(Entries());
      assert keys.Keys == idTable.Keys;
      MatchingIndexIsProper(titleWordIndex.index, keys);
      forall k, p | k in titleWordIndex.index && p in PublicationsOf(titleWordIndex.index[k])
        ensures HasTitleWordIgnoringCase(p.title, k)
      {
        var id :| id in titleWordIndex.index[k] && id in idTable && idTable[id] == p;
        assert k in keys[id];
        SplitWordsLower(p.title);
        var words := SplitWords(p.title);
        var i :| 0 <= i < |LowerAll(words)| && LowerAll(words)[i] == k;
        LowerStrIdempotent(words[i]);
        assert EqualsIgnoreCase(k, words[i]);
      }
    }

    // -------------------------------------------------------------------------------------------
    // Registration

    /** hasSamePublicationInDb: the candidates are the ids filed under the initials key of every
        author (getAllAuthorsWithInitial) and under every word of the lower-cased title; there is a
        duplicate when isEqualTo holds for one of them. */
    method HasSamePublicationInDb(p: Publication) returns (r: bool)
      requires Valid()
      ensures r ==> exists id :: id in idTable && SameDescription(p, idTable[id])
      ensures !r && Findable(p) ==> forall id :: id in idTable ==> !SameDescription(p, idTable[id])
    {
      var candidates := AuthorCandidates(p);
      var words := SplitWords(LowerStr(p.title));
      candidates := TitleWordCandidates(words, candidates);
      r := AnySameDescription(p, candidates);
      if !r && Findable(p) {
        assert p.authors != [] ==> Initials(p.authors[0]) in authorIndex.index ==>
          authorIndex.index[Initials(p.authors[0])] <= candidates;
        assert words != [] ==> words[0] in titleWordIndex.index ==> titleWordIndex.index[words[0]] <= candidates;
        NoDuplicateElsewhere(p, candidates);
      }
    }

    /** The first loop of hasSamePublicationInDb: the ids filed under the initials key of each
        author of `p`, all of them registered. */
    method AuthorCandidates(p: Publication) returns (candidates: set<nat>)
      requires Valid()
      ensures candidates <= idTable.Keys
      ensures forall j :: 0 <= j < |p.authors| && Initials(p.authors[j]) in authorIndex.index ==>
        authorIndex.index[Initials(p.authors[j])] <= candidates
    {
      ValidAuthorIndex();
      candidates := {};
      var i := 0;
      while i < |p.authors|
        invariant 0 <= i <= |p.authors|
        invariant candidates <= idTable.Keys
        invariant forall j :: 0 <= j < i && Initials(p.authors[j]) in authorIndex.index ==>
          authorIndex.index[Initials(p.authors[j])] <= candidates
      {
        var ids := authorIndex.GetIdSetForKey(Initials(p.authors[i]));
        if ids.Some? {
          candidates := candidates + ids.value;
        }
        i := i + 1;
      }
    }

    /** The second loop of hasSamePublicationInDb: adds the ids filed under each of `words`, all of
        them registered. */
    method TitleWordCandidates(words: seq<string>, acc: set<nat>) returns (candidates: set<nat>)
      requires Valid() && acc <= idTable.Keys
      ensures acc <= candidates <= idTable.Keys
      ensures forall j :: 0 <= j < |words| && words[j] in titleWordIndex.index ==>
        titleWordIndex.index[words[j]] <= candidates
    {
      ValidTitleWordIndex();
      candidates := acc;
      var i := 0;
      while i < |words|
        invariant 0 <= i <= |words|
        invariant acc <= candidates <= idTable.Keys
        invariant forall j :: 0 <= j < i && words[j] in titleWordIndex.index ==>
          titleWordIndex.index[words[j]] <= candidates
      {
        var ids := titleWordIndex.GetIdSetForKey(words[i]);
        if ids.Some? {
          candidates := candidates + ids.value;
        }
        i := i + 1;
      }
    }

    /** The last loop of hasSamePublicationInDb: isEqualTo against each candidate, stopping at the
        first that matches. */
    method AnySameDescription(p: Publication, candidates: set<nat>) returns (r: bool)
      requires Valid() && candidates <= idTable.Keys
      ensures r <==> exists id :: id in candidates && SameDescription(p, idTable[id])
    {
      var rest := candidates;
      while rest != {}
        invariant rest <= candidates
        invariant forall id :: id in candidates && id !in rest ==> !SameDescription(p, idTable[id])
        decreases |rest|
      {
        var id :| id in rest;
        var q := GetPublicationById(Some(id));
        var eq := p.IsEqualTo(q.value);
        if eq {
          return true;
        }
        rest := rest - {id};
      }
      return false;
    }

    lemma NoDuplicateElsewhere(p: Publication, candidates: set<nat>)
      requires Valid() && Findable(p)
      requires p.authors != [] ==> Initials(p.authors[0]) in authorIndex.index ==>
        authorIndex.index[Initials(p.authors[0])] <= candidates
      requires var words := SplitWords(LowerStr(p.title));
        words != [] ==> words[0] in titleWordIndex.index ==> titleWordIndex.index[words[0]] <= candidates
      requires forall id :: id in candidates && id in idTable ==> !SameDescription(p, idTable[id])
      ensures forall id :: id in idTable ==> !SameDescription(p, idTable[id])
    {
      forall id | id in idTable
        ensures !SameDescription(p, idTable[id])
      {
        if SameDescription(p, idTable[id]) {
          if p.authors != [] {
            AuthorDuplicateIsCandidate(p, id);
          } else {
            TitleDuplicateIsCandidate(p, id);
          }
        }
      }
    }

    /** A registered duplicate of a publication with proper authors is filed under the initials
        key of its first author. */
    lemma AuthorDuplicateIsCandidate(p: Publication, id: nat)
      requires Valid() && id in idTable && SameDescription(p, idTable[id])
      requires p.HasProperAuthors() && p.authors != []
      ensures Initials(p.authors[0]) in authorIndex.index && id in authorIndex.index[Initials(p.authors[0])]
    {
      var q := idTable[id];
      assert Entries()[id] == q.Record();
      SameNamesShareKey(p.authors, q.authors);
      assert Initials(p.authors[0]) in AuthorKeysOf(Entries())[id];
    }

    /** A registered duplicate of a publication is filed under the first word of its lower-cased
        title, which is the duplicate's lower-cased title too. */
    lemma TitleDuplicateIsCandidate(p: Publication, id: nat)
      requires Valid() && id in idTable && SameDescription(p, idTable[id])
      requires SplitWords(LowerStr(p.title)) != []
      ensures var w := SplitWords(LowerStr(p.title))[0]; w in titleWordIndex.index && id in titleWordIndex.index[w]
    {
      var q := idTable[id];
      var w := SplitWords(LowerStr(p.title))[0];
      assert Entries()[id].title == q.title;
      assert w in TitleWords(q.title);
      TitleWordFiled(Entries(), idCounter, authorIndex.index, titleWordIndex.index, id, w);
    }

    /** addPublicationToDb: refuses null, a publication that already carries an id, and a
        duplicate found by hasSamePublicationInDb; otherwise the publication is stored under the
        id after the counter, carries that id, the counter moves to it, and every author key and
        title word of the publication lists it. */
    method AddPublicationToDb(p: Publication?) returns (out: Outcome<DbError>)
      requires Valid()
      requires p != null ==> p.HasProperAuthors()
      modifies this, p, authorIndex, titleWordIndex
      ensures Valid()
      ensures p == null ==> out == Fail(PublicationIsNull)
      ensures p != null && old(p.referenceId).Some? ==> out == Fail(PublicationAlreadyInDb)
      ensures p != null && old(p.referenceId).None? ==> out == Pass || out == Fail(PublicationDuplicateValue)
      ensures out.Fail? ==> unchanged(this, authorIndex, titleWordIndex) && (p != null ==> unchanged(p))
      ensures out == Fail(PublicationDuplicateValue) ==> exists id :: id in idTable && SameDescription(p, idTable[id])
      ensures out == Pass && Findable(p) ==> forall id :: id in old(idTable) ==> !SameDescription(p, old(idTable)[id])
      ensures out == Pass ==>
        && idCounter == old(idCounter) + 1
        && idTable == old(idTable)[idCounter := p]
        && p.referenceId == Some(idCounter)
      ensures p != null ==> p.title == old(p.title) && p.authors == old(p.authors)
      ensures p != null ==> p.cites == old(p.cites) && p.citedBy == old(p.citedBy)
    {
      if p == null {
        return Fail(PublicationIsNull);
      }
      if p.referenceId.Some? {
        return Fail(PublicationAlreadyInDb);
      }
      var duplicate := HasSamePublicationInDb(p);
      if duplicate {
        return Fail(PublicationDuplicateValue);
      }
      Register(p);
      out := Pass;
    }

    /** The two citation loops of removePublicationFromDb: `p` stops citing, and stops being cited
        by, every publication that carries an id. No title, author list or id changes, so neither
        do the entries of the database. */
    method DropRegisteredLinks(p: Publication, ghost world: set<Publication>)
      requires p in world && CitationGraph(world)
      modifies world
      ensures CitationGraph(world) && Entries() == old(Entries())
      ensures forall q :: q in world ==> SameRecord(q)
      ensures p.cites == set c | c in old(p.cites) && c.referenceId.None?
      ensures p.citedBy == set c | c in old(p.citedBy) && c.referenceId.None?
      ensures forall q :: q in world && q.referenceId.Some? ==> p !in q.cites && p !in q.citedBy
      ensures forall q :: q in world && q != p ==>
        q.cites == if q in old(p.citedBy) && q.referenceId.Some? then old(q.cites) - {p} else old(q.cites)
      ensures forall q :: q in world && q != p ==>
        q.citedBy == if q in old(p.cites) && q.referenceId.Some? then old(q.citedBy) - {p} else old(q.citedBy)
    {
      DropRegisteredCitations(p, world);
      DropRegisteredCitators(p, world);
      forall i | i in idTable
        ensures idTable[i].Record() == old(idTable[i].Record())
      {
      }
    }

    /** removePublicationFromDb: an id that is null or not in the table is ignored. Otherwise the
        publication is withdrawn from the author index (ranks from the last down) and the title-word
        index, its citations of and by publications that carry an id are dropped, it leaves the
        table and carries no id any more. */
    method RemovePublicationFromDb(id: Option<nat>, ghost world: set<Publication>)
      requires Valid()
      requires HasIdInDb(id) ==> idTable[id.value] in world && CitationGraph(world)
      modifies this, authorIndex, titleWordIndex, world
      ensures Valid()
      ensures !old(HasIdInDb(id)) ==> unchanged(this, authorIndex, titleWordIndex) && unchanged(world)
      ensures old(HasIdInDb(id)) ==>
        && idTable == old(idTable) - {id.value}
        && idCounter == old(idCounter)
        && CitationGraph(world)
        && old(idTable[id.value]).referenceId.None?
      ensures old(HasIdInDb(id)) ==>
        var p := old(idTable[id.value]);
        && p.title == old(p.title) && p.authors == old(p.authors)
        && p.cites == (set c | c in old(p.cites) && c.referenceId.None?)
        && p.citedBy == (set c | c in old(p.citedBy) && c.referenceId.None?)
        && forall q :: q in world && q.referenceId.Some? ==> p !in q.cites && p !in q.citedBy
      ensures old(HasIdInDb(id)) ==>
        var p := old(idTable[id.value]);
        && authorIndex.index == RemoveUnder(old(authorIndex.index), AuthorKeys(p.authors), id.value)
        && titleWordIndex.index == RemoveUnder(old(titleWordIndex.index), TitleWords(p.title), id.value)
      ensures old(HasIdInDb(id)) ==>
        var p := old(idTable[id.value]);
        forall q :: q in world && q != p ==>
          && q.title == old(q.title) && q.authors == old(q.authors) && q.referenceId == old(q.referenceId)
          && q.cites == (if q in old(p.citedBy) && q.referenceId.Some? then old(q.cites) - {p} else old(q.cites))
          && q.citedBy == (if q in old(p.cites) && q.referenceId.Some? then old(q.citedBy) - {p} else old(q.citedBy))
    {
      if !HasIdInDb(id) {
        return;
      }
      var p := idTable[id.value];
      Unregister(p, id.value);
      DropRegisteredLinks(p, world);
    }

    /** The bookkeeping half of removePublicationFromDb: the publication's author keys and title
        words leave the indexes, its id leaves the table, and it carries no id any more. */
    method Unregister(p: Publication, id: nat)
      requires Valid() && id in idTable && idTable[id] == p
      modifies this, p, authorIndex, titleWordIndex
      ensures Valid()
      ensures idTable == old(idTable) - {id} && idCounter == old(idCounter)
      ensures authorIndex.index == RemoveUnder(old(authorIndex.index), AuthorKeys(p.authors), id)
      ensures titleWordIndex.index == RemoveUnder(old(titleWordIndex.index), TitleWords(p.title), id)
      ensures p.referenceId.None?
      ensures p.title == old(p.title) && p.authors == old(p.authors)
      ensures p.cites == old(p.cites) && p.citedBy == old(p.citedBy)
    {
      ghost var e0 := Entries();
      ghost var ai0 := authorIndex.index;
      ghost var ti0 := titleWordIndex.index;
      OnlyAtOwnId(this, p);
      RemoveAuthorNamesFromIndex(Some(id));
      RemoveTitleWordsFromIndex(Some(id));
      DropFromTable(p, id);
      RemoveEntryConsistent(e0, idCounter, id, ai0, ti0, Entries(), authorIndex.index, titleWordIndex.index);
    }

    /** The table half of unregistering: the id leaves the table and the publication stored under
        it carries no id any more; the indexes are not touched. */
    method DropFromTable(p: Publication, id: nat)
      requires id in idTable && idTable[id] == p && OnlyAt(idTable, p, Some(id))
      modifies this, p
      ensures idTable == old(idTable) - {id} && idCounter == old(idCounter)
      ensures p.referenceId.None?
      ensures p.title == old(p.title) && p.authors == old(p.authors)
      ensures p.cites == old(p.cites) && p.citedBy == old(p.citedBy)
      ensures Entries() == old(Entries()) - {id}
    {
      ghost var e0 := Entries();
      idTable := idTable - {id};
      assert Entries() == e0 - {id};
      p.referenceId := None;
    }

    // -------------------------------------------------------------------------------------------
    // Citation references

    /** addCitationReference: both ids must be non-null and in the table, checked in this order;
        then the citator cites the citation (addAsCitation refuses a self-citation). */
    method AddCitationReference(idCitator: Option<nat>, idCitation: Option<nat>, ghost world: set<Publication>)
      returns (out: Outcome<DbError>)
      requires Valid()
      requires HasIdInDb(idCitator) && HasIdInDb(idCitation) ==> idTable[idCitator.value] in world && idTable[idCitation.value] in world
      modifies world
      ensures Valid()
      ensures idCitator.None? || idCitation.None? ==> out == Fail(IdNotValid)
      ensures idCitator.Some? && idCitation.Some? && !HasIdInDb(idCitator) ==> out == Fail(IdNotInReferenceDb(idCitator.value))
      ensures HasIdInDb(idCitator) && idCitation.Some? && !HasIdInDb(idCitation) ==> out == Fail(IdNotInReferenceDb(idCitation.value))
      ensures HasIdInDb(idCitator) && idCitator == idCitation ==> out == Fail(CitationNotValid)
      ensures out.Fail? ==> unchanged(world)
      ensures HasIdInDb(idCitator) && HasIdInDb(idCitation) && idCitator != idCitation ==>
        var citator, citation := idTable[idCitator.value], idTable[idCitation.value];
        && out == Pass
        && citator.cites == old(citator.cites) + {citation} && citation.citedBy == old(citation.citedBy) + {citator}
        && citator.citedBy == old(citator.citedBy) && citation.cites == old(citation.cites)
        && SameRecord(citator) && SameRecord(citation)
        && forall q :: q in world && q != citator && q != citation ==> unchanged(q)
      ensures old(CitationGraph(world)) ==> CitationGraph(world)
    {
      if idCitator.None? || idCitation.None? {
        return Fail(IdNotValid);
      }
      if !HasIdInDb(idCitator) {
        return Fail(IdNotInReferenceDb(idCitator.value));
      }
      if !HasIdInDb(idCitation) {
        return Fail(IdNotInReferenceDb(idCitation.value));
      }
      var citator := idTable[idCitator.value];
      var citation := idTable[idCitation.value];
      ghost var e0 := Entries();
      OnlyAtOwnId(this, citator);
      OnlyAtOwnId(this, citation);
      var added := citator.AddAsCitation(citation, world);
      assert Entries() == e0 by {
        forall i | i in idTable
          ensures idTable[i].Record() == e0[i]
        {
        }
      }
      if added.Fail? {
        return Fail(CitationNotValid);
      }
      out := Pass;
    }

    /** removeCitationReference: the same checks, then the citator stops citing the citation when
        it does. */
    method RemoveCitationReference(idCitator: Option<nat>, idCitation: Option<nat>, ghost world: set<Publication>)
      returns (out: Outcome<DbError>)
      requires Valid()
      requires HasIdInDb(idCitator) && HasIdInDb(idCitation) ==> idTable[idCitator.value] in world && idTable[idCitation.value] in world
      modifies world
      ensures Valid()
      ensures idCitator.None? || idCitation.None? ==> out == Fail(IdNotValid)
      ensures idCitator.Some? && idCitation.Some? && !HasIdInDb(idCitator) ==> out == Fail(IdNotInReferenceDb(idCitator.value))
      ensures HasIdInDb(idCitator) && idCitation.Some? && !HasIdInDb(idCitation) ==> out == Fail(IdNotInReferenceDb(idCitation.value))
      ensures out.Fail? ==> unchanged(world)
      ensures HasIdInDb(idCitator) && HasIdInDb(idCitation) ==>
        var citator, citation := idTable[idCitator.value], idTable[idCitation.value];
        && out == Pass
        && citator.cites == old(citator.cites) - {citation}
        && (citation in old(citator.cites) ==> citation.citedBy == old(citation.citedBy) - {citator})
        && (citation !in old(citator.cites) ==> unchanged(citator) && unchanged(citation))
        && (citator != citation ==> citator.citedBy == old(citator.citedBy) && citation.cites == old(citation.cites))
        && SameRecord(citator) && SameRecord(citation)
        && forall q :: q in world && q != citator && q != citation ==> unchanged(q)
      ensures old(CitationGraph(world)) ==> CitationGraph(world)
    {
      if idCitator.None? || idCitation.None? {
        return Fail(IdNotValid);
      }
      if !HasIdInDb(idCitator) {
        return Fail(IdNotInReferenceDb(idCitator.value));
      }
      if !HasIdInDb(idCitation) {
        return Fail(IdNotInReferenceDb(idCitation.value));
      }
      var citator := idTable[idCitator.value];
      var citation := idTable[idCitation.value];
      ghost var e0 := Entries();
      citator.RemoveAsCitation(citation, world);
      assert Entries() == e0 by {
        forall i | i in idTable
          ensures idTable[i].Record() == e0[i]
        {
        }
      }
      out := Pass;
    }

    /** The registration steps of addPublicationToDb once its checks have passed: the id after the
        counter (never in use, since every id is at most the counter) stores the publication, the
        publication carries it, the counter moves to it, and the author loop and
        addTitleWordsToIndex file it under its keys. */
    method Register(p: Publication)
      requires Valid() && p.referenceId.None? && p.HasProperAuthors()
      modifies this, p, authorIndex, titleWordIndex
      ensures Valid()
      ensures idCounter == old(idCounter) + 1
      ensures idTable == old(idTable)[idCounter := p]
      ensures p.referenceId == Some(idCounter)
      ensures p.title == old(p.title) && p.authors == old(p.authors)
      ensures p.cites == old(p.cites) && p.citedBy == old(p.citedBy)
    {
      ghost var e0 := Entries();
      ghost var ai0 := authorIndex.index;
      ghost var ti0 := titleWordIndex.index;
      ghost var c0 := idCounter;
      OnlyAtOwnId(this, p);
      var newId := StoreUnderNextId(p);
      AddAuthorNamesToIndex(Some(newId));
      AddTitleWordsToIndex(Some(newId));
      InsertEntryConsistent(e0, c0, newId, p.Record(), ai0, ti0, Entries(), authorIndex.index, titleWordIndex.index);
    }

    /** The table half of registering: the publication takes the id after the counter and is stored
        under it; the indexes are not touched. */
    method StoreUnderNextId(p: Publication) returns (newId: nat)
      requires p.referenceId.None? && OnlyAt(idTable, p, None)
      modifies this, p
      ensures newId == old(idCounter) + 1 && idCounter == newId
      ensures idTable == old(idTable)[newId := p]
      ensures p.referenceId == Some(newId)
      ensures p.title == old(p.title) && p.authors == old(p.authors)
      ensures p.cites == old(p.cites) && p.citedBy == old(p.citedBy)
      ensures Entries() == old(Entries())[newId := p.Record()]
    {
      newId := idCounter + 1;
      ghost var e0 := Entries();
      p.referenceId := Some(newId);
      assert Entries() == e0;
      idTable := idTable[newId := p];
      idCounter := newId;
      assert Entries().Keys == e0.Keys + {newId};
    }
  }
}

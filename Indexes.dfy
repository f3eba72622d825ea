/**
 * RefDbIndex.java: a generic index object of the reference database, holding one map from a search
 * term to the set of ids of the publications filed under it. The database edits the map in place.
 */
module Indexes {
  import opened Wrappers
  import opened IndexMaps

  class RefDbIndex {
    var index: Index

    /** A new index is empty. */
    constructor()
      ensures index == map[]
    {
      index := map[];
    }

    /** getIdSetForKey: the set under `key`, or no set (null) when the key is absent; looking up
        never creates an entry. */
    function GetIdSetForKey(key: string): (r: Option<set<nat>>)
      reads this
      ensures r.None? <==> key !in index
      ensures r.Some? ==> r.value == index[key]
    {
      if key in index then Some(index[key]) else None
    }

    /** isValidIndexTuple: the set of an entry is valid when it is non-empty and every id in it is
        in the id table (here the set `tableIds` of its keys). */
    static method IsValidIndexTuple(idSet: set<nat>, tableIds: set<nat>) returns (ok: bool)
      ensures ok <==> idSet != {} && idSet <= tableIds
    {
      if idSet == {} {
        return false;
      }
      var rest := idSet;
      while rest != {}
        invariant rest <= idSet
        invariant idSet - rest <= tableIds
        decreases |rest|
      {
        var id :| id in rest;
        if id !in tableIds {
          return false;
        }
        rest := rest - {id};
      }
      return true;
    }

    /** hasProperIndex: every entry of the index is a valid tuple. It only reads the index. */
    method HasProperIndex(tableIds: set<nat>) returns (ok: bool)
      ensures ok <==> ProperIndex(index, tableIds)
    {
      var keys := index.Keys;
      while keys != {}
        invariant keys <= index.Keys
        invariant forall k :: k in index && k !in keys ==> index[k] != {} && index[k] <= tableIds
        decreases |keys|
      {
        var k :| k in keys;
        ok := IsValidIndexTuple(index[k], tableIds);
        if !ok {
          return false;
        }
        keys := keys - {k};
      }
      return true;
    }
  }
}

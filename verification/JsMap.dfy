/** JavaScript's Map: entries in order of first insertion, one for each key. */
module JsMap {
  predicate HasKey<K(==), V>(entries: seq<(K, V)>, k: K) {
    exists i :: 0 <= i < |entries| && entries[i].0 == k
  }

  /** The position of key `k`; |entries| when it is absent. */
  function IndexOf<K(==), V>(entries: seq<(K, V)>, k: K): (i: nat)
    ensures i <= |entries|
    ensures i < |entries| ==> entries[i].0 == k
    ensures forall j :: 0 <= j < i ==> entries[j].0 != k
  {
    if entries == [] || entries[0].0 == k then 0 else 1 + IndexOf(entries[1..], k)
  }

  /** A present key keeps its place, a new one goes to the end. */
  function Put<K(==), V>(entries: seq<(K, V)>, k: K, v: V): seq<(K, V)> {
    var i := IndexOf(entries, k);
    if i < |entries| then entries[i := (k, v)] else entries + [(k, v)]
  }

  ghost predicate DistinctKeys<K, V>(entries: seq<(K, V)>) {
    forall i, j :: 0 <= i < j < |entries| ==> entries[i].0 != entries[j].0
  }

  /** Every entry holds the value that `f` gives for its key. */
  ghost predicate Holds<K, V>(entries: seq<(K, V)>, f: K -> V) {
    forall i :: 0 <= i < |entries| ==> entries[i].1 == f(entries[i].0)
  }

  lemma PutHolds<K, V>(entries: seq<(K, V)>, k: K, f: K -> V, g: K -> V)
    requires DistinctKeys(entries) && Holds(entries, f)
    requires forall i :: 0 <= i < |entries| && entries[i].0 != k ==> g(entries[i].0) == f(entries[i].0)
    ensures DistinctKeys(Put(entries, k, g(k))) && Holds(Put(entries, k, g(k)), g)
  {
  }

  lemma PutHasKeys<K, V>(entries: seq<(K, V)>, k: K, v: V)
    ensures HasKey(Put(entries, k, v), k)
    ensures forall x :: x in Keys(entries) ==> x in Keys(Put(entries, k, v))
  {
    var i, after := IndexOf(entries, k), Put(entries, k, v);
    assert after[i].0 == k;
    forall x | x in Keys(entries) ensures x in Keys(after) {
      var j :| 0 <= j < |entries| && entries[j].0 == x;
      assert after[j].0 == x;
    }
  }

  lemma PutEntries<K, V>(entries: seq<(K, V)>, k: K, v: V)
    requires DistinctKeys(entries)
    ensures forall x :: x in Put(entries, k, v) <==> x == (k, v) || (x in entries && x.0 != k)
  {
    var i, after := IndexOf(entries, k), Put(entries, k, v);
    assert after[i] == (k, v);
    forall x | x in entries && x.0 != k ensures x in after {
      var j :| 0 <= j < |entries| && entries[j] == x;
      assert after[j] == x;
    }
  }

  ghost function Keys<K, V>(entries: seq<(K, V)>): set<K> {
    set i | 0 <= i < |entries| :: entries[i].0
  }

  class Map<K(==), V> {
    var entries: seq<(K, V)>

    ghost predicate Valid()
      reads this
    {
      DistinctKeys(entries)
    }

    constructor ()
      ensures Valid() && entries == []
    {
      entries := [];
    }

    method Has(k: K) returns (has: bool)
      ensures has <==> HasKey(entries, k)
    {
      has := false;
      for i := 0 to |entries|
        invariant has <==> HasKey(entries[..i], k)
      {
        assert entries[..i + 1] == entries[..i] + [entries[i]];
        assert entries[i].0 == k ==> entries[..i + 1][i].0 == k;
        assert forall j :: 0 <= j < i ==> entries[..i][j] == entries[..i + 1][j];
        has := has || entries[i].0 == k;
      }
      assert entries[..|entries|] == entries;
    }

    method Get(k: K) returns (v: V)
      requires HasKey(entries, k)
      ensures IndexOf(entries, k) < |entries| && v == entries[IndexOf(entries, k)].1
      ensures (k, v) in entries
    {
      v := entries[IndexOf(entries, k)].1;
    }

    method Set(k: K, v: V)
      requires Valid()
      modifies this
      ensures Valid() && entries == Put(old(entries), k, v)
      ensures forall x :: x in entries <==> x == (k, v) || (x in old(entries) && x.0 != k)
      ensures !HasKey(old(entries), k) ==> |entries| == |old(entries)| + 1
      ensures forall i :: 0 <= i < |old(entries)| ==> i < |entries| && entries[i].0 == old(entries)[i].0
    {
      PutEntries(entries, k, v);
      entries := Put(entries, k, v);
    }
  }
}

/**
 * The lookup tables of the assembler patcher, which build a `HashMap` by
 * collecting a list of (key, value) pairs: a later pair with the same key
 * replaces an earlier one.
 */
module Table {
  import opened Wrappers

  /** `map.get(key)` for the map collected from `entries`. */
  function Find<V>(entries: seq<(string, V)>, key: string): (r: Option<V>)
    ensures r.None? <==> forall i :: 0 <= i < |entries| ==> entries[i].0 != key
    ensures r.Some? ==> exists i :: 0 <= i < |entries| && entries[i] == (key, r.value) &&
                                    forall j :: i < j < |entries| ==> entries[j].0 != key
    decreases |entries|
  {
    if entries == [] then None
    else if entries[|entries| - 1].0 == key then Some(entries[|entries| - 1].1)
    else
      var r := Find(entries[..|entries| - 1], key);
      FindExtend(entries, key, r);
      r
  }

  /** A last pair with another key leaves the lookup in the pairs before it unchanged. */
  lemma FindExtend<V>(entries: seq<(string, V)>, key: string, r: Option<V>)
    requires entries != [] && entries[|entries| - 1].0 != key
    requires var p := entries[..|entries| - 1];
      (r.None? <==> forall i :: 0 <= i < |p| ==> p[i].0 != key) &&
      (r.Some? ==> exists i :: 0 <= i < |p| && p[i] == (key, r.value) && forall j :: i < j < |p| ==> p[j].0 != key)
    ensures r.None? <==> forall i :: 0 <= i < |entries| ==> entries[i].0 != key
    ensures r.Some? ==> exists i :: 0 <= i < |entries| && entries[i] == (key, r.value) &&
                                    forall j :: i < j < |entries| ==> entries[j].0 != key
  {
    var p := entries[..|entries| - 1];
    if r.Some? {
      var i :| 0 <= i < |p| && p[i] == (key, r.value) && forall j :: i < j < |p| ==> p[j].0 != key;
      assert entries[i] == p[i];
      forall j | i < j < |entries|
        ensures entries[j].0 != key
      {
        if j < |p| {
          assert entries[j] == p[j];
        }
      }
    } else {
      forall i | 0 <= i < |entries|
        ensures entries[i].0 != key
      {
        if i < |p| {
          assert entries[i] == p[i];
        }
      }
    }
  }

  /** No key occurs twice, so the order of `entries` does not matter. */
  predicate DistinctKeys<V>(entries: seq<(string, V)>) {
    forall i, j :: 0 <= i < j < |entries| ==> entries[i].0 != entries[j].0
  }

  /** A key that occurs once finds its own value. */
  lemma FindUnique<V>(entries: seq<(string, V)>, i: nat)
    requires i < |entries|
    requires forall j :: 0 <= j < |entries| && j != i ==> entries[j].0 != entries[i].0
    ensures Find(entries, entries[i].0) == Some(entries[i].1)
  {
  }
}

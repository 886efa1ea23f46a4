/**
 * A .NET `Dictionary` that is only ever added to enumerates its entries in
 * insertion order.  The model makes that order explicit: a dictionary is a
 * sequence of (key, value) entries whose keys are pairwise distinct.
 */
module OrderedMap {
  import opened Wrappers

  /** No key occurs twice. */
  predicate DistinctKeys<K(==), V>(m: seq<(K, V)>) {
    forall i, j :: 0 <= i < j < |m| ==> m[i].0 != m[j].0
  }

  /** `ContainsKey`. */
  predicate HasKey<K(==), V>(m: seq<(K, V)>, k: K) {
    exists i :: 0 <= i < |m| && m[i].0 == k
  }

  /** The keys in enumeration order. */
  function Keys<K, V>(m: seq<(K, V)>): (ks: seq<K>)
    ensures |ks| == |m|
    ensures forall i :: 0 <= i < |m| ==> ks[i] == m[i].0
  {
    seq(|m|, i requires 0 <= i < |m| => m[i].0)
  }

  /** The position of the first entry with key `k`, if any. */
  function Find<K(==), V>(m: seq<(K, V)>, k: K): (r: Option<nat>)
    ensures r.Some? ==> r.value < |m| && m[r.value].0 == k
    ensures r.Some? ==> forall j :: 0 <= j < r.value ==> m[j].0 != k
    ensures r.None? <==> !HasKey(m, k)
  {
    if |m| == 0 then None
    else if m[0].0 == k then Some(0)
    else match Find(m[1..], k)
      case None => None
      case Some(i) => Some(i + 1)
  }

  /** With distinct keys, the entry with key `k` is the one at the found position. */
  lemma FindUnique<K, V>(m: seq<(K, V)>, k: K, i: nat)
    requires DistinctKeys(m)
    requires i < |m| && m[i].0 == k
    ensures Find(m, k) == Some(i)
  {
  }

  /** Adding an entry keeps keys distinct exactly when its key is new. */
  lemma DistinctSnoc<K, V>(m: seq<(K, V)>, e: (K, V))
    requires DistinctKeys(m)
    ensures DistinctKeys(m + [e]) <==> !HasKey(m, e.0)
  {
    var m' := m + [e];
    if HasKey(m, e.0) {
      var i :| 0 <= i < |m| && m[i].0 == e.0;
      assert m'[i].0 == m'[|m|].0;
    }
  }

  lemma HasKeySnoc<K, V>(m: seq<(K, V)>, e: (K, V), k: K)
    ensures HasKey(m + [e], k) <==> HasKey(m, k) || e.0 == k
  {
    var m' := m + [e];
    if HasKey(m, k) {
      var i :| 0 <= i < |m| && m[i].0 == k;
      assert m'[i].0 == k;
    }
    if e.0 == k {
      assert m'[|m|].0 == k;
    }
    if HasKey(m', k) {
      var i :| 0 <= i < |m'| && m'[i].0 == k;
      if i < |m| {
        assert m[i].0 == k;
      }
    }
  }
}

/** Sums over finite maps, independent of any iteration order. */
module Sums {

  ghost function Sum<K>(m: map<K, nat>): nat
    decreases |m|
  {
    if m == map[] then 0
    else
      var k :| k in m;
      m[k] + Sum(m - {k})
  }

  /** Any key may be taken out first. */
  lemma {:induction false} SumRemove<K>(m: map<K, nat>, k: K)
    requires k in m
    ensures Sum(m) == m[k] + Sum(m - {k})
    decreases |m|
  {
    var j :| j in m && Sum(m) == m[j] + Sum(m - {j});
    if j != k {
      SumRemove(m - {j}, k);
      SumRemove(m - {k}, j);
      assert m - {j} - {k} == m - {k} - {j};
    }
  }

  lemma SumAdd<K>(m: map<K, nat>, k: K, v: nat)
    requires k !in m
    ensures Sum(m[k := v]) == Sum(m) + v
  {
    SumRemove(m[k := v], k);
    assert m[k := v] - {k} == m;
  }

  ghost function Restrict<K>(m: map<K, nat>, s: set<K>): map<K, nat> {
    map k | k in m && k in s :: m[k]
  }

  lemma RestrictRemove<K>(m: map<K, nat>, s: set<K>, k: K)
    requires k in m && k in s
    ensures m - {k} - s == m - s
    ensures Restrict(m - {k}, s) == Restrict(m, s) - {k}
  {}

  /** A map splits into the part on `s` and the rest. */
  lemma {:induction false} SumSplit<K>(m: map<K, nat>, s: set<K>)
    ensures Sum(m) == Sum(m - s) + Sum(Restrict(m, s))
    decreases |m|
  {
    if k :| k in m && k in s {
      SumRemove(m, k);
      assert k in Restrict(m, s);
      SumRemove(Restrict(m, s), k);
      SumSplit(m - {k}, s);
      RestrictRemove(m, s, k);
    } else {
      assert m - s == m && Restrict(m, s) == map[];
    }
  }
}

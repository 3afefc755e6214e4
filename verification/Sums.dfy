/** Sums over finite maps. */
module Sums {

  /** The sum of the values of `m`. */
  ghost function Total<K(!new)>(m: map<K, nat>): (n: nat)
    decreases m.Keys
  {
    if m == map[] then 0
    else
      var k :| k in m;
      m[k] + Total(m - {k})
  }

  /** Any key may be taken out first. */
  lemma {:induction false} TotalRemove<K(!new)>(m: map<K, nat>, k: K)
    requires k in m
    ensures Total(m) == m[k] + Total(m - {k})
    decreases m.Keys
  {
    var j :| j in m && Total(m) == m[j] + Total(m - {j});
    if j != k {
      TotalRemove(m - {j}, k);
      TotalRemove(m - {k}, j);
      assert m - {j} - {k} == m - {k} - {j};
    }
  }

  lemma TotalUpdate<K(!new)>(m: map<K, nat>, k: K, v: nat)
    ensures Total(m[k := v]) == Total(m - {k}) + v
  {
    TotalRemove(m[k := v], k);
    assert m[k := v] - {k} == m - {k};
  }

  /** Adding or replacing one value. */
  lemma TotalSet<K(!new)>(m: map<K, nat>, k: K, v: nat)
    ensures Total(m[k := v]) == Total(m) - (if k in m then m[k] else 0) + v
  {
    TotalUpdate(m, k, v);
    if k in m {
      TotalRemove(m, k);
    } else {
      assert m - {k} == m;
    }
  }

  lemma RemoveSize<K, V>(m: map<K, V>, k: K)
    requires k in m
    ensures |m - {k}| == |m| - 1
  {
  }

  lemma MulStep(b: nat, n: nat)
    requires 1 <= n
    ensures b * n == b * (n - 1) + b
  {
  }

  lemma {:induction false} TotalBounded<K(!new)>(m: map<K, nat>, bound: nat)
    requires forall k :: k in m ==> m[k] <= bound
    ensures Total(m) <= bound * |m|
    decreases m.Keys
  {
    if m != map[] {
      var k :| k in m;
      TotalRemove(m, k);
      RemoveSize(m, k);
      TotalBounded(m - {k}, bound);
      MulStep(bound, |m|);
    }
  }
}

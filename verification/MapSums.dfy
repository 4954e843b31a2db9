/** Sums over finite maps. */
module MapSums {

  ghost function Sum<K, V>(m: map<K, V>, weight: (K, V) -> int): (s: int) {
    if m == map[] then 0
    else
      var k :| k in m;
      weight(k, m[k]) + Sum(m - {k}, weight)
  }

  /** The sum may be split at any key. */
  lemma {:induction false} SumSplit<K, V>(m: map<K, V>, weight: (K, V) -> int, k: K)
    requires k in m
    ensures Sum(m, weight) == weight(k, m[k]) + Sum(m - {k}, weight)
    decreases |m|
  {
    var first :| first in m && Sum(m, weight) == weight(first, m[first]) + Sum(m - {first}, weight);
    if first != k {
      SumSplit(m - {first}, weight, k);
      SumSplit(m - {k}, weight, first);
      assert m - {first} - {k} == m - {k} - {first};
    }
  }

  lemma SumUpdate<K, V>(m: map<K, V>, weight: (K, V) -> int, k: K, v: V)
    ensures Sum(m[k := v], weight) == Sum(m, weight) + weight(k, v) - (if k in m then weight(k, m[k]) else 0)
  {
    SumSplit(m[k := v], weight, k);
    assert m[k := v] - {k} == m - {k};
    if k in m {
      SumSplit(m, weight, k);
    } else {
      assert m - {k} == m;
    }
  }

  lemma SumRemove<K, V>(m: map<K, V>, weight: (K, V) -> int, k: K)
    requires k in m
    ensures Sum(m - {k}, weight) == Sum(m, weight) - weight(k, m[k])
  {
    SumSplit(m, weight, k);
  }

  /** Equal weights under the same keys give equal sums. */
  lemma {:induction false} SumSame<K, V>(a: map<K, V>, b: map<K, V>, weight: (K, V) -> int)
    requires a.Keys == b.Keys && forall k :: k in a ==> weight(k, a[k]) == weight(k, b[k])
    ensures Sum(a, weight) == Sum(b, weight)
    decreases |a|
  {
    if a == map[] {
      assert b == map[];
    } else {
      var k :| k in a;
      SumSplit(a, weight, k);
      SumSplit(b, weight, k);
      SumSame(a - {k}, b - {k}, weight);
    }
  }
}

/** The sum of the values of a finite map, and how it changes with the map. */
module MapSums {

  ghost function Sum<K(!new)>(m: map<K, int>): int
    decreases |m|
  {
    if m == map[] then 0 else var k :| k in m; SmallerWithout(m, k); m[k] + Sum(m - {k})
  }

  lemma SmallerWithout<K>(m: map<K, int>, k: K)
    requires k in m
    ensures |m - {k}| == |m| - 1
  {
  }

  /** Any key can be taken out first. */
  lemma {:induction false} SumWithout<K(!new)>(m: map<K, int>, k: K)
    requires k in m
    ensures Sum(m) == m[k] + Sum(m - {k})
    decreases |m|
  {
    var first :| first in m && Sum(m) == m[first] + Sum(m - {first});
    if first != k {
      SmallerWithout(m, first);
      SmallerWithout(m, k);
      SumWithout(m - {first}, k);
      SumWithout(m - {k}, first);
      assert m - {first} - {k} == m - {k} - {first};
    }
  }

  lemma SumWith<K(!new)>(m: map<K, int>, k: K, v: int)
    ensures Sum(m[k := v]) == Sum(m) + v - (if k in m then m[k] else 0)
  {
    SumWithout(m[k := v], k);
    if k in m {
      SumWithout(m, k);
    }
    assert m[k := v] - {k} == m - {k};
    if k !in m {
      assert m - {k} == m;
    }
  }

  /** Moving an amount from one key to a free one leaves the sum alone. */
  lemma SumRekeyed<K(!new)>(m: map<K, int>, from: K, to: K)
    requires from in m && to !in m
    ensures Sum((m - {from})[to := m[from]]) == Sum(m)
  {
    SumWithout(m, from);
    SumWith(m - {from}, to, m[from]);
  }
}

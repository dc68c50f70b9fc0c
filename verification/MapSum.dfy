/** The sum of a map's values, and how single-key changes move it. */
module MapSum {
  ghost function Sum<K(!new)>(m: map<K, nat>): nat
    decreases |m|
  {
    if m == map[] then 0
    else
      var k :| k in m;
      m[k] + Sum(m - {k})
  }

  lemma {:induction false} SumRemove<K(!new)>(m: map<K, nat>, k: K)
    requires k in m
    ensures Sum(m) == m[k] + Sum(m - {k})
    decreases |m|
  {
    var j :| j in m && Sum(m) == m[j] + Sum(m - {j});
    if j != k {
      SumRemove(m - {j}, k);
      SumRemove(m - {k}, j);
      assert m - {j} - {k} == m - {k} - {j};
    }
  }

  lemma SumInsert<K(!new)>(m: map<K, nat>, k: K, v: nat)
    requires k !in m
    ensures Sum(m[k := v]) == Sum(m) + v
  {
    SumRemove(m[k := v], k);
    assert m[k := v] - {k} == m;
  }

  lemma SumUpdate<K(!new)>(m: map<K, nat>, k: K, v: nat)
    requires k in m
    ensures Sum(m[k := v]) == Sum(m) - m[k] + v
  {
    SumRemove(m, k);
    SumRemove(m[k := v], k);
    assert m[k := v] - {k} == m - {k};
  }

  /** Keeping only some keys cannot raise the sum. */
  lemma {:induction false} SumRestrict<K(!new)>(m: map<K, nat>, keep: set<K>)
    ensures Sum(map k | k in m && k in keep :: m[k]) <= Sum(m)
    decreases |m|
  {
    var kept := map k | k in m && k in keep :: m[k];
    if m == map[] {
      assert kept == map[];
    } else {
      var k :| k in m;
      SumRemove(m, k);
      SumRestrict(m - {k}, keep);
      var rest := map j | j in m - {k} && j in keep :: (m - {k})[j];
      if k in keep {
        SumRemove(kept, k);
        assert kept - {k} == rest;
      } else {
        assert kept == rest;
      }
    }
  }
}

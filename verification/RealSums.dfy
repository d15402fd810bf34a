/** Sums of a real measure over the rows of a table. */
module RealSums {

  ghost function Sum<K, V>(m: map<K, V>, f: (K, V) -> real): real
  {
    if m == map[] then 0.0
    else
      var k :| k in m;
      f(k, m[k]) + Sum(m - {k}, f)
  }

  lemma {:induction false} SumErase<K, V>(m: map<K, V>, f: (K, V) -> real, k: K)
    requires k in m
    ensures Sum(m, f) == f(k, m[k]) + Sum(m - {k}, f)
    decreases m.Keys
  {
    var j :| j in m && Sum(m, f) == f(j, m[j]) + Sum(m - {j}, f);
    if j != k {
      SumErase(m - {j}, f, k);
      SumErase(m - {k}, f, j);
      assert m - {j} - {k} == m - {k} - {j};
    }
  }

  /** What row k contributes, 0 when it is absent. */
  ghost function Share<K, V>(m: map<K, V>, f: (K, V) -> real, k: K): real {
    if k in m then f(k, m[k]) else 0.0
  }

  lemma SumWrite<K, V>(m: map<K, V>, f: (K, V) -> real, k: K, v: V)
    ensures Sum(m[k := v], f) == Sum(m, f) - Share(m, f, k) + f(k, v)
  {
    SumErase(m[k := v], f, k);
    if k in m {
      SumErase(m, f, k);
      assert m[k := v] - {k} == m - {k};
    } else {
      assert m[k := v] - {k} == m;
    }
  }

  /** Measures that agree on every row have the same sum. */
  lemma {:induction false} SumSame<K, V>(m: map<K, V>, f: (K, V) -> real, g: (K, V) -> real)
    requires forall k :: k in m ==> f(k, m[k]) == g(k, m[k])
    ensures Sum(m, f) == Sum(m, g)
    decreases m.Keys
  {
    if m == map[] {
    } else {
      var k :| k in m;
      SumErase(m, f, k);
      SumErase(m, g, k);
      SumSame(m - {k}, f, g);
    }
  }

  /** Sums of non-negative measures are non-negative and bound every row. */
  lemma {:induction false} SumNonNeg<K, V>(m: map<K, V>, f: (K, V) -> real)
    requires forall k :: k in m ==> 0.0 <= f(k, m[k])
    ensures 0.0 <= Sum(m, f)
    decreases m.Keys
  {
    if m == map[] {
    } else {
      var k :| k in m;
      SumErase(m, f, k);
      SumNonNeg(m - {k}, f);
    }
  }

  lemma ShareAtMostSum<K, V>(m: map<K, V>, f: (K, V) -> real, k: K)
    requires forall k :: k in m ==> 0.0 <= f(k, m[k])
    ensures 0.0 <= Share(m, f, k) <= Sum(m, f)
  {
    SumNonNeg(m, f);
    if k in m {
      SumErase(m, f, k);
      SumNonNeg(m - {k}, f);
    }
  }
}

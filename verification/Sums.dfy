/** Totals of finite maps, with the laws the cache index needs. */
module Sums {

  ghost function Total<K>(m: map<K, nat>): nat
    decreases m.Keys
  {
    if m == map[] then 0
    else
      var k :| k in m;
      assert (m - {k}).Keys < m.Keys;
      m[k] + Total(m - {k})
  }

  /** Any key can be taken out first. */
  lemma {:induction false} TotalSplit<K>(m: map<K, nat>, k: K)
    requires k in m
    ensures Total(m) == m[k] + Total(m - {k})
    decreases |m|
  {
    var j :| j in m && Total(m) == m[j] + Total(m - {j});
    if j != k {
      assert |m - {j}| < |m| && |m - {k}| < |m| by {
        assert (m - {j}).Keys == m.Keys - {j} && (m - {k}).Keys == m.Keys - {k};
      }
      TotalSplit(m - {j}, k);
      TotalSplit(m - {k}, j);
      assert m - {j} - {k} == m - {k} - {j};
    }
  }

  lemma TotalInsert<K>(m: map<K, nat>, k: K, v: nat)
    requires k !in m
    ensures Total(m[k := v]) == Total(m) + v
    ensures |m[k := v]| == |m| + 1
  {
    hide Total;
    TotalSplit(m[k := v], k);
    assert m[k := v] - {k} == m;
    assert m[k := v].Keys == m.Keys + {k};
  }

  lemma TotalRemove<K>(m: map<K, nat>, k: K)
    requires k in m
    ensures Total(m) == Total(m - {k}) + m[k]
    ensures |m - {k}| == |m| - 1
  {
    TotalSplit(m, k);
    assert (m - {k}).Keys == m.Keys - {k};
  }

  lemma UnionInsert<K>(a: map<K, nat>, b: map<K, nat>, k: K)
    requires a.Keys !! b.Keys && k in b
    ensures k !in a + (b - {k}) && a.Keys !! (b - {k}).Keys
    ensures (a + (b - {k}))[k := b[k]] == a + b
  {
  }

  lemma TotalEmpty<K>()
    ensures Total<K>(map[]) == 0
  {
  }

  lemma {:induction false} TotalUnion<K>(a: map<K, nat>, b: map<K, nat>)
    requires a.Keys !! b.Keys
    ensures Total(a + b) == Total(a) + Total(b)
    ensures |a + b| == |a| + |b|
    decreases |b|
  {
    hide Total;
    if b == map[] {
      TotalEmpty<K>();
      assert a + b == a;
    } else {
      var k :| k in b;
      UnionInsert(a, b, k);
      var rest := b - {k};
      TotalRemove(b, k);
      TotalUnion(a, rest);
      TotalInsert(a + rest, k, b[k]);
    }
  }

  /** A positive total has a positive part. */
  lemma {:induction false} TotalPositive<K>(m: map<K, nat>) returns (k: K)
    requires Total(m) > 0
    ensures k in m && m[k] > 0
    decreases |m|
  {
    var j :| j in m && Total(m) == m[j] + Total(m - {j});
    if m[j] > 0 {
      k := j;
    } else {
      assert (m - {j}).Keys == m.Keys - {j};
      k := TotalPositive(m - {j});
    }
  }
}

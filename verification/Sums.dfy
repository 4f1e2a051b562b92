/** Finite sums over the entries of a map. */
module Sums {

  ghost function Sum<K>(m: map<K, int>): (s: int)
    decreases |m|
  {
    if m == map[] then 0
    else
      var k :| k in m;
      m[k] + Sum(m - {k})
  }

  /** Any entry can be split off. */
  lemma {:induction false} SumRemove<K>(m: map<K, int>, k: K)
    requires k in m
    ensures Sum(m) == m[k] + Sum(m - {k})
    decreases |m|
  {
    var x :| x in m && Sum(m) == m[x] + Sum(m - {x});
    if x != k {
      SumRemove(m - {x}, k);
      SumRemove(m - {k}, x);
      assert m - {x} - {k} == m - {k} - {x};
    }
  }

  lemma SumUpdate<K>(m: map<K, int>, k: K, v: int)
    ensures Sum(m[k := v]) == Sum(m) + v - (if k in m then m[k] else 0)
  {
    SumRemove(m[k := v], k);
    assert m[k := v] - {k} == m - {k};
    if k in m { SumRemove(m, k); } else { assert m - {k} == m; }
  }

  lemma {:induction false} SumMono<K>(a: map<K, int>, b: map<K, int>)
    requires a.Keys == b.Keys
    requires forall k :: k in a ==> a[k] <= b[k]
    ensures Sum(a) <= Sum(b)
    ensures forall k :: k in a && a[k] < b[k] ==> Sum(a) < Sum(b)
    decreases |a|
  {
    if a != map[] {
      var x :| x in a;
      SumMono(a - {x}, b - {x});
      SumRemove(a, x);
      SumRemove(b, x);
      forall k | k in a && a[k] < b[k] ensures Sum(a) < Sum(b) {
        assert k != x ==> (a - {x})[k] < (b - {x})[k];
      }
    } else {
      assert b == map[];
    }
  }

  lemma Distribute(n: nat, hi: int)
    ensures (n + 1) * hi == n * hi + hi
  {
  }

  lemma {:induction false} SumBound<K>(m: map<K, int>, hi: int)
    requires forall k :: k in m ==> 0 <= m[k] <= hi
    ensures 0 <= Sum(m) <= |m| * hi
    decreases |m|
  {
    if m != map[] {
      var x :| x in m;
      SumBound(m - {x}, hi);
      SumRemove(m, x);
      var n := |m - {x}|;
      assert (m - {x}).Keys == m.Keys - {x};
      assert n == |m| - 1;
      Distribute(n, hi);
    }
  }

  lemma {:induction false} SumAtLeast<K>(m: map<K, int>)
    requires forall k :: k in m ==> 0 <= m[k]
    ensures 0 <= Sum(m)
    ensures forall k :: k in m ==> m[k] <= Sum(m)
    decreases |m|
  {
    forall k | k in m ensures 0 <= m[k] <= Sum(m) {
      SumRemove(m, k);
      SumAtLeast(m - {k});
    }
    if m != map[] {
      var k :| k in m;
    }
  }

  lemma SmallerSubset<T>(a: set<T>, b: set<T>, x: T)
    requires a <= b && x in b && x !in a
    ensures |a| < |b|
  {
    var rest := b - a - {x};
    assert b == a + ({x} + rest);
    assert |b| == |a| + |{x} + rest|;
  }

  lemma SubsetSize<T>(a: set<T>, b: set<T>)
    requires a <= b
    ensures |a| <= |b|
  {
    assert b == a + (b - a);
  }
}

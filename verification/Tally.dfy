/**
 Sums of an integer-valued finite map. The cache's byte counter is an incremental form of such a
 sum, and a step machine's pending work is another one.
 */
module Tally {

  ghost function Sum<K>(m: map<K, int>): int
    decreases |m|
  {
    if m == map[] then 0 else
      var k :| k in m;
      m[k] + Sum(m - {k})
  }

  /** The order in which the keys are summed does not matter. */
  lemma {:induction false} SumSplit<K>(m: map<K, int>, k: K)
    requires k in m
    ensures Sum(m) == m[k] + Sum(m - {k})
    decreases |m|
  {
    var j :| j in m && Sum(m) == m[j] + Sum(m - {j});
    if j != k {
      SumSplit(m - {j}, k);
      SumSplit(m - {k}, j);
      assert m - {j} - {k} == m - {k} - {j};
    }
  }

  lemma SumPut<K>(m: map<K, int>, k: K, v: int)
    ensures Sum(m[k := v]) == Sum(m) + v - (if k in m then m[k] else 0)
  {
    SumSplit(m[k := v], k);
    assert m[k := v] - {k} == m - {k};
    if k in m {
      SumSplit(m, k);
    } else {
      assert m - {k} == m;
    }
  }

  lemma Times(c: nat, x: int, y: int)
    requires x <= y
    ensures c * x <= c * y
  {
  }

  lemma Distribute(c: int, x: int, y: int)
    ensures c * (x + y) == c * x + c * y
  {
  }

  lemma BoundsAdd(factor: int, x: int, y: int, u: int, v: int)
    requires x <= factor * y && u <= factor * v
    ensures x + u <= factor * (y + v)
  {
    Distribute(factor, y, v);
  }

  /** If every value of `f` is at most `factor` times the value of `g` at the same key, so is the sum. */
  lemma {:induction false} SumBound<K>(f: map<K, int>, g: map<K, int>, factor: int)
    requires f.Keys == g.Keys
    requires forall k :: k in f ==> f[k] <= factor * g[k]
    ensures Sum(f) <= factor * Sum(g)
    decreases |f|
  {
    if f.Keys != {} {
      var k :| k in f;
      SumSplit(f, k);
      SumSplit(g, k);
      SumBound(f - {k}, g - {k}, factor);
      BoundsAdd(factor, f[k], g[k], Sum(f - {k}), Sum(g - {k}));
    }
  }

  lemma {:induction false} SumNonNegative<K>(m: map<K, int>)
    requires forall k :: k in m ==> m[k] >= 0
    ensures Sum(m) >= 0
    ensures forall k :: k in m ==> m[k] <= Sum(m)
    decreases |m|
  {
    forall k | k in m ensures 0 <= m[k] <= Sum(m) {
      SumSplit(m, k);
      SumNonNegative(m - {k});
    }
  }

  lemma {:induction false} SumZero<K>(m: map<K, int>)
    requires forall k :: k in m ==> m[k] == 0
    ensures Sum(m) == 0
    decreases |m|
  {
    if m.Keys != {} {
      var k :| k in m;
      SumSplit(m, k);
      SumZero(m - {k});
    }
  }
}

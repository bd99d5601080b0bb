/**
 * Counting over paired columns: how many rows hold a label, how many rows hold
 * a pair of labels, and sums of counts over a vocabulary. These are the
 * quantities the contingency table's cells, rows and columns add up to.
 *
 * The sum lemmas need of a vocabulary only that it has no duplicates and covers
 * the column (`NoDuplicates`, `Covers`); its order plays no part in a sum.
 * `Vocabulary.UniqueIsDistinctAndCovers` shows that `np.unique`'s sorted
 * vocabulary meets both.
 */
module Counting {

  /** No value occurs twice. */
  predicate NoDuplicates(g: seq<int>)
  {
    forall i, j | 0 <= i < j < |g| :: g[i] != g[j]
  }

  /** Every value of `s` is an entry of `g`. */
  predicate Covers(g: seq<int>, s: seq<int>)
  {
    forall k | 0 <= k < |s| :: s[k] in g
  }

  /** The number of positions of `s` that hold `v`. */
  function Count(s: seq<int>, v: int): nat
  {
    if s == [] then 0
    else Count(s[..|s| - 1], v) + (if s[|s| - 1] == v then 1 else 0)
  }

  /** The number of rows k with `a[k] == x` and `b[k] == y`. */
  function CountPairs(a: seq<int>, b: seq<int>, x: int, y: int): nat
    requires |a| == |b|
  {
    if a == [] then 0
    else
      var n := |a| - 1;
      CountPairs(a[..n], b[..n], x, y) + (if a[n] == x && b[n] == y then 1 else 0)
  }

  /** Sum of a sequence of counts. */
  function Sum(s: seq<nat>): nat
  {
    if s == [] then 0 else Sum(s[..|s| - 1]) + s[|s| - 1]
  }

  /** The frequency of each vocabulary entry `g[j]` in column `s`. */
  function Histogram(s: seq<int>, g: seq<int>): (h: seq<nat>)
    ensures |h| == |g|
  {
    seq(|g|, j requires 0 <= j < |g| => Count(s, g[j]))
  }

  /** The values of column `b` on the rows where column `a` holds `x`, in row order. */
  function Matching(a: seq<int>, b: seq<int>, x: int): seq<int>
    requires |a| == |b|
  {
    if a == [] then []
    else
      var n := |a| - 1;
      Matching(a[..n], b[..n], x) + (if a[n] == x then [b[n]] else [])
  }

  /** `Count` is the multiplicity of `v` in the multiset of the column's values. */
  lemma {:induction false} CountIsMultiplicity(s: seq<int>, v: int)
    ensures Count(s, v) == multiset(s)[v]
  {
    if s != [] {
      var n := |s| - 1;
      CountIsMultiplicity(s[..n], v);
      assert s == s[..n] + [s[n]];
    }
  }

  /** The rows counted by `CountPairs`, as a set of indices. */
  ghost function PairRows(a: seq<int>, b: seq<int>, x: int, y: int): set<nat>
    requires |a| == |b|
  {
    set k: nat | k < |a| && a[k] == x && b[k] == y
  }

  /** `CountPairs` is the number of indices k with `a[k] == x` and `b[k] == y`. */
  lemma {:induction false} CountPairsIsRowSetSize(a: seq<int>, b: seq<int>, x: int, y: int)
    requires |a| == |b|
    ensures CountPairs(a, b, x, y) == |PairRows(a, b, x, y)|
  {
    if a != [] {
      var n := |a| - 1;
      CountPairsIsRowSetSize(a[..n], b[..n], x, y);
      var before := PairRows(a[..n], b[..n], x, y);
      if a[n] == x && b[n] == y {
        assert PairRows(a, b, x, y) == before + {n};
        assert n !in before;
      } else {
        assert PairRows(a, b, x, y) == before;
      }
    }
  }

  /** A value occurs at most once in a duplicate-free sequence, and exactly once if present. */
  lemma {:induction false} CountInDistinct(g: seq<int>, v: int)
    requires NoDuplicates(g)
    ensures Count(g, v) == if v in g then 1 else 0
  {
    if g != [] {
      var n := |g| - 1;
      assert g == g[..n] + [g[n]];
      CountInDistinct(g[..n], v);
      if g[n] == v {
        assert v !in g[..n];
      }
    }
  }

  lemma {:induction false} SumPointwise(x: seq<nat>, y: seq<nat>, z: seq<nat>)
    requires |x| == |y| == |z|
    requires forall j | 0 <= j < |z| :: z[j] == x[j] + y[j]
    ensures Sum(z) == Sum(x) + Sum(y)
  {
    if z != [] {
      var n := |z| - 1;
      SumPointwise(x[..n], y[..n], z[..n]);
    }
  }

  lemma {:induction false} SumOfZeros(x: seq<nat>)
    requires forall j | 0 <= j < |x| :: x[j] == 0
    ensures Sum(x) == 0
  {
    if x != [] {
      SumOfZeros(x[..|x| - 1]);
    }
  }

  /** Sum over `g` of the indicator of `v` equals the count of `v` in `g`. */
  lemma {:induction false} SumOfIndicator(g: seq<int>, v: int, h: seq<nat>)
    requires |h| == |g|
    requires forall j | 0 <= j < |g| :: h[j] == if g[j] == v then 1 else 0
    ensures Sum(h) == Count(g, v)
  {
    if g != [] {
      var n := |g| - 1;
      SumOfIndicator(g[..n], v, h[..n]);
    }
  }

  /** Partition: when `g` is a duplicate-free vocabulary covering column `s`, the
      frequencies of its entries add up to the length of `s`. */
  lemma {:induction false} HistogramSum(s: seq<int>, g: seq<int>)
    requires NoDuplicates(g) && Covers(g, s)
    ensures Sum(Histogram(s, g)) == |s|
  {
    if s == [] {
      SumOfZeros(Histogram(s, g));
    } else {
      var n := |s| - 1;
      var v := s[n];
      HistogramSum(s[..n], g);
      var indicator := seq(|g|, j requires 0 <= j < |g| => if g[j] == v then 1 else 0);
      SumOfIndicator(g, v, indicator);
      SumPointwise(Histogram(s[..n], g), indicator, Histogram(s, g));
      CountInDistinct(g, v);
    }
  }

  /** Counting pairs is counting `y` among the `b`-values of the rows where `a` holds `x`,
      and there are as many such rows as `a` holds `x`. */
  lemma {:induction false} MatchingCounts(a: seq<int>, b: seq<int>, x: int, y: int)
    requires |a| == |b|
    ensures CountPairs(a, b, x, y) == Count(Matching(a, b, x), y)
    ensures |Matching(a, b, x)| == Count(a, x)
  {
    if a != [] {
      var n := |a| - 1;
      MatchingCounts(a[..n], b[..n], x, y);
      var m := Matching(a[..n], b[..n], x);
      if a[n] == x {
        assert (m + [b[n]])[..|m|] == m;
      } else {
        assert m + [] == m;
      }
    }
  }

  /** Every value of `Matching(a, b, x)` occurs in `b`. */
  lemma {:induction false} MatchingFromColumn(a: seq<int>, b: seq<int>, x: int)
    requires |a| == |b|
    ensures forall k | 0 <= k < |Matching(a, b, x)| :: Matching(a, b, x)[k] in b
  {
    if a != [] {
      var n := |a| - 1;
      MatchingFromColumn(a[..n], b[..n], x);
      assert b == b[..n] + [b[n]];
    }
  }

  /** Swapping the two columns swaps the two labels of a pair count. */
  lemma {:induction false} CountPairsSwap(a: seq<int>, b: seq<int>, x: int, y: int)
    requires |a| == |b|
    ensures CountPairs(a, b, x, y) == CountPairs(b, a, y, x)
  {
    if a != [] {
      var n := |a| - 1;
      CountPairsSwap(a[..n], b[..n], x, y);
    }
  }

  /** Row form: summed over a duplicate-free vocabulary `g` covering `b`, the pair
      counts of `x` give the frequency of `x` in `a`. */
  lemma PairCountsSumToCount(a: seq<int>, b: seq<int>, x: int, g: seq<int>)
    requires |a| == |b|
    requires NoDuplicates(g) && Covers(g, b)
    ensures Sum(seq(|g|, j requires 0 <= j < |g| => CountPairs(a, b, x, g[j]))) == Count(a, x)
  {
    var m := Matching(a, b, x);
    MatchingFromColumn(a, b, x);
    forall j | 0 <= j < |g| ensures CountPairs(a, b, x, g[j]) == Count(m, g[j]) {
      MatchingCounts(a, b, x, g[j]);
    }
    MatchingCounts(a, b, x, x);
    HistogramSum(m, g);
    assert seq(|g|, j requires 0 <= j < |g| => CountPairs(a, b, x, g[j])) == Histogram(m, g);
  }
}

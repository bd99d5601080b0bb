/**
 * The modelled part of ds_utils.py: the integer-valued activation `relu` and
 * `calc_contingency_table`, which cross-tabulates two paired categorical
 * columns of a dataframe into a matrix of counts with the sorted vocabularies
 * of both columns as its axes.
 */
module DsUtils {
  import opened Vocabulary
  import opened Counting

  // ---------------------------------------------------------------------------
  // relu
  // ---------------------------------------------------------------------------

  /** `max(0, x)`. */
  function Relu(x: int): (r: int)
    ensures r >= 0 && r >= x
    ensures r == x || r == 0
  {
    if x < 0 then 0 else x
  }

  /** relu applied elementwise to an array: same shape, each entry `max(0, x)`. */
  function ReluEach(xs: seq<int>): (r: seq<int>)
    ensures |r| == |xs|
    ensures forall k | 0 <= k < |xs| :: r[k] >= 0 && r[k] >= xs[k] && (r[k] == xs[k] || r[k] == 0)
  {
    if xs == [] then [] else [Relu(xs[0])] + ReluEach(xs[1..])
  }

  /** Applying relu twice is applying it once. */
  lemma ReluIdempotent(x: int)
    ensures Relu(Relu(x)) == Relu(x)
  {
  }

  lemma ReluEachIdempotent(xs: seq<int>)
    ensures ReluEach(ReluEach(xs)) == ReluEach(xs)
  {
  }

  // ---------------------------------------------------------------------------
  // calc_contingency_table
  // ---------------------------------------------------------------------------

  /** The contingency table of two paired columns, as a value: row i, column j
      holds the number of rows k with `a1[k] == Unique(a1)[i]` and
      `a2[k] == Unique(a2)[j]`. */
  function Table(a1: seq<int>, a2: seq<int>): (t: seq<seq<nat>>)
    requires |a1| == |a2|
    ensures |t| == |Unique(a1)|
    ensures forall i | 0 <= i < |t| :: |t[i]| == |Unique(a2)|
  {
    var group1, group2 := Unique(a1), Unique(a2);
    seq(|group1|, i requires 0 <= i < |group1| =>
      seq(|group2|, j requires 0 <= j < |group2| =>
        CountPairs(a1, a2, group1[i], group2[j])))
  }

  /** The cells of a two-dimensional array, row by row. */
  ghost function Cells(table: array2<nat>): (t: seq<seq<nat>>)
    reads table
    ensures |t| == table.Length0
    ensures forall i | 0 <= i < |t| :: |t[i]| == table.Length1
  {
    seq(table.Length0, i requires 0 <= i < table.Length0 reads table =>
      seq(table.Length1, j requires 0 <= j < table.Length1 reads table => table[i, j]))
  }

  /** Sum of column `j` of a matrix. */
  function ColumnSum(t: seq<seq<nat>>, j: nat): nat
    requires forall i | 0 <= i < |t| :: j < |t[i]|
  {
    Sum(seq(|t|, i requires 0 <= i < |t| => t[i][j]))
  }

  /** Sum of every cell of a matrix, row by row. */
  function Total(t: seq<seq<nat>>): nat
  {
    Sum(seq(|t|, i requires 0 <= i < |t| => Sum(t[i])))
  }

  /** `sum((a1 == x) & (a2 == y))`: one pass over the rows counting those that
      hold `x` in the first column and `y` in the second. */
  method MatchCount(a1: seq<int>, a2: seq<int>, x: int, y: int) returns (c: nat)
    requires |a1| == |a2|
    ensures c == CountPairs(a1, a2, x, y)
    ensures c <= Count(a1, x) && c <= Count(a2, y)
  {
    c := 0;
    for k := 0 to |a1|
      invariant c == CountPairs(a1[..k], a2[..k], x, y)
    {
      assert a1[..k + 1][..k] == a1[..k] && a2[..k + 1][..k] == a2[..k];
      if a1[k] == x && a2[k] == y {
        c := c + 1;
      }
    }
    assert a1[..|a1|] == a1 && a2[..|a2|] == a2;
    PairCountBounds(a1, a2, x, y);
  }

  /** A pair count is at most either label's own frequency. */
  lemma {:induction false} PairCountBounds(a1: seq<int>, a2: seq<int>, x: int, y: int)
    requires |a1| == |a2|
    ensures CountPairs(a1, a2, x, y) <= Count(a1, x)
    ensures CountPairs(a1, a2, x, y) <= Count(a2, y)
  {
    if a1 != [] {
      var n := |a1| - 1;
      PairCountBounds(a1[..n], a2[..n], x, y);
    }
  }

  /** `calc_contingency_table(df, a1, a2)` with the two columns given directly:
      both vocabularies via `np.unique`, a zero matrix of their shape, and a
      nested loop filling cell (i, j) with the count of rows holding
      `group1[i]` and `group2[j]`. */
  method CalcContingencyTable(a1: seq<int>, a2: seq<int>)
    returns (table: array2<nat>, group1: seq<int>, group2: seq<int>)
    requires |a1| == |a2|
    ensures group1 == Unique(a1) && group2 == Unique(a2)
    ensures fresh(table)
    ensures table.Length0 == |group1| && table.Length1 == |group2|
    ensures forall i, j | 0 <= i < |group1| && 0 <= j < |group2| ::
              table[i, j] == CountPairs(a1, a2, group1[i], group2[j])
    ensures Cells(table) == Table(a1, a2)
    ensures Total(Cells(table)) == |a1|
    ensures forall i | 0 <= i < |group1| :: Sum(Cells(table)[i]) == Count(a1, group1[i])
    ensures forall j | 0 <= j < |group2| :: ColumnSum(Cells(table), j) == Count(a2, group2[j])
  {
    group1 := Unique(a1);
    group2 := Unique(a2);
    table := new nat[|group1|, |group2|]((i, j) => 0);
    for i := 0 to |group1|
      invariant forall i', j' | 0 <= i' < i && 0 <= j' < |group2| ::
                  table[i', j'] == CountPairs(a1, a2, group1[i'], group2[j'])
    {
      for j := 0 to |group2|
        invariant forall i', j' | 0 <= i' < i && 0 <= j' < |group2| ::
                    table[i', j'] == CountPairs(a1, a2, group1[i'], group2[j'])
        invariant forall j' | 0 <= j' < j ::
                    table[i, j'] == CountPairs(a1, a2, group1[i], group2[j'])
      {
        table[i, j] := MatchCount(a1, a2, group1[i], group2[j]);
      }
    }
    forall i | 0 <= i < |group1| ensures Cells(table)[i] == Table(a1, a2)[i] {
    }
    TotalIsRowCount(a1, a2);
    forall i | 0 <= i < |group1| ensures Sum(Table(a1, a2)[i]) == Count(a1, group1[i]) {
      RowSums(a1, a2, i);
    }
    forall j | 0 <= j < |group2| ensures ColumnSum(Table(a1, a2), j) == Count(a2, group2[j]) {
      ColumnSums(a1, a2, j);
    }
  }

  // ---------------------------------------------------------------------------
  // What the table adds up to
  // ---------------------------------------------------------------------------

  /** Row i sums to the frequency of `group1[i]` in the first column. */
  lemma RowSums(a1: seq<int>, a2: seq<int>, i: nat)
    requires |a1| == |a2|
    requires i < |Unique(a1)|
    ensures Sum(Table(a1, a2)[i]) == Count(a1, Unique(a1)[i])
  {
    var g2 := Unique(a2);
    UniqueIsDistinctAndCovers(a2);
    PairCountsSumToCount(a1, a2, Unique(a1)[i], g2);
    assert Table(a1, a2)[i] == seq(|g2|, j requires 0 <= j < |g2| => CountPairs(a1, a2, Unique(a1)[i], g2[j]));
  }

  /** Column j sums to the frequency of `group2[j]` in the second column. */
  lemma ColumnSums(a1: seq<int>, a2: seq<int>, j: nat)
    requires |a1| == |a2|
    requires j < |Unique(a2)|
    ensures ColumnSum(Table(a1, a2), j) == Count(a2, Unique(a2)[j])
  {
    var g1, y := Unique(a1), Unique(a2)[j];
    UniqueIsDistinctAndCovers(a1);
    forall i | 0 <= i < |g1| ensures CountPairs(a1, a2, g1[i], y) == CountPairs(a2, a1, y, g1[i]) {
      CountPairsSwap(a1, a2, g1[i], y);
    }
    PairCountsSumToCount(a2, a1, y, g1);
    var column := seq(|g1|, i requires 0 <= i < |g1| => Table(a1, a2)[i][j]);
    forall i | 0 <= i < |g1| ensures column[i] == CountPairs(a2, a1, y, g1[i]) {
      var t := Table(a1, a2);
      assert t[i] == seq(|Unique(a2)|, j' requires 0 <= j' < |Unique(a2)| => CountPairs(a1, a2, g1[i], Unique(a2)[j']));
      assert column[i] == t[i][j] == CountPairs(a1, a2, g1[i], y);
    }
    assert column == seq(|g1|, i requires 0 <= i < |g1| => CountPairs(a2, a1, y, g1[i]));
  }

  /** The cells of the table add up to the number of rows. */
  lemma TotalIsRowCount(a1: seq<int>, a2: seq<int>)
    requires |a1| == |a2|
    ensures Total(Table(a1, a2)) == |a1|
  {
    var t, g1 := Table(a1, a2), Unique(a1);
    forall i | 0 <= i < |g1| ensures Sum(t[i]) == Count(a1, g1[i]) {
      RowSums(a1, a2, i);
    }
    assert seq(|t|, i requires 0 <= i < |t| => Sum(t[i])) == Histogram(a1, g1);
    UniqueIsDistinctAndCovers(a1);
    HistogramSum(a1, g1);
  }

  /** Empty columns give empty vocabularies and a 0 x 0 table. */
  lemma EmptyColumns()
    ensures Unique([]) == [] && Table([], []) == []
  {
  }

  /** Columns [1, 1, 2, 2, 2] and [x, y, x, x, y], with x encoded as 0 and y as 1,
      give vocabularies [1, 2] and [0, 1] and the table [[1, 1], [2, 1]]. */
  lemma SmallExample()
    ensures Unique([1, 1, 2, 2, 2]) == [1, 2]
    ensures Unique([0, 1, 0, 0, 1]) == [0, 1]
    ensures Table([1, 1, 2, 2, 2], [0, 1, 0, 0, 1]) == [[1, 1], [2, 1]]
  {
    var a1, a2 := [1, 1, 2, 2, 2], [0, 1, 0, 0, 1];
    UniqueCharacterization(a1, [1, 2]);
    UniqueCharacterization(a2, [0, 1]);
    SmallExampleCounts();
    assert Table(a1, a2)[0] == [1, 1] && Table(a1, a2)[1] == [2, 1];
  }

  /** The four pair counts of the example, row by row. */
  lemma SmallExampleCounts()
    ensures CountPairs([1, 1, 2, 2, 2], [0, 1, 0, 0, 1], 1, 0) == 1
    ensures CountPairs([1, 1, 2, 2, 2], [0, 1, 0, 0, 1], 1, 1) == 1
    ensures CountPairs([1, 1, 2, 2, 2], [0, 1, 0, 0, 1], 2, 0) == 2
    ensures CountPairs([1, 1, 2, 2, 2], [0, 1, 0, 0, 1], 2, 1) == 1
  {
    var a1, a2 := [1, 1, 2, 2, 2], [0, 1, 0, 0, 1];
    assert a1[..4] == [1, 1, 2, 2] && a1[..3] == [1, 1, 2] && a1[..2] == [1, 1] && a1[..1] == [1];
    assert a2[..4] == [0, 1, 0, 0] && a2[..3] == [0, 1, 0] && a2[..2] == [0, 1] && a2[..1] == [0];
    assert a1[..1][..0] == a1[..0] && a2[..1][..0] == a2[..0];
    assert CountPairs(a1[..1], a2[..1], 1, 0) == 1;
    assert CountPairs(a1[..1], a2[..1], 1, 1) == 0;
    assert CountPairs(a1[..1], a2[..1], 2, 0) == 0;
    assert CountPairs(a1[..1], a2[..1], 2, 1) == 0;
    assert a1[..2][..1] == a1[..1] && a2[..2][..1] == a2[..1];
    assert CountPairs(a1[..2], a2[..2], 1, 0) == 1;
    assert CountPairs(a1[..2], a2[..2], 1, 1) == 1;
    assert CountPairs(a1[..2], a2[..2], 2, 0) == 0;
    assert CountPairs(a1[..2], a2[..2], 2, 1) == 0;
    assert a1[..3][..2] == a1[..2] && a2[..3][..2] == a2[..2];
    assert CountPairs(a1[..3], a2[..3], 1, 0) == 1;
    assert CountPairs(a1[..3], a2[..3], 1, 1) == 1;
    assert CountPairs(a1[..3], a2[..3], 2, 0) == 1;
    assert CountPairs(a1[..3], a2[..3], 2, 1) == 0;
    assert a1[..4][..3] == a1[..3] && a2[..4][..3] == a2[..3];
    assert CountPairs(a1[..4], a2[..4], 1, 0) == 1;
    assert CountPairs(a1[..4], a2[..4], 1, 1) == 1;
    assert CountPairs(a1[..4], a2[..4], 2, 0) == 2;
    assert CountPairs(a1[..4], a2[..4], 2, 1) == 0;
    assert a1[..4] == a1[..|a1| - 1] && a2[..4] == a2[..|a2| - 1];
  }
}

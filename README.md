# ds_utils contingency table and relu, modelled in Dafny

`ds_utils.py` is a set of helpers for data-science notebooks. This project models
its two pieces with exact behaviour:

- `calc_contingency_table(df, a1, a2)` cross-tabulates two paired categorical
  columns of a dataframe. It computes the sorted distinct labels of each column
  (`np.unique`), allocates a zero matrix with one row per label of the first
  column and one column per label of the second, and fills it with a nested
  loop. Cell (i, j) is the number of rows whose first column holds `group1[i]`
  and whose second column holds `group2[j]`. It returns the table and both
  vocabularies.
- `relu(x)`, which is `max(0, x)`.

Files:

- `vocabulary.dfy` (module `Vocabulary`): the label vocabulary. `Unique` is the
  sorted, duplicate-free sequence of a column's values, built by sorted insertion.
  Lemmas show that it is the only strictly increasing sequence with those values,
  so the axis order is deterministic.
- `counting.dfy` (module `Counting`): label counts (`Count`), pair counts
  (`CountPairs`), sums, and the partition lemma. Over a duplicate-free
  vocabulary that covers a column, the label frequencies add up to the column's
  length.
- `ds_utils.dfy` (module `DsUtils`): `Relu` and `ReluEach`, and
  `CalcContingencyTable`. That method allocates an `array2<nat>` of zeros and
  fills it in nested `for` loops. Each cell comes from `MatchCount`, a loop over
  the rows that models line 18's `sum(mask1 & mask2)`. The value-level `Table`
  specifies the result. The lemmas about `Table` give the row sums, column sums
  and grand total.

The columns are `seq<int>`. A column whose labels are all of one totally
ordered type with no missing values, such as a string column without NaN,
maps onto integers by an order-preserving encoding. Under such an encoding
the vocabularies and the table are the same. Columns with missing values or
mixed label types behave differently in numpy; "## Left out" says how. The
table holds `nat` counts, not the floats that `np.zeros` stores.

`calc_contingency_table` (ds_utils.py:12-19) does not compare the lengths of
its two columns. Both come from one dataframe, so they always have equal
length, and the model states that as a precondition
(`requires |a1| == |a2|`). The table is filled by the nested scan of lines
16-18: one pass over all rows for each pair of labels. That scan is what is
modelled.

## Model

| member | source | states |
|---|---|---|
| `Vocabulary.Unique` | ds_utils.py:13-14 | the vocabulary is strictly ascending (sorted, no duplicates) and holds exactly the values that occur in the column |
| `Vocabulary.SameValuesSameSequence` | ds_utils.py:13-14 | two strictly ascending sequences with the same values are equal, so the sorted vocabulary is determined by the column's values alone |
| `Vocabulary.UniqueCharacterization` | ds_utils.py:13-14 | a sequence is the vocabulary of a column if and only if it is strictly ascending and has the same values as the column |
| `Vocabulary.UniqueNoLonger` | ds_utils.py:13-15 | a vocabulary has at most as many entries as the column has rows, which bounds the table's dimensions by N |
| `Counting.CountIsMultiplicity` | ds_utils.py:18 | the frequency of a label in a column equals its multiplicity in the column's multiset |
| `Counting.CountPairsIsRowSetSize` | ds_utils.py:18 | the pair count equals the size of the set of row indices k with `a1[k] == x` and `a2[k] == y`, which is what the masked sum counts |
| `Counting.CountPairsSwap` | ds_utils.py:18 | exchanging the two columns and the two labels leaves a pair count unchanged |
| `Counting.HistogramSum` | ds_utils.py:13-18 | over a duplicate-free vocabulary that covers a column, the frequencies of the vocabulary's entries add up to the column's length |
| `Counting.PairCountsSumToCount` | ds_utils.py:16-18 | over a duplicate-free vocabulary that covers the second column, the pair counts for a label `x` add up to the frequency of `x` in the first column |
| `DsUtils.Relu` | ds_utils.py:9-10 | the result is non-negative, at least `x`, and equal to `x` or to 0, which determines it as `max(0, x)` |
| `DsUtils.ReluEach` | ds_utils.py:9-10 | relu over an array keeps its length and order, and each entry is `max(0, x)` of the entry at the same position |
| `DsUtils.ReluIdempotent` | ds_utils.py:10 | `relu(relu(x)) == relu(x)` |
| `DsUtils.ReluEachIdempotent` | ds_utils.py:10 | applying relu to an array twice gives the same array as applying it once |
| `DsUtils.Table` | ds_utils.py:15-18 | the value-level table has one row per label of the first column and one column per label of the second |
| `DsUtils.MatchCount` | ds_utils.py:18 | the loop over the rows returns the number of rows that hold `x` in the first column and `y` in the second, and that number is at most either label's own frequency |
| `DsUtils.PairCountBounds` | ds_utils.py:18 | a cell count never exceeds the frequency of its row label or of its column label |
| `DsUtils.CalcContingencyTable` | ds_utils.py:12-19 | returns both vocabularies and a fresh table with shape (len(group1), len(group2)). Cell (i, j) is the number of rows holding `group1[i]` and `group2[j]`. The cells add up to N, row i adds up to the frequency of `group1[i]`, and column j adds up to the frequency of `group2[j]` |
| `Vocabulary.UniqueIsDistinctAndCovers` | ds_utils.py:13-14 | a vocabulary has no duplicates and contains every value of its column |
| `DsUtils.RowSums` | ds_utils.py:16-18 | row i of the table sums to the number of occurrences of `group1[i]` in the first column |
| `DsUtils.ColumnSums` | ds_utils.py:16-18 | column j of the table sums to the number of occurrences of `group2[j]` in the second column |
| `DsUtils.TotalIsRowCount` | ds_utils.py:13-18 | all cells of the table together sum to N, the number of rows |
| `DsUtils.EmptyColumns` | ds_utils.py:13-19 | empty columns give empty vocabularies and a 0 x 0 table, with no error |
| `DsUtils.SmallExample` | ds_utils.py:12-19 | columns [1,1,2,2,2] and [x,y,x,x,y] (x as 0, y as 1) give vocabularies [1,2] and [x,y] and the table [[1,1],[2,1]] |

## Left out

- `sigmoid` (ds_utils.py:6-7): a floating-point exponential with no exact behaviour to state.
- `plot_decision_boundary` (ds_utils.py:21-50): matplotlib rendering around a `model.predict` call on a float mesh grid; it is I/O with a foreign collaborator.
- `plot_top_words` (ds_utils.py:52-70): rendering and `plt.show()`. Its top-n selection is a float `argsort` whose tie order numpy does not fix.
- Dataframe plumbing: `df[a1]` and `df[a2]` are passed in as the two columns directly. The broadcast `==` and `&` are folded into the row loop of `MatchCount`.
- `DsUtils.CalcContingencyTable`: counts are `nat` and labels are `int`. The table that `np.zeros` allocates holds floats, and labels may be of any ordered type.
- `DsUtils.Relu`: modelled over integers, not floating point, so NaN and infinities are not covered.
- `np.unique` is a library call whose algorithm is not part of this model. `Unique` specifies its result (sorted, distinct, the column's values) and builds it by sorted insertion, not by numpy's sort-and-mask.
- Columns of different length: both columns come from one dataframe, so the code never sees them and has no check for them; equal length is a precondition.
- `DsUtils.CalcContingencyTable`: `int` labels exclude missing values (NaN, NaT) and columns that mix label types, and the source treats both differently. A column mixing types that cannot be compared, such as `['a', 1]` or strings with a NaN, makes `np.unique` (lines 13-14) raise `TypeError` while sorting; the model has no such error. A float column with NaN raises nothing: `np.unique` keeps NaN as a label, but `df[a1] == nan` (line 18) is false on every row. The NaN row or column of the table is then all zeros. For example, a1 = [1.0, nan] and a2 = [0, 0] give group1 = [1.0, nan] and the table [[1], [0]].
- `DsUtils.TotalIsRowCount`: the total N, and likewise `RowSums`, `ColumnSums` and the sum clauses of `CalcContingencyTable`, hold in the source only for columns without missing values. With NaN labels the total is N minus the rows holding a NaN in either column (1, not 2, in the example above), and a NaN label's row or column sums to 0, not to its frequency.

/**
 * The label vocabulary of a categorical column: the sorted sequence of its
 * distinct values, as `np.unique` returns it in `calc_contingency_table`.
 * Labels are integers; any totally ordered label type maps onto them by an
 * order-preserving encoding.
 */
module Vocabulary {
  import opened Counting

  /** Sorted ascending with no duplicates. */
  predicate StrictlyIncreasing(s: seq<int>)
  {
    forall i, j | 0 <= i < j < |s| :: s[i] < s[j]
  }

  /** Adds `v` to a strictly increasing sequence, keeping it strictly increasing;
      a value already present is not added twice. */
  function Insert(r: seq<int>, v: int): (q: seq<int>)
    requires StrictlyIncreasing(r)
    ensures StrictlyIncreasing(q)
    ensures forall x :: x in q <==> x in r || x == v
  {
    if r == [] then [v]
    else if v < r[0] then [v] + r
    else if v == r[0] then r
    else
      var tail := Insert(r[1..], v);
      assert forall k | 0 <= k < |tail| :: r[0] < tail[k] by {
        forall k | 0 <= k < |tail| ensures r[0] < tail[k] {
          assert tail[k] in tail;
        }
      }
      [r[0]] + tail
  }

  /** The vocabulary of column `s`: its distinct values in ascending order. */
  function Unique(s: seq<int>): (r: seq<int>)
    ensures StrictlyIncreasing(r)
    ensures forall x :: x in r <==> x in s
  {
    if s == [] then []
    else
      assert s == s[..|s| - 1] + [s[|s| - 1]];
      Insert(Unique(s[..|s| - 1]), s[|s| - 1])
  }

  /** The vocabulary meets the hypotheses of the sum lemmas of `Counting`:
      no entry twice, and every value of the column among its entries. */
  lemma UniqueIsDistinctAndCovers(s: seq<int>)
    ensures NoDuplicates(Unique(s)) && Covers(Unique(s), s)
  {
  }

  /** Two strictly increasing sequences holding the same values are equal:
      the sorted vocabulary of a column is determined by its values alone. */
  lemma {:induction false} SameValuesSameSequence(p: seq<int>, q: seq<int>)
    requires StrictlyIncreasing(p) && StrictlyIncreasing(q)
    requires forall x :: x in p <==> x in q
    ensures p == q
    decreases |p|
  {
    if p == [] {
      HeadIsMember(q);
    } else {
      assert p[0] in p && q != [];
      assert q[0] in q;
      var kq :| 0 <= kq < |q| && q[kq] == p[0];
      var kp :| 0 <= kp < |p| && p[kp] == q[0];
      assert q[0] <= p[0] && p[0] <= q[0];
      forall x
        ensures x in p[1..] <==> x in q[1..]
      {
        if x in p[1..] {
          var k :| 1 <= k < |p| && p[k] == x;
          assert x in q && x != q[0];
        }
        if x in q[1..] {
          var k :| 1 <= k < |q| && q[k] == x;
          assert x in p && x != p[0];
        }
      }
      SameValuesSameSequence(p[1..], q[1..]);
      assert p == [p[0]] + p[1..] && q == [q[0]] + q[1..];
    }
  }

  /** Stated as an implication so that `q[0]` is checked only where `q` is
      non-empty; in the empty-`p` case of `SameValuesSameSequence` that case
      contradicts the requires, and no checked index may appear there. */
  lemma HeadIsMember(q: seq<int>)
    ensures q != [] ==> q[0] in q
  {
  }

  /** `Unique(s)` is exactly the strictly increasing sequence of the values of `s`:
      the vocabulary is deterministic, so repeated calls give the same axis order. */
  lemma UniqueCharacterization(s: seq<int>, r: seq<int>)
    ensures r == Unique(s) <==> StrictlyIncreasing(r) && (forall x :: x in r <==> x in s)
  {
    if StrictlyIncreasing(r) && (forall x :: x in r <==> x in s) {
      SameValuesSameSequence(r, Unique(s));
    }
  }

  /** The vocabulary never has more entries than the column has rows. */
  lemma {:induction false} UniqueNoLonger(s: seq<int>)
    ensures |Unique(s)| <= |s|
  {
    if s != [] {
      UniqueNoLonger(s[..|s| - 1]);
      InsertGrowsByAtMostOne(Unique(s[..|s| - 1]), s[|s| - 1]);
    }
  }

  lemma {:induction false} InsertGrowsByAtMostOne(r: seq<int>, v: int)
    requires StrictlyIncreasing(r)
    ensures |Insert(r, v)| <= |r| + 1
  {
    if r != [] && v > r[0] {
      InsertGrowsByAtMostOne(r[1..], v);
    }
  }
}

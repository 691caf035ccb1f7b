/**
 calculateAverages: each loaded student's average is the integer sum of the
 student's NUM_TESTS scores divided by NUM_TESTS. Averages are exact reals.
 */
module Aggregator {
  import opened GradeBook

  /** The running sum the inner loop accumulates, first score first. */
  function Sum(xs: seq<int>): int
  {
    if |xs| == 0 then 0 else Sum(xs[..|xs| - 1]) + xs[|xs| - 1]
  }

  /** A student's average: the sum of the scores over NUM_TESTS. */
  function Average(scores: seq<int>): (avg: real)
    requires |scores| == NUM_TESTS
    ensures avg * NUM_TESTS as real == Sum(scores) as real
  {
    Sum(scores) as real / NUM_TESTS as real
  }

  /** Scores in [lo, hi] sum to a value in [lo * n, hi * n]. */
  lemma {:induction false} SumBounds(xs: seq<int>, lo: int, hi: int)
    requires forall k :: 0 <= k < |xs| ==> lo <= xs[k] <= hi
    ensures lo * |xs| <= Sum(xs) <= hi * |xs|
  {
    if |xs| > 0 {
      var n := |xs| - 1;
      SumBounds(xs[..n], lo, hi);
      assert lo * |xs| == lo * n + lo && hi * |xs| == hi * n + hi;
    }
  }

  /** The average lies between the lowest and the highest admissible score. */
  lemma AverageBounds(scores: seq<int>, lo: int, hi: int)
    requires |scores| == NUM_TESTS
    requires forall k :: 0 <= k < |scores| ==> lo <= scores[k] <= hi
    ensures lo as real <= Average(scores) <= hi as real
  {
    SumBounds(scores, lo, hi);
  }

  /** The sum of a concatenation is the sum of its two parts. */
  lemma {:induction false} SumAppend(xs: seq<int>, ys: seq<int>)
    ensures Sum(xs + ys) == Sum(xs) + Sum(ys)
  {
    if |ys| > 0 {
      assert (xs + ys)[..|xs + ys| - 1] == xs + ys[..|ys| - 1];
      SumAppend(xs, ys[..|ys| - 1]);
    } else {
      assert xs + ys == xs;
    }
  }

  /** The sum of n copies of a score c is c·n. */
  lemma {:induction false} SumConstant(xs: seq<int>, c: int)
    requires forall k :: 0 <= k < |xs| ==> xs[k] == c
    ensures Sum(xs) == c * |xs|
  {
    if |xs| > 0 {
      SumConstant(xs[..|xs| - 1], c);
    }
  }

  /** A student with the same score on every test has that score as average. */
  lemma AverageConstant(scores: seq<int>, c: int)
    requires |scores| == NUM_TESTS
    requires forall k :: 0 <= k < |scores| ==> scores[k] == c
    ensures Average(scores) == c as real
  {
    SumConstant(scores, c);
  }

  /**
   calculateAverages. For every student below `studentCount` the average of
   row i is stored at averages[i]; every other entry keeps its value.
   */
  method CalculateAverages(scores: array2<int>, averages: array<real>, studentCount: int)
    requires studentCount <= scores.Length0 && studentCount <= averages.Length && scores.Length1 == NUM_TESTS
    modifies averages
    ensures forall i :: 0 <= i < studentCount ==> averages[i] == Average(Rows(scores)[i])
    ensures forall i :: 0 <= i < averages.Length && !(0 <= i < studentCount) ==> averages[i] == old(averages[i])
  {
    var i := 0;
    while i < studentCount
      invariant 0 <= i && (i <= studentCount || i == 0)
      invariant forall k :: 0 <= k < i ==> averages[k] == Average(Rows(scores)[k])
      invariant forall k :: i <= k < averages.Length ==> averages[k] == old(averages[k])
    {
      ghost var row := Rows(scores)[i];
      var sum := 0;
      var t := 0;
      while t < NUM_TESTS
        invariant 0 <= t <= NUM_TESTS
        invariant sum == Sum(row[..t])
      {
        assert row[..t + 1][..t] == row[..t];
        sum := sum + scores[i, t];
        t := t + 1;
      }
      assert row[..NUM_TESTS] == row;
      averages[i] := sum as real / NUM_TESTS as real;
      i := i + 1;
    }
  }
}

/** Sums and integer means, as the programs' averaging loops compute them:
    a running sum and a count, then one integer division.  Every sum averaged in the
    programs is nonnegative, so Dafny's division agrees with C's truncating one. */
module Stats {
  import opened CArith

  function Sum(s: seq<int>): int
  {
    if s == [] then 0 else Sum(s[..|s| - 1]) + s[|s| - 1]
  }

  lemma {:induction false} SumAppend(s: seq<int>, x: int)
    ensures Sum(s + [x]) == Sum(s) + x
  {
    assert (s + [x])[..|s + [x]| - 1] == s;
  }

  /** Every element within [lo, hi] puts the sum within [lo * |s|, hi * |s|]. */
  lemma {:induction false} SumBounds(s: seq<int>, lo: int, hi: int)
    requires forall i :: 0 <= i < |s| ==> lo <= s[i] <= hi
    ensures lo * |s| <= Sum(s) <= hi * |s|
  {
    if s != [] {
      SumBounds(s[..|s| - 1], lo, hi);
      assert lo * |s| == lo * (|s| - 1) + lo;
      assert hi * |s| == hi * (|s| - 1) + hi;
    }
  }

  function Mean(s: seq<int>): int
    requires |s| > 0
  {
    Sum(s) / |s|
  }

  /** The integer mean lies between any bounds of the averaged values. */
  lemma MeanWithin(s: seq<int>, lo: int, hi: int)
    requires |s| > 0
    requires forall i :: 0 <= i < |s| ==> lo <= s[i] <= hi
    ensures lo <= Mean(s) <= hi
  {
    SumBounds(s, lo, hi);
    DivWithin(Sum(s), |s|, lo, hi);
  }

  function RSum(s: seq<real>): real
  {
    if s == [] then 0.0 else RSum(s[..|s| - 1]) + s[|s| - 1]
  }

  lemma {:induction false} RSumAppend(s: seq<real>, x: real)
    ensures RSum(s + [x]) == RSum(s) + x
  {
    assert (s + [x])[..|s + [x]| - 1] == s;
  }

  /** Every element strictly above lo puts the sum strictly above lo * |s|. */
  lemma {:induction false} RSumAbove(s: seq<real>, lo: real)
    requires |s| > 0
    requires forall i :: 0 <= i < |s| ==> lo < s[i]
    ensures lo * |s| as real < RSum(s)
  {
    if |s| > 1 {
      RSumAbove(s[..|s| - 1], lo);
    }
  }

  function RMean(s: seq<real>): real
    requires |s| > 0
  {
    RSum(s) / |s| as real
  }

  /** Every element strictly below hi puts the sum strictly below hi * |s|. */
  lemma {:induction false} RSumBelow(s: seq<real>, hi: real)
    requires |s| > 0
    requires forall i :: 0 <= i < |s| ==> s[i] < hi
    ensures RSum(s) < hi * |s| as real
  {
    if |s| > 1 {
      RSumBelow(s[..|s| - 1], hi);
    }
  }

  /** A mean of values all strictly inside (lo, hi) is strictly inside it too. */
  lemma RMeanWithin(s: seq<real>, lo: real, hi: real)
    requires |s| > 0
    requires forall i :: 0 <= i < |s| ==> lo < s[i] < hi
    ensures lo < RMean(s) < hi
  {
    RSumAbove(s, lo);
    RSumBelow(s, hi);
  }
}

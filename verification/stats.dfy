/** Sums, extrema and the arithmetic mean over sequences of exact reals. */
module Stats {
  import opened Wrappers

  /** Python's `sum`: left-to-right addition starting from zero. */
  function Sum(xs: seq<real>): real
  {
    if |xs| == 0 then 0.0 else Sum(xs[..|xs| - 1]) + xs[|xs| - 1]
  }

  /** The least element of a non-empty sequence. */
  function Min(xs: seq<real>): (m: real)
    requires |xs| > 0
    ensures m in xs
    ensures forall i :: 0 <= i < |xs| ==> m <= xs[i]
  {
    if |xs| == 1 then xs[0]
    else
      var rest := Min(xs[1..]);
      assert forall i :: 1 <= i < |xs| ==> xs[i] == xs[1..][i - 1];
      if xs[0] <= rest then xs[0] else rest
  }

  /** The greatest element of a non-empty sequence. */
  function Max(xs: seq<real>): (m: real)
    requires |xs| > 0
    ensures m in xs
    ensures forall i :: 0 <= i < |xs| ==> xs[i] <= m
  {
    if |xs| == 1 then xs[0]
    else
      var rest := Max(xs[1..]);
      assert forall i :: 1 <= i < |xs| ==> xs[i] == xs[1..][i - 1];
      if rest <= xs[0] then xs[0] else rest
  }

  /** A lower bound of every element bounds the sum from below, `|xs|` times over. */
  lemma {:induction false} SumAtLeast(xs: seq<real>, lo: real)
    requires forall i :: 0 <= i < |xs| ==> lo <= xs[i]
    ensures |xs| as real * lo <= Sum(xs)
  {
    if |xs| > 0 {
      var init := xs[..|xs| - 1];
      assert forall i :: 0 <= i < |init| ==> init[i] == xs[i];
      SumAtLeast(init, lo);
      assert |xs| as real * lo == |init| as real * lo + lo;
    }
  }

  /** An upper bound of every element bounds the sum from above, `|xs|` times over. */
  lemma {:induction false} SumAtMost(xs: seq<real>, hi: real)
    requires forall i :: 0 <= i < |xs| ==> xs[i] <= hi
    ensures Sum(xs) <= |xs| as real * hi
  {
    if |xs| > 0 {
      var init := xs[..|xs| - 1];
      assert forall i :: 0 <= i < |init| ==> init[i] == xs[i];
      SumAtMost(init, hi);
      assert |xs| as real * hi == |init| as real * hi + hi;
    }
  }

  /** Dividing by a positive count keeps a total above its scaled lower bound. */
  lemma QuotientAtLeast(total: real, n: real, lo: real)
    requires n > 0.0
    requires n * lo <= total
    ensures lo <= total / n
  {
    assert total / n * n == total;
  }

  /** Dividing by a positive count keeps a total below its scaled upper bound. */
  lemma QuotientAtMost(total: real, n: real, hi: real)
    requires n > 0.0
    requires total <= n * hi
    ensures total / n <= hi
  {
    assert total / n * n == total;
  }

  /**
    `sum(xs) / len(xs)`. Dividing by an empty length raises in the program,
    so the empty sequence has no mean (it is not 0.0).
   */
  function Mean(xs: seq<real>): (r: Option<real>)
    ensures r.Some? <==> |xs| > 0
    ensures r.Some? ==> Min(xs) <= r.value <= Max(xs)
  {
    if |xs| == 0 then None
    else
      MeanBetween(xs);
      Some(Sum(xs) / |xs| as real)
  }

  /** The average of a non-empty sequence lies between its extremes. */
  lemma MeanBetween(xs: seq<real>)
    requires |xs| > 0
    ensures Min(xs) <= Sum(xs) / |xs| as real <= Max(xs)
  {
    AverageAtLeast(xs, Min(xs));
    AverageAtMost(xs, Max(xs));
  }

  /** A lower bound of every element bounds the average. */
  lemma AverageAtLeast(xs: seq<real>, lo: real)
    requires |xs| > 0
    requires forall i :: 0 <= i < |xs| ==> lo <= xs[i]
    ensures lo <= Sum(xs) / |xs| as real
  {
    SumAtLeast(xs, lo);
    QuotientAtLeast(Sum(xs), |xs| as real, lo);
  }

  /** An upper bound of every element bounds the average. */
  lemma AverageAtMost(xs: seq<real>, hi: real)
    requires |xs| > 0
    requires forall i :: 0 <= i < |xs| ==> xs[i] <= hi
    ensures Sum(xs) / |xs| as real <= hi
  {
    SumAtMost(xs, hi);
    QuotientAtMost(Sum(xs), |xs| as real, hi);
  }

  /** The mean of values that all equal `c` is `c` itself. */
  lemma MeanOfConstant(xs: seq<real>, c: real)
    requires |xs| > 0
    requires forall i :: 0 <= i < |xs| ==> xs[i] == c
    ensures Mean(xs) == Some(c)
  {
    var m := Min(xs);
    var M := Max(xs);
  }
}

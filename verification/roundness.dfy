/**
  Per-image roundness scoring. The star contours and the ellipses fitted to
  them come from OpenCV; each contour reaches this model as its point count
  and the two axis lengths `(a, b)` of its fitted ellipse. Which of the two
  axes is reported first is not assumed.
 */
module Roundness {
  import opened Wrappers
  import opened Floats
  import Stats

  /** Fewest contour points the ellipse fit is attempted on. */
  const MinPoints: nat := 5

  /** Largest axis length accepted as a star. */
  const AxisCap: real := 50.0

  /**
    An ellipse axis length as OpenCV reports it: finite, NaN or +infinity.
    Axis lengths are square roots, so -infinity does not occur.
   */
  type Axis = f: Float | !f.NegInf? witness Finite(0.0)

  /**
    One traced contour: its point count and the axes fitted to it. The axes
    are only looked at when the contour has at least `MinPoints` points,
    since the program does not fit an ellipse to a shorter contour.
   */
  datatype Contour = Contour(points: nat, a: Axis, b: Axis)

  /** The program's guard `a * b == 0 or isnan(a) or isnan(b) or a > 50 or b > 50`. */
  predicate Degenerate(a: Axis, b: Axis): (r: bool)
    ensures !a.Finite? || !b.Finite? ==> r
  {
    ProductIsZero(a, b) || IsNaN(a) || IsNaN(b) || Greater(a, AxisCap) || Greater(b, AxisCap)
  }

  /** A contour contributes a roundness value when it is long enough and its ellipse passes the guard. */
  predicate Accepted(c: Contour): (r: bool)
    ensures r ==> c.points >= MinPoints && c.a.Finite? && c.b.Finite?
    ensures r ==> c.a.value <= AxisCap && c.b.value <= AxisCap
  {
    c.points >= MinPoints && !Degenerate(c.a, c.b)
  }

  /**
    The guard read as plain conditions: a contour is accepted exactly when it
    has at least five points and both axes are finite, non-zero and at most 50.
   */
  lemma AcceptedIff(c: Contour)
    ensures Accepted(c) <==>
              && c.points >= 5
              && c.a.Finite? && c.b.Finite?
              && c.a.value != 0.0 && c.b.value != 0.0
              && c.a.value <= 50.0 && c.b.value <= 50.0
  {
    if c.a.Finite? && c.b.Finite? {
      ProductIsZeroIff(c.a, c.b);
    }
  }

  /** The roundness `a / b` of an accepted contour. */
  function Ratio(c: Contour): real
    requires Accepted(c)
  {
    AcceptedIff(c);
    c.a.value / c.b.value
  }

  /** The roundness values of the accepted contours, in contour order. */
  function RoundnessValues(contours: seq<Contour>): (values: seq<real>)
    ensures |values| <= |contours|
  {
    if |contours| == 0 then []
    else
      var last := contours[|contours| - 1];
      RoundnessValues(contours[..|contours| - 1]) + (if Accepted(last) then [Ratio(last)] else [])
  }

  /** The number of accepted contours. */
  function AcceptedCount(contours: seq<Contour>): nat
  {
    if |contours| == 0 then 0
    else AcceptedCount(contours[..|contours| - 1]) + (if Accepted(contours[|contours| - 1]) then 1 else 0)
  }

  /**
    The loop of `roundness_check` over one image's contours: skip contours
    with fewer than five points, skip degenerate ellipses, and append `a / b`.
   */
  method CollectRoundness(contours: seq<Contour>) returns (roundness: seq<real>)
    ensures roundness == RoundnessValues(contours)
    ensures |roundness| == AcceptedCount(contours)
  {
    roundness := [];
    var i := 0;
    while i < |contours|
      invariant 0 <= i <= |contours|
      invariant roundness == RoundnessValues(contours[..i])
      invariant |roundness| == AcceptedCount(contours[..i])
    {
      var c := contours[i];
      assert contours[..i + 1][..i] == contours[..i];
      if c.points < MinPoints {
        i := i + 1;
        continue;
      }
      if Degenerate(c.a, c.b) {
        i := i + 1;
        continue;
      }
      roundness := roundness + [c.a.value / c.b.value];
      i := i + 1;
    }
    assert contours[..i] == contours;
  }

  /**
    Exact characterisation of the collected values: there is one per accepted
    contour, and an accepted contour's ratio sits at the position given by the
    number of accepted contours before it.
   */
  lemma {:induction false} RoundnessValuesIndexed(contours: seq<Contour>)
    ensures |RoundnessValues(contours)| == AcceptedCount(contours)
    ensures forall i :: 0 <= i < |contours| && Accepted(contours[i]) ==>
              AcceptedCount(contours[..i]) < |RoundnessValues(contours)| &&
              RoundnessValues(contours)[AcceptedCount(contours[..i])] == Ratio(contours[i])
  {
    if |contours| > 0 {
      var n := |contours| - 1;
      var init := contours[..n];
      RoundnessValuesIndexed(init);
      forall i | 0 <= i < |contours| && Accepted(contours[i])
        ensures AcceptedCount(contours[..i]) < |RoundnessValues(contours)|
        ensures RoundnessValues(contours)[AcceptedCount(contours[..i])] == Ratio(contours[i])
      {
        if i < n {
          assert init[..i] == contours[..i];
          assert init[i] == contours[i];
        } else {
          assert contours[..i] == init;
        }
      }
    }
  }

  /** Every collected value is the ratio of some accepted contour. */
  lemma {:induction false} RoundnessValueOrigin(contours: seq<Contour>, k: nat)
    requires k < |RoundnessValues(contours)|
    ensures exists i :: 0 <= i < |contours| && Accepted(contours[i]) && RoundnessValues(contours)[k] == Ratio(contours[i])
  {
    var n := |contours| - 1;
    var init := contours[..n];
    if k < |RoundnessValues(init)| {
      RoundnessValueOrigin(init, k);
      var i :| 0 <= i < |init| && Accepted(init[i]) && RoundnessValues(init)[k] == Ratio(init[i]);
      assert contours[i] == init[i];
    } else {
      assert Accepted(contours[n]);
    }
  }

  /** Values are collected exactly when some contour is accepted. */
  lemma {:induction false} RoundnessValuesNonEmptyIff(contours: seq<Contour>)
    ensures |RoundnessValues(contours)| > 0 <==> exists i :: 0 <= i < |contours| && Accepted(contours[i])
  {
    if exists i :: 0 <= i < |contours| && Accepted(contours[i]) {
      var i :| 0 <= i < |contours| && Accepted(contours[i]);
      RoundnessValuesIndexed(contours);
    }
    if |RoundnessValues(contours)| > 0 {
      RoundnessValueOrigin(contours, 0);
    }
  }

  /** The mean of the collected values is bracketed by two accepted contours' ratios. */
  lemma MeanWithinRatios(contours: seq<Contour>)
    requires |RoundnessValues(contours)| > 0
    ensures Stats.Mean(RoundnessValues(contours)).Some?
    ensures exists i :: 0 <= i < |contours| && Accepted(contours[i]) &&
              Ratio(contours[i]) <= Stats.Mean(RoundnessValues(contours)).value
    ensures exists i :: 0 <= i < |contours| && Accepted(contours[i]) &&
              Stats.Mean(RoundnessValues(contours)).value <= Ratio(contours[i])
  {
    var values := RoundnessValues(contours);
    var lo :| 0 <= lo < |values| && values[lo] == Stats.Min(values);
    var hi :| 0 <= hi < |values| && values[hi] == Stats.Max(values);
    RoundnessValueOrigin(contours, lo);
    RoundnessValueOrigin(contours, hi);
  }

  /**
    `sum(roundness) / len(roundness)`: the image's mean roundness, which the
    program fails to compute (division by zero) when no contour is accepted.
   */
  function ImageScore(contours: seq<Contour>): (score: Option<real>)
    ensures score.Some? <==> AcceptedCount(contours) > 0
  {
    RoundnessValuesIndexed(contours);
    Stats.Mean(RoundnessValues(contours))
  }

  /**
    An image has a score exactly when some contour is accepted, and the score
    then lies between the smallest and the largest accepted ratio.
   */
  lemma ImageScoreWithinRatios(contours: seq<Contour>)
    ensures ImageScore(contours).Some? <==> exists i :: 0 <= i < |contours| && Accepted(contours[i])
    ensures ImageScore(contours).Some? ==>
              && (exists i :: 0 <= i < |contours| && Accepted(contours[i]) && Ratio(contours[i]) <= ImageScore(contours).value)
              && (exists i :: 0 <= i < |contours| && Accepted(contours[i]) && ImageScore(contours).value <= Ratio(contours[i]))
  {
    RoundnessValuesNonEmptyIff(contours);
    if |RoundnessValues(contours)| > 0 {
      MeanWithinRatios(contours);
    }
  }

  /** A positive quotient of a larger by a smaller value is at least 1. */
  lemma QuotientAtLeastOne(x: real, y: real)
    requires 0.0 < y <= x
    ensures x / y >= 1.0
  {
    assert x / y * y == x;
  }

  /**
    If every accepted ellipse reports its larger axis first and has positive
    axes, as the program's comment assumes, the image score is at least 1.
   */
  lemma ScoreAtLeastOneWhenMajorFirst(contours: seq<Contour>)
    requires forall i :: 0 <= i < |contours| && Accepted(contours[i]) ==>
               0.0 < contours[i].b.value <= contours[i].a.value
    requires ImageScore(contours).Some?
    ensures ImageScore(contours).value >= 1.0
  {
    ImageScoreWithinRatios(contours);
    var i :| 0 <= i < |contours| && Accepted(contours[i]) && Ratio(contours[i]) <= ImageScore(contours).value;
    QuotientAtLeastOne(contours[i].a.value, contours[i].b.value);
  }

  /** An image whose accepted ellipses are all circles scores exactly 1. */
  lemma CirclesScoreOne(contours: seq<Contour>)
    requires forall i :: 0 <= i < |contours| && Accepted(contours[i]) ==> contours[i].a == contours[i].b
    requires exists i :: 0 <= i < |contours| && Accepted(contours[i])
    ensures ImageScore(contours) == Some(1.0)
  {
    var values := RoundnessValues(contours);
    forall k | 0 <= k < |values|
      ensures values[k] == 1.0
    {
      RoundnessValueOrigin(contours, k);
    }
    RoundnessValuesNonEmptyIff(contours);
    Stats.MeanOfConstant(values, 1.0);
  }
}

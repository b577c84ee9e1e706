/**
  The rejection curve shown to the user before a threshold is chosen: for each
  candidate threshold `k * 0.05`, `k = 0 .. 19` (`np.arange(0, 1, 0.05)`), the
  number of image scores strictly below it.
 */
module Threshold {
  import opened Floats

  /** The spacing of the candidate thresholds. */
  const Step: real := 0.05

  /** How many candidate thresholds `np.arange(0, 1, 0.05)` yields. */
  const CandidateCount: nat := 20

  /** The `k`-th candidate threshold. */
  function Candidate(k: nat): real {
    k as real * Step
  }

  /** `np.sum(scores < t)`: how many scores compare strictly below `t`. */
  function CountBelow(scores: seq<real>, t: Float): (n: nat)
    ensures n <= |scores|
  {
    if |scores| == 0 then 0
    else CountBelow(scores[..|scores| - 1], t) + (if Less(scores[|scores| - 1], t) then 1 else 0)
  }

  /** The positions of the scores strictly below `t`. */
  function BelowIndices(scores: seq<real>, t: Float): set<nat> {
    set i: nat | i < |scores| && Less(scores[i], t)
  }

  /** The count is the number of positions holding a score strictly below the threshold. */
  lemma {:induction false} CountBelowIsIndexCount(scores: seq<real>, t: Float)
    ensures CountBelow(scores, t) == |BelowIndices(scores, t)|
  {
    if |scores| > 0 {
      var n := |scores| - 1;
      var init := scores[..n];
      CountBelowIsIndexCount(init, t);
      if Less(scores[n], t) {
        assert BelowIndices(scores, t) == BelowIndices(init, t) + {n};
      } else {
        assert BelowIndices(scores, t) == BelowIndices(init, t);
      }
    } else {
      assert BelowIndices(scores, t) == {};
    }
  }

  /** Raising a finite threshold never lowers the count below it. */
  lemma {:induction false} CountBelowMonotone(scores: seq<real>, t1: real, t2: real)
    requires t1 <= t2
    ensures CountBelow(scores, Finite(t1)) <= CountBelow(scores, Finite(t2))
  {
    if |scores| > 0 {
      CountBelowMonotone(scores[..|scores| - 1], t1, t2);
    }
  }

  /** No score compares below NaN; every score compares below +infinity. */
  lemma {:induction false} CountBelowNonFinite(scores: seq<real>)
    ensures CountBelow(scores, NaN) == 0
    ensures CountBelow(scores, NegInf) == 0
    ensures CountBelow(scores, PosInf) == |scores|
  {
    if |scores| > 0 {
      CountBelowNonFinite(scores[..|scores| - 1]);
    }
  }

  /** When no score is negative, the first candidate (0.0) rejects nothing. */
  lemma {:induction false} CountBelowZero(scores: seq<real>)
    requires forall i :: 0 <= i < |scores| ==> scores[i] >= 0.0
    ensures CountBelow(scores, Finite(Candidate(0))) == 0
  {
    if |scores| > 0 {
      CountBelowZero(scores[..|scores| - 1]);
    }
  }

  /**
    The plotted `counts` list: one entry per candidate threshold, none above
    the number of scores, and non-decreasing as the threshold grows.
   */
  function RejectionCurve(scores: seq<real>): (counts: seq<nat>)
    ensures |counts| == CandidateCount
    ensures forall k :: 0 <= k < |counts| ==> counts[k] <= |scores|
    ensures forall i, j :: 0 <= i <= j < |counts| ==> counts[i] <= counts[j]
  {
    var counts := seq(CandidateCount, k requires 0 <= k < CandidateCount => CountBelow(scores, Finite(Candidate(k))));
    assert forall i, j :: 0 <= i <= j < |counts| ==> counts[i] <= counts[j] by {
      forall i, j | 0 <= i <= j < |counts|
        ensures counts[i] <= counts[j]
      {
        CountBelowMonotone(scores, Candidate(i), Candidate(j));
      }
    }
    counts
  }
}

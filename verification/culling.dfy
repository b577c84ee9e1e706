/**
  The batch side of `roundness_check`: scoring every frame into the
  `roundness_by_image` dictionary, and selecting the paths whose score lies
  strictly below the chosen threshold.
 */
module Culling {
  import opened Wrappers
  import opened Floats
  import opened Roundness
  import Threshold

  /** One image of the batch: its path and the contours found in its cropped region. */
  datatype Frame = Frame(path: string, contours: seq<Contour>)

  /** One item of the score dictionary. */
  datatype Entry = Entry(path: string, score: real)

  /** The dictionary's keys, in insertion order. */
  function Keys(table: seq<Entry>): seq<string> {
    seq(|table|, i requires 0 <= i < |table| => table[i].path)
  }

  /** The dictionary's values, in insertion order. */
  function Scores(table: seq<Entry>): seq<real> {
    seq(|table|, i requires 0 <= i < |table| => table[i].score)
  }

  /** The frames' paths, in batch order. */
  function FramePaths(frames: seq<Frame>): seq<string> {
    seq(|frames|, i requires 0 <= i < |frames| => frames[i].path)
  }

  /** A path is a key exactly when some item carries it. */
  lemma InKeysIff(table: seq<Entry>, p: string)
    ensures p in Keys(table) <==> exists e :: e in table && e.path == p
  {
    if exists e :: e in table && e.path == p {
      var e :| e in table && e.path == p;
      var k :| 0 <= k < |table| && table[k] == e;
      assert Keys(table)[k] == p;
    }
  }

  /** No path occurs twice, as in any Python dictionary. */
  predicate DistinctPaths(table: seq<Entry>) {
    forall i, j :: 0 <= i < j < |table| ==> table[i].path != table[j].path
  }

  /** `table.get(path)` */
  function Lookup(table: seq<Entry>, path: string): Option<real> {
    if |table| == 0 then None
    else if table[0].path == path then Some(table[0].score)
    else Lookup(table[1..], path)
  }

  /**
    `table[path] = score`: a present key keeps its place and takes the new
    value, an absent key is appended at the end.
   */
  function Put(table: seq<Entry>, path: string, score: real): seq<Entry>
  {
    if |table| == 0 then [Entry(path, score)]
    else if table[0].path == path then [Entry(path, score)] + table[1..]
    else [table[0]] + Put(table[1..], path, score)
  }

  /** After `table[path] = score`, `path` maps to `score` and every other key is unchanged. */
  lemma {:induction false} PutLookup(table: seq<Entry>, path: string, score: real, q: string)
    ensures Lookup(Put(table, path, score), q) == if q == path then Some(score) else Lookup(table, q)
  {
    if |table| > 0 && table[0].path != path {
      PutLookup(table[1..], path, score, q);
      var r := Put(table, path, score);
      assert r[1..] == Put(table[1..], path, score);
    }
  }

  /** Assigning to a present key keeps the keys in place. */
  lemma {:induction false} PutPresentKey(table: seq<Entry>, path: string, score: real)
    requires path in Keys(table)
    ensures Keys(Put(table, path, score)) == Keys(table)
  {
    var r := Put(table, path, score);
    assert Keys(table) == [table[0].path] + Keys(table[1..]);
    if table[0].path == path {
      assert r == [Entry(path, score)] + table[1..];
      assert Keys(r) == [path] + Keys(table[1..]);
    } else {
      var rest := Put(table[1..], path, score);
      PutPresentKey(table[1..], path, score);
      assert r == [table[0]] + rest;
      assert Keys(r) == [table[0].path] + Keys(rest);
    }
  }

  /** Assigning to an absent key appends it. */
  lemma {:induction false} PutAbsentKey(table: seq<Entry>, path: string, score: real)
    requires path !in Keys(table)
    ensures Put(table, path, score) == table + [Entry(path, score)]
  {
    if |table| > 0 {
      assert Keys(table)[0] == table[0].path;
      assert Keys(table) == [table[0].path] + Keys(table[1..]);
      PutAbsentKey(table[1..], path, score);
      assert table == [table[0]] + table[1..];
    }
  }

  /** Assigning to a present key keeps the keys in place; an absent key is appended. */
  lemma PutKeys(table: seq<Entry>, path: string, score: real)
    ensures path in Keys(table) ==> Keys(Put(table, path, score)) == Keys(table)
    ensures path !in Keys(table) ==> Put(table, path, score) == table + [Entry(path, score)]
  {
    if path in Keys(table) {
      PutPresentKey(table, path, score);
    } else {
      PutAbsentKey(table, path, score);
    }
  }

  /** Assignment keeps the keys of a dictionary distinct. */
  lemma PutDistinct(table: seq<Entry>, path: string, score: real)
    ensures DistinctPaths(table) ==> DistinctPaths(Put(table, path, score))
  {
    PutKeys(table, path, score);
    var r := Put(table, path, score);
    if path in Keys(table) {
      assert forall i :: 0 <= i < |r| ==> r[i].path == Keys(r)[i] == Keys(table)[i] == table[i].path;
    } else {
      assert forall i :: 0 <= i < |table| ==> Keys(table)[i] == table[i].path;
    }
  }

  /** Assignment adds at most one item. */
  lemma PutLength(table: seq<Entry>, path: string, score: real)
    ensures |table| <= |Put(table, path, score)| <= |table| + 1
  {
    PutKeys(table, path, score);
  }

  /** What scoring one image yields: its path, and its mean roundness unless the division failed. */
  datatype Outcome = Outcome(path: string, score: Option<real>)

  /** The outcomes' paths, in batch order. */
  function OutcomePaths(outcomes: seq<Outcome>): seq<string> {
    seq(|outcomes|, i requires 0 <= i < |outcomes| => outcomes[i].path)
  }

  /**
    Storing each outcome into the dictionary in batch order. The first failed
    outcome ends the loop without a dictionary, as the uncaught division
    error does in the program.
   */
  function FillTable(outcomes: seq<Outcome>): (r: Option<seq<Entry>>)
    ensures r.Some? <==> forall i :: 0 <= i < |outcomes| ==> outcomes[i].score.Some?
    ensures r.Some? ==> DistinctPaths(r.value) && |r.value| <= |outcomes|
  {
    if |outcomes| == 0 then Some([])
    else
      var init := outcomes[..|outcomes| - 1];
      var last := outcomes[|outcomes| - 1];
      assert forall i :: 0 <= i < |init| ==> init[i] == outcomes[i];
      match FillTable(init)
      case None => None
      case Some(table) =>
        if last.score.None? then None
        else
          PutLength(table, last.path, last.score.value);
          PutDistinct(table, last.path, last.score.value);
          Some(Put(table, last.path, last.score.value))
  }

  /** The dictionary's keys are exactly the outcomes' paths. */
  lemma {:induction false} FillTableKeys(outcomes: seq<Outcome>, p: string)
    requires FillTable(outcomes).Some?
    ensures p in Keys(FillTable(outcomes).value) <==> p in OutcomePaths(outcomes)
  {
    if |outcomes| > 0 {
      var init := outcomes[..|outcomes| - 1];
      var last := outcomes[|outcomes| - 1];
      assert forall i :: 0 <= i < |init| ==> init[i] == outcomes[i];
      FillTableStep(outcomes);
      var table := FillTable(init).value;
      var keys := Keys(FillTable(outcomes).value);
      assert OutcomePaths(outcomes) == OutcomePaths(init) + [last.path];
      FillTableKeys(init, p);
      FillTableKeys(init, last.path);
      if last.path in Keys(table) {
        PutPresentKey(table, last.path, last.score.value);
        assert keys == Keys(table);
      } else {
        PutAbsentKey(table, last.path, last.score.value);
        assert keys == Keys(table) + [last.path];
      }
    }
  }

  /** One step of the loop: the dictionary after the last outcome is the one before it with that outcome stored. */
  lemma FillTableStep(outcomes: seq<Outcome>)
    requires |outcomes| > 0
    requires FillTable(outcomes).Some?
    ensures FillTable(outcomes[..|outcomes| - 1]).Some?
    ensures var last := outcomes[|outcomes| - 1];
      FillTable(outcomes).value == Put(FillTable(outcomes[..|outcomes| - 1]).value, last.path, last.score.value)
  {
  }

  /** With distinct paths the dictionary holds every outcome once, in batch order. */
  lemma {:induction false} FillTableDistinct(outcomes: seq<Outcome>)
    requires forall i, j :: 0 <= i < j < |outcomes| ==> outcomes[i].path != outcomes[j].path
    requires FillTable(outcomes).Some?
    ensures |FillTable(outcomes).value| == |outcomes|
    ensures forall i :: 0 <= i < |outcomes| ==> FillTable(outcomes).value[i] == Entry(outcomes[i].path, outcomes[i].score.value)
  {
    if |outcomes| > 0 {
      var n := |outcomes| - 1;
      var init := outcomes[..n];
      var last := outcomes[n];
      FillTableStep(outcomes);
      assert forall i :: 0 <= i < n ==> init[i] == outcomes[i];
      FillTableDistinct(init);
      var table := FillTable(init).value;
      var score := last.score.value;
      assert forall k :: 0 <= k < n ==> Keys(table)[k] == outcomes[k].path != last.path;
      PutAbsentKey(table, last.path, score);
      var r := FillTable(outcomes).value;
      assert r == table + [Entry(last.path, score)];
      assert forall i :: 0 <= i < n ==> table[i] == Entry(outcomes[i].path, outcomes[i].score.value);
      EntriesAppend(table, outcomes);
    }
  }

  /** Items matching all but the last outcome, followed by the last outcome's item, match every outcome. */
  lemma EntriesAppend(table: seq<Entry>, outcomes: seq<Outcome>)
    requires |outcomes| == |table| + 1
    requires forall i :: 0 <= i < |outcomes| ==> outcomes[i].score.Some?
    requires forall i :: 0 <= i < |table| ==> table[i] == Entry(outcomes[i].path, outcomes[i].score.value)
    ensures var last := outcomes[|table|];
      forall i :: 0 <= i < |outcomes| ==> (table + [Entry(last.path, last.score.value)])[i] == Entry(outcomes[i].path, outcomes[i].score.value)
  {
  }

  /** Each frame's path with its image score. */
  function Outcomes(frames: seq<Frame>): seq<Outcome> {
    seq(|frames|, i requires 0 <= i < |frames| => Outcome(frames[i].path, ImageScore(frames[i].contours)))
  }

  /**
    The scoring loop of `roundness_check` over the whole batch. Any frame
    without an accepted ellipse raises a division by zero, which ends the
    batch without a dictionary.
   */
  function ScoreBatch(frames: seq<Frame>): (r: Option<seq<Entry>>)
    ensures r.Some? <==> forall i :: 0 <= i < |frames| ==> ImageScore(frames[i].contours).Some?
    ensures r.Some? ==> DistinctPaths(r.value) && |r.value| <= |frames|
  {
    var outcomes := Outcomes(frames);
    assert forall i :: 0 <= i < |frames| ==> outcomes[i].score == ImageScore(frames[i].contours);
    FillTable(outcomes)
  }

  /** The dictionary's keys are exactly the batch's paths. */
  lemma ScoreBatchKeys(frames: seq<Frame>, p: string)
    requires ScoreBatch(frames).Some?
    ensures p in Keys(ScoreBatch(frames).value) <==> p in FramePaths(frames)
  {
    FillTableKeys(Outcomes(frames), p);
    assert OutcomePaths(Outcomes(frames)) == FramePaths(frames);
  }

  /**
    With distinct paths the dictionary lists every frame once, in batch
    order, with that frame's image score.
   */
  lemma ScoreBatchDistinct(frames: seq<Frame>)
    requires forall i, j :: 0 <= i < j < |frames| ==> frames[i].path != frames[j].path
    requires ScoreBatch(frames).Some?
    ensures |ScoreBatch(frames).value| == |frames|
    ensures forall i :: 0 <= i < |frames| ==>
              ScoreBatch(frames).value[i] == Entry(frames[i].path, ImageScore(frames[i].contours).value)
  {
    FillTableDistinct(Outcomes(frames));
  }

  /** The dictionary items whose score is strictly below `threshold`, in dictionary order. */
  function Below(table: seq<Entry>, threshold: Float): (r: seq<Entry>)
    ensures |r| == Threshold.CountBelow(Scores(table), threshold)
  {
    if |table| == 0 then []
    else
      var init := table[..|table| - 1];
      var last := table[|table| - 1];
      assert Scores(table)[..|table| - 1] == Scores(init);
      Below(init, threshold) + (if Less(last.score, threshold) then [last] else [])
  }

  /** An item is selected exactly when it is in the dictionary with a score below the threshold. */
  lemma {:induction false} BelowMembers(table: seq<Entry>, threshold: Float)
    ensures forall e :: e in Below(table, threshold) <==> e in table && Less(e.score, threshold)
  {
    if |table| > 0 {
      var init := table[..|table| - 1];
      BelowMembers(init, threshold);
      assert forall e :: e in table <==> e in init || e == table[|table| - 1];
    }
  }

  /**
    `idx` lists, in increasing order, exactly the positions of `table` whose
    score lies strictly below `threshold`.
   */
  predicate PositionsBelow(table: seq<Entry>, threshold: Float, idx: seq<nat>) {
    && (forall k :: 0 <= k < |idx| ==> idx[k] < |table|)
    && (forall k, l :: 0 <= k < l < |idx| ==> idx[k] < idx[l])
    && (forall i :: 0 <= i < |table| ==> (i in idx <==> Less(table[i].score, threshold)))
  }

  /** The selection is the items at exactly the positions below the threshold, in dictionary order. */
  lemma {:induction false} BelowInOrder(table: seq<Entry>, threshold: Float) returns (idx: seq<nat>)
    ensures PositionsBelow(table, threshold, idx)
    ensures |Below(table, threshold)| == |idx|
    ensures forall k :: 0 <= k < |idx| ==> Below(table, threshold)[k] == table[idx[k]]
  {
    if |table| == 0 {
      return [];
    }
    var n := |table| - 1;
    var idx0 := BelowInOrder(table[..n], threshold);
    idx := idx0 + if Less(table[n].score, threshold) then [n] else [];
    PositionsBelowStep(table, threshold, idx0);
    BelowLast(table, threshold);
    PicksStep(table, Below(table[..n], threshold), idx0, Less(table[n].score, threshold));
  }

  /** Extending the positions below the threshold from all but the last item to the whole dictionary. */
  lemma PositionsBelowStep(table: seq<Entry>, threshold: Float, idx0: seq<nat>)
    requires |table| > 0
    requires PositionsBelow(table[..|table| - 1], threshold, idx0)
    ensures var n := |table| - 1;
      PositionsBelow(table, threshold, idx0 + if Less(table[n].score, threshold) then [n] else [])
  {
    var n := |table| - 1;
    var idx := idx0 + if Less(table[n].score, threshold) then [n] else [];
    forall k, l | 0 <= k < l < |idx|
      ensures idx[k] < idx[l]
    {
      if l < |idx0| {
        assert idx[k] == idx0[k] && idx[l] == idx0[l];
      }
    }
    forall i | 0 <= i < |table|
      ensures i in idx <==> Less(table[i].score, threshold)
    {
      if i < n {
        assert table[..n][i] == table[i];
        assert i in idx <==> i in idx0;
      } else {
        assert n !in idx0;
      }
    }
  }

  /** Items picked at `idx0` from all but the last item, plus possibly the last, are picked at the extended positions. */
  lemma PicksStep(table: seq<Entry>, picked0: seq<Entry>, idx0: seq<nat>, keep: bool)
    requires |table| > 0
    requires |picked0| == |idx0|
    requires forall k :: 0 <= k < |idx0| ==> idx0[k] < |table| - 1 && picked0[k] == table[..|table| - 1][idx0[k]]
    ensures var n := |table| - 1;
      var idx := idx0 + if keep then [n] else [];
      var picked := picked0 + if keep then [table[n]] else [];
      |picked| == |idx| && forall k :: 0 <= k < |idx| ==> picked[k] == table[idx[k]]
  {
    var n := |table| - 1;
    var idx := idx0 + if keep then [n] else [];
    var picked := picked0 + if keep then [table[n]] else [];
    forall k | 0 <= k < |idx|
      ensures picked[k] == table[idx[k]]
    {
      if k < |idx0| {
        assert idx[k] == idx0[k] && picked[k] == picked0[k];
      }
    }
  }

  /** Selecting from a dictionary selects from all but its last item, then considers the last. */
  lemma BelowLast(table: seq<Entry>, threshold: Float)
    requires |table| > 0
    ensures var n := |table| - 1;
      Below(table, threshold) == Below(table[..n], threshold) + if Less(table[n].score, threshold) then [table[n]] else []
  {
  }

  /**
    `paths_to_delete`: the paths whose score is strictly below the threshold.
    There are as many as the rejection count at that threshold.
   */
  function PathsToDelete(table: seq<Entry>, threshold: Float): (r: seq<string>)
    ensures |r| == Threshold.CountBelow(Scores(table), threshold)
    ensures forall p :: p in r <==> exists e :: e in table && e.path == p && Less(e.score, threshold)
  {
    var below := Below(table, threshold);
    BelowMembers(table, threshold);
    assert forall p :: p in Keys(below) <==> exists e :: e in below && e.path == p by {
      forall p {
        InKeysIff(below, p);
      }
    }
    Keys(below)
  }

  /**
    The removal list walks the dictionary in insertion order: its `k`-th path
    is the key at the `k`-th position whose score lies below the threshold.
   */
  lemma PathsToDeleteInOrder(table: seq<Entry>, threshold: Float) returns (idx: seq<nat>)
    ensures PositionsBelow(table, threshold, idx)
    ensures |PathsToDelete(table, threshold)| == |idx|
    ensures forall k :: 0 <= k < |idx| ==> PathsToDelete(table, threshold)[k] == table[idx[k]].path
  {
    idx := BelowInOrder(table, threshold);
  }

  /**
    Raising a finite threshold never drops an item: the items below `t1` are
    exactly what selecting at `t1` keeps of the items below `t2`, in the same order.
   */
  lemma {:induction false} BelowNested(table: seq<Entry>, t1: real, t2: real)
    requires t1 <= t2
    ensures Below(Below(table, Finite(t2)), Finite(t1)) == Below(table, Finite(t1))
  {
    if |table| > 0 {
      var init := table[..|table| - 1];
      var last := table[|table| - 1];
      BelowNested(init, t1, t2);
      var b2 := Below(init, Finite(t2));
      if Less(last.score, Finite(t2)) {
        assert Below(table, Finite(t2)) == b2 + [last];
        assert (b2 + [last])[..|b2|] == b2;
      } else {
        assert Below(table, Finite(t2)) == b2;
      }
    }
  }

  /**
    Raising a finite threshold never drops a path from the removal list, and
    the list at the lower threshold keeps the order of the one at the higher.
   */
  lemma PathsToDeleteMonotone(table: seq<Entry>, t1: real, t2: real)
    requires t1 <= t2
    ensures PathsToDelete(Below(table, Finite(t2)), Finite(t1)) == PathsToDelete(table, Finite(t1))
    ensures forall p :: p in PathsToDelete(table, Finite(t1)) ==> p in PathsToDelete(table, Finite(t2))
  {
    BelowNested(table, t1, t2);
  }

  /** A NaN threshold selects no item and an infinite one selects every item. */
  lemma {:induction false} BelowNonFinite(table: seq<Entry>)
    ensures Below(table, NaN) == []
    ensures Below(table, NegInf) == []
    ensures Below(table, PosInf) == table
  {
    if |table| > 0 {
      var init := table[..|table| - 1];
      BelowNonFinite(init);
      assert init + [table[|table| - 1]] == table;
    }
  }

  /** A NaN threshold removes nothing and an infinite one removes every scored path. */
  lemma NonFiniteThresholds(table: seq<Entry>)
    ensures PathsToDelete(table, NaN) == []
    ensures PathsToDelete(table, NegInf) == []
    ensures PathsToDelete(table, PosInf) == Keys(table)
  {
    BelowNonFinite(table);
  }

  /** In a dictionary, a path is removed exactly when its stored score is below the threshold. */
  lemma RemovedIffScoreBelow(table: seq<Entry>, threshold: Float, p: string)
    requires DistinctPaths(table)
    ensures p in PathsToDelete(table, threshold) <==> Lookup(table, p).Some? && Less(Lookup(table, p).value, threshold)
  {
    LookupFindsEntry(table, p);
    if p in PathsToDelete(table, threshold) {
      var e :| e in table && e.path == p && Less(e.score, threshold);
      var k :| 0 <= k < |table| && table[k] == e;
      LookupAt(table, k);
    }
  }

  /** `Lookup` finds a stored entry exactly when the path is a key. */
  lemma {:induction false} LookupFindsEntry(table: seq<Entry>, p: string)
    ensures Lookup(table, p).Some? ==> Entry(p, Lookup(table, p).value) in table
    ensures Lookup(table, p).None? ==> forall e :: e in table ==> e.path != p
  {
    if |table| > 0 && table[0].path != p {
      LookupFindsEntry(table[1..], p);
      assert forall e :: e in table ==> e == table[0] || e in table[1..];
    }
  }

  /** In a dictionary, looking up the key at position `k` yields the score at `k`. */
  lemma {:induction false} LookupAt(table: seq<Entry>, k: nat)
    requires DistinctPaths(table)
    requires k < |table|
    ensures Lookup(table, table[k].path) == Some(table[k].score)
  {
    if k > 0 {
      assert table[0].path != table[k].path;
      assert forall i, j :: 0 <= i < j < |table[1..]| ==> table[1..][i].path == table[i + 1].path && table[1..][j].path == table[j + 1].path;
      LookupAt(table[1..], k - 1);
    }
  }

  /** The outcome of one run: the score dictionary, the plotted curve and the paths sent to the recycle bin. */
  datatype Report = Report(table: seq<Entry>, curve: seq<nat>, removed: seq<string>)

  /**
    `roundness_check` with the user's threshold supplied as an input: score
    the batch, build the rejection curve and select the paths to delete.
    Nothing is removed when a frame cannot be scored, since the program stops there.
   */
  function RoundnessCheck(frames: seq<Frame>, threshold: Float): (r: Option<Report>)
    ensures r.Some? <==> forall i :: 0 <= i < |frames| ==> ImageScore(frames[i].contours).Some?
    ensures r.Some? ==> |r.value.removed| <= |frames|
    ensures r.Some? ==> forall p :: p in r.value.removed ==> p in FramePaths(frames)
  {
    match ScoreBatch(frames)
    case None => None
    case Some(table) =>
      var removed := PathsToDelete(table, threshold);
      assert forall p :: p in removed ==> p in FramePaths(frames) by {
        forall p | p in removed
          ensures p in FramePaths(frames)
        {
          InKeysIff(table, p);
          ScoreBatchKeys(frames, p);
        }
      }
      Some(Report(table, Threshold.RejectionCurve(Scores(table)), removed))
  }

  /** At a candidate threshold, the plotted count is the number of paths that threshold removes. */
  lemma CurveCountsRemovals(frames: seq<Frame>, k: nat)
    requires k < Threshold.CandidateCount
    requires RoundnessCheck(frames, Finite(Threshold.Candidate(k))).Some?
    ensures RoundnessCheck(frames, Finite(Threshold.Candidate(k))).value.curve[k] ==
              |RoundnessCheck(frames, Finite(Threshold.Candidate(k))).value.removed|
  {
  }

  /**
    End to end, for a batch of distinct paths: a frame's path is removed
    exactly when its mean roundness lies strictly below the threshold.
   */
  lemma RoundnessCheckRemoves(frames: seq<Frame>, threshold: Float, i: nat)
    requires forall i, j :: 0 <= i < j < |frames| ==> frames[i].path != frames[j].path
    requires RoundnessCheck(frames, threshold).Some?
    requires i < |frames|
    ensures frames[i].path in RoundnessCheck(frames, threshold).value.removed <==>
              Less(ImageScore(frames[i].contours).value, threshold)
  {
    var table := ScoreBatch(frames).value;
    ScoreBatchDistinct(frames);
    RemovedIffScoreBelow(table, threshold, frames[i].path);
    LookupAt(table, i);
  }
}

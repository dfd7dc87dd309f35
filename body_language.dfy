/**
 * The posture count of `analyze_body_language`: frames are read one by one
 * until a read fails; every frame in which a pose was detected is counted,
 * and counted as good posture when the two shoulders are level within
 * 0.05 (in normalised image height). The result is the share of good-posture
 * frames as a whole percentage, or 50 when no pose was ever detected. Video
 * decoding and the pose detector are left out: each frame read is an
 * abstract observation carrying the shoulders' heights.
 */
module BodyLanguage {

  const LevelTolerance := 0.05
  const NoPoseScore := 50

  /** What the pose detector reports for one frame. */
  datatype Observation =
    | NoLandmarks
    | Landmarks(leftShoulderY: real, rightShoulderY: real)

  /** One `cap.read()`: a failed read, or a frame and what the detector makes of it. */
  datatype FrameRead = ReadFailed | Frame(obs: Observation)

  function Abs(x: real): real {
    if x < 0.0 then -x else x
  }

  /** `abs(left_shoulder.y - right_shoulder.y) < 0.05`. */
  predicate ShouldersLevel(o: Observation)
    requires o.Landmarks?
  {
    Abs(o.leftShoulderY - o.rightShoulderY) < LevelTolerance
  }

  /** The observations the loop gets to see: those before the first failed read. */
  function Observed(frames: seq<FrameRead>): (obs: seq<Observation>)
    ensures |obs| <= |frames|
    ensures forall i :: 0 <= i < |obs| ==> frames[i] == Frame(obs[i])
    ensures |obs| < |frames| ==> frames[|obs|] == ReadFailed
  {
    if frames == [] || frames[0] == ReadFailed then [] else [frames[0].obs] + Observed(frames[1..])
  }

  /** The frames with a detected pose: the final `total_frames`. */
  function PoseFrames(obs: seq<Observation>): (n: nat)
    ensures n <= |obs|
  {
    if obs == [] then 0 else (if obs[0].Landmarks? then 1 else 0) + PoseFrames(obs[1..])
  }

  /** The frames with a detected pose and level shoulders: the final `posture_score`. */
  function LevelFrames(obs: seq<Observation>): (n: nat)
    ensures n <= PoseFrames(obs)
  {
    if obs == [] then 0
    else (if obs[0].Landmarks? && ShouldersLevel(obs[0]) then 1 else 0) + LevelFrames(obs[1..])
  }

  /**
   * What `analyze_body_language` returns: 50 when the video cannot be opened
   * or no frame shows a pose, otherwise the truncated percentage of frames
   * with a pose whose shoulders are level.
   */
  function BodyLanguageScore(isOpened: bool, frames: seq<FrameRead>): int {
    var obs := if isOpened then Observed(frames) else [];
    var total := PoseFrames(obs);
    if total == 0 then NoPoseScore else (100 * LevelFrames(obs)) / total
  }

  /**
   * `analyze_body_language`: reads frames until a read fails (reading past
   * the last frame fails), counting frames with a pose and, among them,
   * frames with level shoulders.
   */
  method AnalyzeBodyLanguage(isOpened: bool, frames: seq<FrameRead>) returns (score: int)
    ensures score == BodyLanguageScore(isOpened, frames)
  {
    var postureScore, totalFrames := 0, 0;
    var i := 0;
    while isOpened
      invariant 0 <= i <= |frames|
      invariant !isOpened ==> i == 0
      invariant forall k :: 0 <= k < i ==> frames[k].Frame?
      invariant totalFrames == PoseFrames(Observed(frames[..i]))
      invariant postureScore == LevelFrames(Observed(frames[..i]))
      invariant postureScore <= totalFrames
      decreases |frames| - i
    {
      if i == |frames| || frames[i] == ReadFailed {
        break;
      }
      var obs := frames[i].obs;
      ObservedStep(frames, i);
      i := i + 1;
      if obs.Landmarks? {
        totalFrames := totalFrames + 1;
        if Abs(obs.leftShoulderY - obs.rightShoulderY) < LevelTolerance {
          postureScore := postureScore + 1;
        }
      }
    }
    ghost var seen := if isOpened then Observed(frames) else [];
    if isOpened {
      ObservedUpToStop(frames, i);
    } else {
      assert frames[..i] == [];
    }
    assert totalFrames == PoseFrames(seen) && postureScore == LevelFrames(seen);
    if totalFrames == 0 {
      return NoPoseScore;
    }
    score := (100 * postureScore) / totalFrames;
  }

  lemma {:induction false} PoseFramesAppend(a: seq<Observation>, b: seq<Observation>)
    ensures PoseFrames(a + b) == PoseFrames(a) + PoseFrames(b)
    ensures LevelFrames(a + b) == LevelFrames(a) + LevelFrames(b)
  {
    if a == [] {
      assert a + b == b;
    } else {
      assert (a + b)[1..] == a[1..] + b;
      PoseFramesAppend(a[1..], b);
    }
  }

  /** One more successful read extends the observed prefix by its observation. */
  lemma ObservedStep(frames: seq<FrameRead>, i: nat)
    requires i < |frames| && frames[i].Frame?
    requires forall k :: 0 <= k < i ==> frames[k].Frame?
    ensures Observed(frames[..i + 1]) == Observed(frames[..i]) + [frames[i].obs]
    ensures PoseFrames(Observed(frames[..i + 1])) == PoseFrames(Observed(frames[..i])) + (if frames[i].obs.Landmarks? then 1 else 0)
    ensures LevelFrames(Observed(frames[..i + 1])) == LevelFrames(Observed(frames[..i]))
              + (if frames[i].obs.Landmarks? && ShouldersLevel(frames[i].obs) then 1 else 0)
  {
    var before, after := frames[..i], frames[..i + 1];
    AllFramesObserved(after);
    AllFramesObserved(before);
    var a, b := Observed(before), Observed(after);
    assert forall k :: 0 <= k < i ==> after[k] == before[k];
    assert b == a + [frames[i].obs];
    PoseFramesAppend(a, [frames[i].obs]);
  }

  /** The loop stops at i: every read before i succeeded and the read at i fails. */
  lemma {:induction false} ObservedUpToStop(frames: seq<FrameRead>, i: nat)
    requires i <= |frames|
    requires forall k :: 0 <= k < i ==> frames[k].Frame?
    requires i == |frames| || frames[i] == ReadFailed
    ensures Observed(frames) == Observed(frames[..i])
  {
    if i == 0 {
      assert frames[..i] == [];
    } else {
      assert frames[..i][1..] == frames[1..][..i - 1];
      ObservedUpToStop(frames[1..], i - 1);
    }
  }

  /** When no read fails, every frame is observed. */
  lemma {:induction false} AllFramesObserved(frames: seq<FrameRead>)
    requires forall k :: 0 <= k < |frames| ==> frames[k].Frame?
    ensures |Observed(frames)| == |frames|
  {
    if frames != [] {
      AllFramesObserved(frames[1..]);
    }
  }

  /** The result is a percentage: it lies in [0, 100]. */
  lemma ScoreRange(isOpened: bool, frames: seq<FrameRead>)
    ensures 0 <= BodyLanguageScore(isOpened, frames) <= 100
  {
    var obs := if isOpened then Observed(frames) else [];
    var total, level := PoseFrames(obs), LevelFrames(obs);
    if total > 0 {
      assert 100 * level <= 100 * total;
      DivBounded(100 * level, total);
    }
  }

  lemma DivBounded(x: nat, d: nat)
    requires 0 < d && x <= 100 * d
    ensures 0 <= x / d <= 100
  {
    var q := x / d;
    assert d * q <= x;
    if q > 100 {
      MulMonotone(d, q, 101);
      assert false;
    }
  }

  lemma MulMonotone(d: nat, a: int, b: int)
    requires a >= b
    ensures d * a >= d * b
  {
  }

  /**
   * With a pose in some frame, the score is 100 exactly when the shoulders
   * are level in every such frame, and 0 exactly when they are level in
   * fewer than one in a hundred of them (the percentage is truncated).
   */
  lemma ScoreExtremes(isOpened: bool, frames: seq<FrameRead>)
    requires isOpened && PoseFrames(Observed(frames)) > 0
    ensures var obs := Observed(frames);
      && (BodyLanguageScore(isOpened, frames) == 100 <==> LevelFrames(obs) == PoseFrames(obs))
      && (BodyLanguageScore(isOpened, frames) == 0 <==> 100 * LevelFrames(obs) < PoseFrames(obs))
  {
    var obs := Observed(frames);
    PercentExtremes(LevelFrames(obs), PoseFrames(obs));
  }

  lemma PercentExtremes(level: nat, total: nat)
    requires 0 < total && level <= total
    ensures (100 * level) / total == 100 <==> level == total
    ensures (100 * level) / total == 0 <==> 100 * level < total
  {
    var x := 100 * level;
    var q, r := x / total, x % total;
    assert x == total * q + r && 0 <= r < total;
    if level == total {
      DivUnique(x, total, 100);
    } else if q >= 100 {
      MulMonotone(total, q, 100);
      assert false;
    }
    if x < total {
      DivUnique(x, total, 0);
    } else if q == 0 {
      assert false;
    }
  }

  lemma DivUnique(x: int, d: int, a: int)
    requires d > 0 && d * a <= x < d * a + d
    ensures x / d == a
  {
    var q, r := x / d, x % d;
    assert x == d * q + r && 0 <= r < d;
    if q > a {
      MulMonotone(d, q, a + 1);
      assert false;
    } else if q < a {
      MulMonotone(d, a, q + 1);
      assert false;
    }
  }

  /** A video that does not open, or in which no frame shows a pose, scores 50. */
  lemma NoPoseScores50(isOpened: bool, frames: seq<FrameRead>)
    requires !isOpened || forall i :: 0 <= i < |frames| ==> frames[i] == ReadFailed || frames[i] == Frame(NoLandmarks)
    ensures BodyLanguageScore(isOpened, frames) == NoPoseScore
  {
    if isOpened {
      NoPoseFrames(frames);
    }
  }

  lemma {:induction false} NoPoseFrames(frames: seq<FrameRead>)
    requires forall i :: 0 <= i < |frames| ==> frames[i] == ReadFailed || frames[i] == Frame(NoLandmarks)
    ensures PoseFrames(Observed(frames)) == 0
  {
    if frames != [] && frames[0] != ReadFailed {
      NoPoseFrames(frames[1..]);
    }
  }

  /** Nothing after the first failed read matters: the loop has stopped. */
  lemma StopsAtFailedRead(isOpened: bool, before: seq<FrameRead>, after: seq<FrameRead>)
    ensures BodyLanguageScore(isOpened, before + [ReadFailed] + after) == BodyLanguageScore(isOpened, before)
  {
    ObservedUpToFailure(before, after);
  }

  lemma {:induction false} ObservedUpToFailure(before: seq<FrameRead>, after: seq<FrameRead>)
    ensures Observed(before + [ReadFailed] + after) == Observed(before)
  {
    if before != [] {
      assert (before + [ReadFailed] + after)[1..] == before[1..] + [ReadFailed] + after;
      ObservedUpToFailure(before[1..], after);
    }
  }

  /** A frame without a detected pose changes neither count, so it never changes the score. */
  lemma NoLandmarksIgnored(isOpened: bool, before: seq<FrameRead>, after: seq<FrameRead>)
    ensures BodyLanguageScore(isOpened, before + [Frame(NoLandmarks)] + after) == BodyLanguageScore(isOpened, before + after)
  {
    var a, b := Observed(before + [Frame(NoLandmarks)] + after), Observed(before + after);
    CountsIgnoreNoLandmarks(before, after);
  }

  lemma {:induction false} CountsIgnoreNoLandmarks(before: seq<FrameRead>, after: seq<FrameRead>)
    ensures var a, b := Observed(before + [Frame(NoLandmarks)] + after), Observed(before + after);
      PoseFrames(a) == PoseFrames(b) && LevelFrames(a) == LevelFrames(b)
  {
    var with := before + [Frame(NoLandmarks)] + after;
    if before == [] {
      assert with[1..] == after && before + after == after;
      var rest := Observed(after);
      assert Observed(with) == [NoLandmarks] + rest;
      assert ([NoLandmarks] + rest)[1..] == rest;
    } else if before[0] == ReadFailed {
    } else {
      assert with[1..] == before[1..] + [Frame(NoLandmarks)] + after;
      assert (before + after)[1..] == before[1..] + after;
      CountsIgnoreNoLandmarks(before[1..], after);
      var o := before[0].obs;
      var ra, rb := Observed(with[1..]), Observed((before + after)[1..]);
      assert Observed(with) == [o] + ra && ([o] + ra)[1..] == ra;
      assert Observed(before + after) == [o] + rb && ([o] + rb)[1..] == rb;
    }
  }
}

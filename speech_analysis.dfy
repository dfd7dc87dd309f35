/**
 * The duration-to-score rule of `analyze_speech`: the recording's length in
 * seconds (frame count over frame rate of the extracted WAV file) falls into
 * one of four buckets, each with a fixed score. Extracting the audio and
 * reading the WAV header are left out; the two header values are inputs.
 */
module SpeechAnalysis {
  import opened Wrappers

  const TooShortScore := 40
  const IdealScore := 90
  const LongScore := 75
  const TooLongScore := 60

  /** `frames / float(rate)`: no value when the rate is 0, where Python raises ZeroDivisionError. */
  function Duration(frames: nat, rate: nat): (d: Option<real>)
    ensures d.None? <==> rate == 0
    ensures d.Some? ==> d.value >= 0.0 && d.value * rate as real == frames as real
  {
    if rate == 0 then None else Some(frames as real / rate as real)
  }

  /**
   * The if/elif chain on the duration: below 3 seconds 40, from 3 to 15
   * seconds (both ends included) 90, above 15 up to 30 seconds 75, and
   * above 30 seconds 60.
   */
  function DurationScore(duration: real): (score: int)
    ensures score == TooShortScore <==> duration < 3.0
    ensures score == IdealScore <==> 3.0 <= duration <= 15.0
    ensures score == LongScore <==> 15.0 < duration <= 30.0
    ensures score == TooLongScore <==> duration > 30.0
  {
    if duration < 3.0 then TooShortScore
    else if 3.0 <= duration <= 15.0 then IdealScore
    else if 15.0 < duration <= 30.0 then LongScore
    else TooLongScore
  }

  /** The score `analyze_speech` returns for a WAV header with these frame count and rate. */
  function SpeechScore(frames: nat, rate: nat): (score: Option<int>)
    ensures score.None? <==> rate == 0
  {
    match Duration(frames, rate)
    case None => None
    case Some(d) => Some(DurationScore(d))
  }

  /** Every duration gets exactly one of the four scores. */
  lemma ScoreIsOneOfFour(duration: real)
    ensures DurationScore(duration) in {TooShortScore, IdealScore, LongScore, TooLongScore}
  {
  }

  /** The scoring is neither increasing nor decreasing in the duration: 10 seconds score higher than 20, and 1 second lower than 10. */
  lemma ScoreNotMonotone()
    ensures exists d1: real, d2: real :: d1 < d2 && DurationScore(d1) > DurationScore(d2)
    ensures exists d1: real, d2: real :: d1 < d2 && DurationScore(d1) < DurationScore(d2)
  {
    assert DurationScore(10.0) == IdealScore && DurationScore(20.0) == LongScore;
    assert DurationScore(1.0) == TooShortScore;
  }

  lemma {:induction false} DivBelow(x: real, r: real, c: real)
    requires r > 0.0
    ensures x / r < c <==> x < c * r
    ensures x / r <= c <==> x <= c * r
  {
    assert (x / r) * r == x;
  }

  /**
   * The buckets in whole numbers: with a non-zero rate the score is 40 when
   * fewer than 3·rate frames were recorded, 90 from 3·rate to 15·rate
   * frames, 75 above 15·rate up to 30·rate frames and 60 above 30·rate
   * frames; a zero rate gives no score.
   */
  lemma SpeechScoreByFrames(frames: nat, rate: nat)
    ensures SpeechScore(frames, rate).None? <==> rate == 0
    ensures rate > 0 ==> (SpeechScore(frames, rate) == Some(TooShortScore) <==> frames < 3 * rate)
    ensures rate > 0 ==> (SpeechScore(frames, rate) == Some(IdealScore) <==> 3 * rate <= frames <= 15 * rate)
    ensures rate > 0 ==> (SpeechScore(frames, rate) == Some(LongScore) <==> 15 * rate < frames <= 30 * rate)
    ensures rate > 0 ==> (SpeechScore(frames, rate) == Some(TooLongScore) <==> frames > 30 * rate)
  {
    if rate > 0 {
      var x, r := frames as real, rate as real;
      DivBelow(x, r, 3.0);
      DivBelow(x, r, 15.0);
      DivBelow(x, r, 30.0);
      assert (3 * rate) as real == 3.0 * r && (15 * rate) as real == 15.0 * r && (30 * rate) as real == 30.0 * r;
    }
  }
}

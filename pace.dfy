/** Reading pace: the auto-pace ramp from a starting speed to a target
    speed over a number of words, and the timer delay of a pace. Speeds are
    whole words per minute; the ramp is computed exactly, with reals. */
module Pace {

  /** How far the ramp has got: the words read since the anchor over the
      ramp length, capped at 1 but not floored at 0. */
  function Progress(startIdx: int, duration: int, idx: int): (p: real)
    requires duration > 0
    ensures p <= 1.0
    ensures idx >= startIdx + duration <==> p == 1.0
    ensures startIdx <= idx ==> 0.0 <= p
    ensures idx < startIdx ==> p < 0.0
  {
    var p := (idx - startIdx) as real / duration as real;
    if p < 1.0 then p else 1.0
  }

  /** The paced speed `startWpm + (target - startWpm) * progress`. */
  function RampWpm(startWpm: int, target: int, startIdx: int, duration: int, idx: int): real
    requires duration > 0
  {
    startWpm as real + (target - startWpm) as real * Progress(startIdx, duration, idx)
  }

  /** The ramp starts at its starting speed... */
  lemma RampAtStart(startWpm: int, target: int, startIdx: int, duration: int)
    requires duration > 0
    ensures RampWpm(startWpm, target, startIdx, duration, startIdx) == startWpm as real
  {
  }

  /** ...and holds the target from `duration` words after the anchor on. */
  lemma RampHoldsTarget(startWpm: int, target: int, startIdx: int, duration: int, idx: int)
    requires duration > 0 && idx >= startIdx + duration
    ensures RampWpm(startWpm, target, startIdx, duration, idx) == target as real
  {
  }

  /** From the anchor on, the pace lies between the starting speed and the
      target, whichever way the ramp goes. */
  lemma RampBetween(startWpm: int, target: int, startIdx: int, duration: int, idx: int)
    requires duration > 0 && startIdx <= idx
    ensures var w := RampWpm(startWpm, target, startIdx, duration, idx);
      (startWpm <= target ==> startWpm as real <= w <= target as real) &&
      (target <= startWpm ==> target as real <= w <= startWpm as real)
  {
    var p := Progress(startIdx, duration, idx);
    var d := (target - startWpm) as real;
    assert 0.0 <= p <= 1.0;
    if startWpm <= target {
      assert 0.0 <= d * p <= d;
    } else {
      assert d <= d * p <= 0.0;
    }
  }

  /** An upward ramp never slows down as reading advances. */
  lemma RampMonotone(startWpm: int, target: int, startIdx: int, duration: int, i: int, j: int)
    requires duration > 0 && startWpm <= target && i <= j
    ensures RampWpm(startWpm, target, startIdx, duration, i) <= RampWpm(startWpm, target, startIdx, duration, j)
  {
    var pi := Progress(startIdx, duration, i);
    var pj := Progress(startIdx, duration, j);
    DivideMonotone((i - startIdx) as real, (j - startIdx) as real, duration as real);
    assert pi <= pj;
    assert (target - startWpm) as real * pi <= (target - startWpm) as real * pj;
  }

  /** A ramp whose start equals its target is flat at that speed. */
  lemma FlatRamp(wpm: int, startIdx: int, duration: int, idx: int)
    requires duration > 0
    ensures RampWpm(wpm, wpm, startIdx, duration, idx) == wpm as real
  {
  }

  /** Before the anchor an upward ramp goes below its starting speed: the
      progress is not floored at 0. Half a ramp length back, at 120 towards
      300 words per minute, the pace is 30. */
  lemma RampBelowStart(startWpm: int, target: int, startIdx: int, duration: int, idx: int)
    requires duration > 0 && startWpm < target && idx < startIdx
    ensures RampWpm(startWpm, target, startIdx, duration, idx) < startWpm as real
    ensures RampWpm(120, 300, 100, 100, 50) == 30.0
  {
    var p := Progress(startIdx, duration, idx);
    assert (target - startWpm) as real * p < 0.0;
    assert Progress(100, 100, 50) == -0.5;
  }

  /** `60000 / wpm`: milliseconds per word at a positive pace. */
  function DelayMs(wpm: real): (d: real)
    requires wpm > 0.0
    ensures d > 0.0 && d * wpm == 60000.0
  {
    60000.0 / wpm
  }

  /** A faster pace shows each word for a shorter time; at 300 words per
      minute a word stays 200 milliseconds. */
  lemma DelayShrinksWithPace(slow: real, fast: real)
    requires 0.0 < slow <= fast
    ensures DelayMs(fast) <= DelayMs(slow)
    ensures DelayMs(300.0) == 200.0
  {
    var ds, df := DelayMs(slow), DelayMs(fast);
    assert ds * (fast - slow) >= 0.0;
    assert (ds - df) * fast >= 0.0;
    PositiveFactor(ds - df, fast);
  }

  lemma DivideMonotone(a: real, b: real, d: real)
    requires a <= b && d > 0.0
    ensures a / d <= b / d
  {
    assert b / d - a / d == (b - a) / d;
  }

  lemma PositiveFactor(x: real, y: real)
    requires x * y >= 0.0 && y > 0.0
    ensures x >= 0.0
  {
    assert x == (x * y) / y;
  }
}

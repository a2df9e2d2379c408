/** The count-up animation's per-frame arithmetic (`animateCount`): the
    elapsed fraction, the ease-out cubic curve, the rounded value shown, and
    when another frame is requested. Times and values are exact reals here. */
module CountUp {

  /** `durationMs`. */
  const DurationMs: real := 1400.0

  /** `Math.min(1, elapsed / durationMs)`: the elapsed fraction, capped at 1. */
  function Progress(elapsed: real): (t: real)
    ensures t <= 1.0
    ensures elapsed >= 0.0 ==> t >= 0.0
    ensures t == 1.0 <==> elapsed >= DurationMs
  {
    if elapsed / DurationMs < 1.0 then elapsed / DurationMs else 1.0
  }

  /** The ease-out cubic curve `1 - (1 - t)^3`. */
  function Eased(t: real): real {
    1.0 - (1.0 - t) * (1.0 - t) * (1.0 - t)
  }

  /** `Math.round`: the nearest integer, halves rounded up. */
  function Round(x: real): (n: int)
    ensures n as real <= x + 0.5 < n as real + 1.0
  {
    (x + 0.5).Floor
  }

  /** The value a frame shows: `Math.round(startValue + (target - startValue) * eased)`
      with `startValue` 0. */
  function FrameValue(target: nat, elapsed: real): int {
    Round(0.0 + (target as real - 0.0) * Eased(Progress(elapsed)))
  }

  /** The text a frame writes: the formatted value followed by the suffix. */
  function FrameText(target: nat, suffix: string, elapsed: real, format: int -> string): string {
    format(FrameValue(target, elapsed)) + suffix
  }

  /** `t < 1`: the frame asks for another frame. */
  predicate RequestsAnotherFrame(elapsed: real) {
    Progress(elapsed) < 1.0
  }

  /** On the elapsed range the curve runs from 0 to 1 and never leaves [0, 1]. */
  lemma EasedRange(t: real)
    requires 0.0 <= t <= 1.0
    ensures 0.0 <= Eased(t) <= 1.0
    ensures Eased(0.0) == 0.0 && Eased(1.0) == 1.0
  {
    var u := 1.0 - t;
    assert 0.0 <= u <= 1.0;
    var sq := u * u;
    assert 0.0 <= sq <= 1.0 by {
      assert u * u <= u * 1.0;
    }
    assert 0.0 <= sq * u <= 1.0 by {
      assert sq * u <= sq * 1.0;
    }
    assert Eased(t) == 1.0 - sq * u;
  }

  /** The curve never goes back, before time starts included. */
  lemma EasedMonotone(t1: real, t2: real)
    requires t1 <= t2 <= 1.0
    ensures Eased(t1) <= Eased(t2)
  {
    var u1, u2 := 1.0 - t1, 1.0 - t2;
    assert 0.0 <= u2 <= u1;
    var s1, s2 := u1 * u1, u2 * u2;
    MulMonotone(u2, u1, u2);
    MulMonotone(u2, u1, u1);
    assert s2 <= s1;
    MulMonotone(s2, s1, u2);
    MulMonotone(u2, u1, s1);
    assert Eased(t1) == 1.0 - s1 * u1 && Eased(t2) == 1.0 - s2 * u2;
  }

  lemma MulMonotone(x: real, y: real, c: real)
    requires x <= y && 0.0 <= c
    ensures x * c <= y * c && c * x <= c * y
  {
  }

  lemma RoundMonotone(x: real, y: real)
    requires x <= y
    ensures Round(x) <= Round(y)
  {
  }

  lemma RoundOfInteger(n: int)
    ensures Round(n as real) == n
  {
  }

  /** Once time has started, every frame shows a value between 0 and the
      target. */
  lemma FrameValueBounds(target: nat, elapsed: real)
    requires elapsed >= 0.0
    ensures 0 <= FrameValue(target, elapsed) <= target
  {
    var t := Progress(elapsed);
    EasedRange(t);
    var x := target as real * Eased(t);
    assert 0.0 <= x <= target as real by {
      assert target as real * Eased(t) <= target as real * 1.0;
    }
    RoundMonotone(0.0, x);
    RoundMonotone(x, target as real);
    RoundOfInteger(0);
    RoundOfInteger(target);
  }

  /** Later frames never show a smaller value, also for frame timestamps
      that come before the start. */
  lemma FrameValueMonotone(target: nat, e1: real, e2: real)
    requires e1 <= e2
    ensures FrameValue(target, e1) <= FrameValue(target, e2)
  {
    var t1, t2 := Progress(e1), Progress(e2);
    assert t1 <= t2 by {
      MulMonotone(e1, e2, 1.0 / DurationMs);
      assert e1 / DurationMs == e1 * (1.0 / DurationMs);
      assert e2 / DurationMs == e2 * (1.0 / DurationMs);
    }
    EasedMonotone(t1, t2);
    MulMonotone(Eased(t1), Eased(t2), target as real);
    RoundMonotone(target as real * Eased(t1), target as real * Eased(t2));
  }

  /** Frames are requested exactly until the duration has passed, and the
      last frame shows the target itself. */
  lemma FinalFrame(target: nat, elapsed: real)
    ensures RequestsAnotherFrame(elapsed) <==> elapsed < DurationMs
    ensures elapsed >= DurationMs ==> FrameValue(target, elapsed) == target
  {
    if elapsed >= DurationMs {
      assert Eased(1.0) == 1.0;
      RoundOfInteger(target);
    }
  }
}

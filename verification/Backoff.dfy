/** The adaptive delay between blocks (op-monitorism/processor/processor.go, updateBackoff). */
module Backoff {
  import opened Basics

  datatype PaceConfig = PaceConfig(min: int, max: int, step: int, window: int)

  /** The delay in nanoseconds and the number of clean blocks since it last changed. */
  datatype Pace = Pace(delay: int, stable: int)

  /** Durations are 64-bit signed integers; the sum or difference of two of them wraps once at most. */
  function Wrap64(x: int): int {
    if x > MAX_INT64 then x - TWO_64 else if x < -MAX_INT64 - 1 then x + TWO_64 else x
  }

  /** The 64-bit value: in range, and off by a whole number of turns. */
  lemma {:induction false} WrapsOnce(x: int)
    requires -0x1_0000_0000_0000_0000 < x < 0x1_0000_0000_0000_0000
    ensures -0x8000_0000_0000_0000 <= Wrap64(x) < 0x8000_0000_0000_0000
    ensures Wrap64(x) == x || Wrap64(x) == x - 0x1_0000_0000_0000_0000 || Wrap64(x) == x + 0x1_0000_0000_0000_0000
  {
  }

  predicate IsConfig(c: PaceConfig) {
    0 <= c.min <= c.max <= MAX_INT64 / 2 && 0 < c.step <= MAX_INT64 && c.window >= 1
  }

  function NextPace(c: PaceConfig, p: Pace, hadErrors: bool): Pace {
    if hadErrors then
      var raised := if p.delay == 0 then c.step else Wrap64(p.delay * 2);
      Pace(if raised > c.max then c.max else raised, 0)
    else
      var stable := p.stable + 1;
      if stable >= c.window && p.delay > c.min then
        Pace(if p.delay > Wrap64(c.step + c.min) then Wrap64(p.delay - c.step) else c.min, 0)
      else Pace(p.delay, stable)
  }

  /** The pace after a sequence of updates, each with or without errors. */
  function PaceAfter(c: PaceConfig, p: Pace, updates: seq<bool>): Pace {
    if updates == [] then p
    else NextPace(c, PaceAfter(c, p, updates[..|updates| - 1]), updates[|updates| - 1])
  }

  lemma {:induction false} PaceAfterAppend(c: PaceConfig, p: Pace, a: seq<bool>, b: seq<bool>)
    ensures PaceAfter(c, p, a + b) == PaceAfter(c, PaceAfter(c, p, a), b)
  {
    if b == [] {
      assert a + b == a;
    } else {
      assert (a + b)[..|a + b| - 1] == a + b[..|b| - 1];
      PaceAfterAppend(c, p, a, b[..|b| - 1]);
    }
  }

  function Repeat(flag: bool, n: nat): (r: seq<bool>)
    ensures |r| == n
  {
    seq(n, _ => flag)
  }

  lemma {:induction false} RepeatLast(flag: bool, n: nat)
    requires n > 0
    ensures Repeat(flag, n)[..n - 1] == Repeat(flag, n - 1) && Repeat(flag, n)[n - 1] == flag
  {
  }

  // ---- Bounds --------------------------------------------------------------------------------

  /** The step fits: lowering the delay cannot wrap around. */
  predicate StepFits(c: PaceConfig) { c.min == c.max || c.step + c.min <= MAX_INT64 }

  lemma {:induction false} DelayStaysBounded(c: PaceConfig, updates: seq<bool>)
    requires IsConfig(c) && StepFits(c)
    ensures c.min <= PaceAfter(c, Pace(c.min, 0), updates).delay <= c.max
  {
    if updates != [] {
      DelayStaysBounded(c, updates[..|updates| - 1]);
    }
  }

  ghost predicate AlwaysBounded(c: PaceConfig) {
    forall updates :: c.min <= PaceAfter(c, Pace(c.min, 0), updates).delay <= c.max
  }

  /** One error and one stable window: the shortest way to a step that wraps. */
  lemma {:induction false} CleanRunKeepsDelay(c: PaceConfig, p: Pace, n: nat)
    requires p.stable == 0 && n < c.window
    ensures PaceAfter(c, p, Repeat(false, n)) == Pace(p.delay, n)
  {
    if n > 0 {
      RepeatLast(false, n);
      CleanRunKeepsDelay(c, p, n - 1);
    }
  }

  lemma {:induction false} OversizedStepUnderflows(c: PaceConfig)
    requires IsConfig(c) && !StepFits(c)
    ensures PaceAfter(c, Pace(c.min, 0), [true] + Repeat(false, c.window)).delay < c.min
  {
    var raised := NextPace(c, Pace(c.min, 0), true);
    assert [true][..0] == [] && PaceAfter(c, Pace(c.min, 0), []) == Pace(c.min, 0);
    assert PaceAfter(c, Pace(c.min, 0), [true]) == raised;
    PaceAfterAppend(c, Pace(c.min, 0), [true], Repeat(false, c.window));
    CleanRunKeepsDelay(c, raised, c.window - 1);
    RepeatLast(false, c.window);
  }

  /** The delay stays within its bounds on every run exactly when the step fits. */
  lemma {:induction false} BoundedExactly(c: PaceConfig)
    requires IsConfig(c)
    ensures AlwaysBounded(c) <==> StepFits(c)
  {
    if StepFits(c) {
      forall updates ensures c.min <= PaceAfter(c, Pace(c.min, 0), updates).delay <= c.max {
        DelayStaysBounded(c, updates);
      }
    } else {
      OversizedStepUnderflows(c);
    }
  }

  // ---- Exponential rise, linear recovery -------------------------------------------------------

  function Pow2(k: nat): (r: nat)
    ensures r > 0
  {
    if k == 0 then 1 else 2 * Pow2(k - 1)
  }

  /** k erroring updates in a row double the delay k times, up to the maximum. */
  lemma {:induction false} ErrorsDouble(c: PaceConfig, p: Pace, k: nat)
    requires IsConfig(c) && 0 < p.delay <= c.max
    ensures PaceAfter(c, p, Repeat(true, k)).delay == Min(c.max, p.delay * Pow2(k))
  {
    if k > 0 {
      RepeatLast(true, k);
      ErrorsDouble(c, p, k - 1);
      DoubledProduct(p.delay, Pow2(k - 1));
      ErrorDoublesOnce(c, PaceAfter(c, p, Repeat(true, k - 1)), p.delay * Pow2(k - 1));
    }
  }

  /** From no delay at all the first error gives one step, and each further one doubles it. */
  lemma {:induction false} ErrorsFromZero(c: PaceConfig, stable: int, k: nat)
    requires IsConfig(c) && 0 < c.max
    ensures PaceAfter(c, Pace(0, stable), Repeat(true, k + 1)).delay == Min(c.max, c.step * Pow2(k))
  {
    var first := NextPace(c, Pace(0, stable), true);
    assert Repeat(true, k + 1) == [true] + Repeat(true, k);
    assert [true][..0] == [] && PaceAfter(c, Pace(0, stable), [true]) == first;
    PaceAfterAppend(c, Pace(0, stable), [true], Repeat(true, k));
    ErrorsDouble(c, first, k);
    if c.step > c.max {
      AtLeast(c.step, Pow2(k));
      AtLeast(c.max, Pow2(k));
    }
  }

  lemma {:induction false} AtLeast(d: int, n: nat)
    requires d > 0 && n > 0
    ensures d * n >= d
  {
  }

  /** An error starts the window afresh: however clean the blocks before it, the delay then stays for a whole window. */
  lemma {:induction false} ErrorRestartsWindow(c: PaceConfig, p: Pace, n: nat)
    requires n < c.window
    ensures PaceAfter(c, p, [true] + Repeat(false, n)) == Pace(PaceAfter(c, p, [true]).delay, n)
  {
    assert [true][..0] == [] && PaceAfter(c, p, [true]) == NextPace(c, p, true);
    PaceAfterAppend(c, p, [true], Repeat(false, n));
    CleanRunKeepsDelay(c, NextPace(c, p, true), n);
  }

  lemma {:induction false} DoubledProduct(d: int, n: nat)
    requires d > 0 && n > 0
    ensures d * (2 * n) == 2 * (d * n) && d * n > 0
  {
  }

  lemma {:induction false} ErrorDoublesOnce(c: PaceConfig, p: Pace, unclamped: int)
    requires IsConfig(c) && c.max > 0 && unclamped > 0 && p.delay == Min(c.max, unclamped)
    ensures NextPace(c, p, true).delay == Min(c.max, 2 * unclamped)
  {
  }

  /** Steps down from a delay to the minimum. */
  function StepsDown(c: PaceConfig, delay: int): nat
    requires c.step > 0
  {
    if delay <= c.min then 0 else (delay - c.min + c.step - 1) / c.step
  }

  lemma {:induction false} OneWindowOneStep(c: PaceConfig, delay: int)
    requires IsConfig(c) && StepFits(c) && c.min < delay <= c.max
    ensures PaceAfter(c, Pace(delay, 0), Repeat(false, c.window)) == Pace(Max(c.min, delay - c.step), 0)
  {
    CleanRunKeepsDelay(c, Pace(delay, 0), c.window - 1);
    RepeatLast(false, c.window);
  }

  lemma {:induction false} StepsDownStep(c: PaceConfig, delay: int)
    requires c.step > 0 && c.min < delay
    ensures StepsDown(c, delay) == 1 + StepsDown(c, Max(c.min, delay - c.step))
  {
    if delay - c.step <= c.min {
      DivExact(delay - c.min + c.step - 1, c.step, 1);
    } else {
      var n := delay - c.step - c.min + c.step - 1;
      DivExact(n + c.step, c.step, n / c.step + 1);
    }
  }

  lemma {:induction false} DivExact(a: int, b: int, q: int)
    requires b > 0 && q * b <= a < (q + 1) * b
    ensures a / b == q
  {
    LessByFactor(q, a / b + 1, b);
    LessByFactor(a / b, q + 1, b);
  }

  lemma {:induction false} LessByFactor(x: int, y: int, b: int)
    requires b > 0 && x * b < y * b
    ensures x < y
  {
  }

  lemma {:induction false} OneMoreWindow(window: int, n: nat)
    requires window >= 1
    ensures window * (1 + n) == window + window * n && window * n >= 0
  {
  }

  /**
   Recovery takes exactly window * ceil((delay - min) / step) clean updates: after that many the
   delay is back at the minimum, and after fewer it is still above it.
  */
  lemma {:induction false} RecoveryIsExact(c: PaceConfig, delay: int, n: nat)
    requires IsConfig(c) && StepFits(c) && c.min < delay <= c.max
    ensures PaceAfter(c, Pace(delay, 0), Repeat(false, n)).delay == c.min <==> n >= c.window * StepsDown(c, delay)
    decreases StepsDown(c, delay)
  {
    var lower := Max(c.min, delay - c.step);
    StepsDownStep(c, delay);
    OneMoreWindow(c.window, StepsDown(c, lower));
    if n < c.window {
      CleanRunKeepsDelay(c, Pace(delay, 0), n);
    } else {
      OneWindowOneStep(c, delay);
      assert Repeat(false, n) == Repeat(false, c.window) + Repeat(false, n - c.window);
      PaceAfterAppend(c, Pace(delay, 0), Repeat(false, c.window), Repeat(false, n - c.window));
      if lower == c.min {
        MinimumIsKept(c, n - c.window, 0);
        assert StepsDown(c, lower) == 0;
      } else {
        RecoveryIsExact(c, lower, n - c.window);
      }
    }
  }

  lemma {:induction false} MinimumIsKept(c: PaceConfig, n: nat, stable: int)
    ensures PaceAfter(c, Pace(c.min, stable), Repeat(false, n)).delay == c.min
  {
    if n > 0 {
      RepeatLast(false, n);
      MinimumIsKept(c, n - 1, stable);
    }
  }
}

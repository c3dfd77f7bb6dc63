/** The linear counter most pages share: `current` starts at 0 and each tick
    adds `target / steps` (`steps` is `duration / 16` for a 16 ms cadence, or
    a fixed count). Some pages clamp `current` to the target and stop once it
    is reached, others check `current < target` before writing; both show
    the value below after `k` ticks. Arithmetic is exact. */
module Counting {
  import RealMath

  function Increment(target: real, steps: real): real
    requires steps > 0.0
  {
    target / steps
  }

  /** `current` after `k` unclamped additions. */
  function SumAfter(target: real, steps: real, k: nat): real
    requires steps > 0.0
  {
    (k as real) * Increment(target, steps)
  }

  /** The `k`-th tick finds the target reached: `current >= target`, which is
      also the negation of a `current < target` check. */
  predicate Reached(target: real, steps: real, k: nat)
    requires steps > 0.0
  {
    SumAfter(target, steps, k) >= target
  }

  /** `current` after `k` ticks, clamped to the target once reached. */
  function Clamped(target: real, steps: real, k: nat): real
    requires steps > 0.0
  {
    if Reached(target, steps, k) then target else SumAfter(target, steps, k)
  }

  /** `Math.floor(current)` after `k` ticks. */
  function Shown(target: real, steps: real, k: nat): nat
    requires target >= 0.0 && steps > 0.0
  {
    ClampedBounds(target, steps, k, k);
    RealMath.FloorAtLeast(Clamped(target, steps, k), 0);
    Clamped(target, steps, k).Floor
  }

  /** A positive target is reached on tick `ceil(steps)` and not before; a
      zero target is reached at once. */
  lemma ReachedExactly(target: real, steps: real, k: nat)
    requires target >= 0.0 && steps > 0.0
    ensures Reached(target, steps, k) <==> target == 0.0 || k as real >= steps
  {
    if target > 0.0 {
      RealMath.ReachedWhen(k, target, steps);
    }
  }

  /** `current` stays in [0, target], grows with every tick and equals the
      target exactly from the tick that reaches it on. */
  lemma {:induction false} ClampedBounds(target: real, steps: real, j: nat, k: nat)
    requires target >= 0.0 && steps > 0.0 && j <= k
    ensures 0.0 <= Clamped(target, steps, j) <= Clamped(target, steps, k) <= target
    ensures Reached(target, steps, k) <==> Clamped(target, steps, k) == target
  {
    RealMath.DivMonotone(0.0, target, steps);
    RealMath.SumMonotone(j, k, Increment(target, steps));
  }

  /** One tick from `current == SumAfter(k)`: the addition gives
      `SumAfter(k + 1)`, it reaches the target exactly when tick `k + 1` is
      `Reached`, and clamping it gives `Clamped(k + 1)`. */
  lemma ClampedStep(target: real, steps: real, k: nat, current: real)
    requires target >= 0.0 && steps > 0.0 && current == SumAfter(target, steps, k)
    ensures current + Increment(target, steps) == SumAfter(target, steps, k + 1)
    ensures current + Increment(target, steps) >= target <==> Reached(target, steps, k + 1)
    ensures Clamped(target, steps, k + 1)
      == if current + Increment(target, steps) >= target then target else current + Increment(target, steps)
    ensures 0.0 <= Clamped(target, steps, k + 1) <= target
  {
    RealMath.SumStep(k, Increment(target, steps));
    ClampedBounds(target, steps, k + 1, k + 1);
  }

  /** The shown number never goes below 0, never decreases and never passes
      the target; while the target is not reached it is strictly below it. */
  lemma ShownBounds(target: real, steps: real, j: nat, k: nat)
    requires target >= 0.0 && steps > 0.0 && j <= k
    ensures Shown(target, steps, j) <= Shown(target, steps, k) <= target.Floor
    ensures Reached(target, steps, k) ==> Shown(target, steps, k) == target.Floor
    ensures !Reached(target, steps, k) ==> (Shown(target, steps, k) as real) < target
  {
    ClampedBounds(target, steps, j, k);
    RealMath.FloorMonotone(Clamped(target, steps, j), Clamped(target, steps, k));
    RealMath.FloorMonotone(Clamped(target, steps, k), target);
  }

  /** For a whole-number target the last write shows the target itself, and
      every earlier one a number strictly below it. */
  lemma ShownWhole(target: nat, steps: real, k: nat)
    requires steps > 0.0
    ensures Reached(target as real, steps, k) ==> Shown(target as real, steps, k) == target
    ensures !Reached(target as real, steps, k) ==> Shown(target as real, steps, k) < target
  {
    ShownBounds(target as real, steps, k, k);
    if !Reached(target as real, steps, k) {
      RealMath.FloorBelow(Clamped(target as real, steps, k), target);
    }
  }

  /** The counters that run from `start` to `end` over `duration` ms add
      `(end - start) / (duration / 16)` per 16 ms tick. */
  function RangeStep(start: int, end: int, duration: real): real
    requires duration > 0.0
  {
    (end - start) as real / (duration / 16.0)
  }

  /** `current` after `k` such additions. */
  function RangeSumAt(start: int, end: int, duration: real, k: nat): real
    requires duration > 0.0
  {
    start as real + (k as real) * RangeStep(start, end, duration)
  }

  /** A tick count with `16 k < duration` is at most `floor(duration / 16)`. */
  lemma TicksBelowDuration(k: nat, duration: real)
    requires (k as real) * 16.0 < duration
    ensures k <= (duration / 16.0).Floor
  {
  }

  /** The tick of a 16 ms cadence that first reaches a positive target is
      the first one at or past `duration` ms. */
  lemma FirstReachingTick(target: real, duration: real, k: nat)
    requires target > 0.0 && duration > 0.0 && k >= 1
    requires Reached(target, duration / 16.0, k)
    requires k == 1 || !Reached(target, duration / 16.0, k - 1)
    ensures (k as real) * 16.0 >= duration && ((k - 1) as real) * 16.0 < duration
  {
    ReachedExactly(target, duration / 16.0, k);
    ReachedExactly(target, duration / 16.0, k - 1);
    assert k as real >= duration / 16.0;
    assert k == 1 || ((k - 1) as real) < duration / 16.0;
  }
}

/** The $100-a-day page: `animateValue`, an interval counter that may count
    up or down and stops by direction; the 0.001-step rate counter; and the
    math-section observer that schedules all six counters once. */
module Make100 {
  import opened Text
  import opened Options
  import RealMath
  import Counting

  /** The stop rule of the `k`-th callback:
      `(increment > 0 && current >= end) || (increment < 0 && current <= end)`. */
  predicate StopsAt(start: int, end: int, duration: real, k: nat)
    requires duration > 0.0
  {
    var inc := Counting.RangeStep(start, end, duration);
    var cur := Counting.RangeSumAt(start, end, duration, k);
    (inc > 0.0 && cur >= end as real) || (inc < 0.0 && cur <= end as real)
  }

  /** The increment has the sign of `end - start`. */
  lemma StepSign(start: int, end: int, duration: real)
    requires duration > 0.0
    ensures start < end ==> Counting.RangeStep(start, end, duration) > 0.0
    ensures start > end ==> Counting.RangeStep(start, end, duration) < 0.0
    ensures start == end ==> Counting.RangeStep(start, end, duration) == 0.0
  {
    var d := duration / 16.0;
    if start < end {
      RealMath.DivMonotone(0.0, (end - start) as real, d);
      assert Counting.RangeStep(start, end, duration) != 0.0 by {
        assert Counting.RangeStep(start, end, duration) * d == (end - start) as real;
      }
    } else if start > end {
      RealMath.DivMonotone((end - start) as real, 0.0, d);
      assert Counting.RangeStep(start, end, duration) != 0.0 by {
        assert Counting.RangeStep(start, end, duration) * d == (end - start) as real;
      }
    }
  }

  /** In either direction the interval stops on tick ceil(duration / 16);
      with `start == end` the increment is 0 and it never stops. */
  lemma StopsExactly(start: int, end: int, duration: real, k: nat)
    requires duration > 0.0
    ensures start != end ==> (StopsAt(start, end, duration, k) <==> (k as real) * 16.0 >= duration)
    ensures start == end ==> !StopsAt(start, end, duration, k)
  {
    StepSign(start, end, duration);
    var d := duration / 16.0;
    if start < end {
      RealMath.ReachedWhen(k, (end - start) as real, d);
    } else if start > end {
      RealMath.ReachedWhen(k, (start - end) as real, d);
      assert (k as real) * Counting.RangeStep(start, end, duration) == -((k as real) * ((start - end) as real / d));
    }
  }

  /** A plain number with its suffix after it, except the suffix '$', which
      goes before it. */
  function Display(value: int, suffix: string): (t: string)
    ensures suffix == "$" ==> |t| >= 2 && t[0] == '$'
    ensures suffix != "$" ==> |t| > |suffix| && t[|t| - |suffix|..] == suffix
  {
    if suffix == "$" then suffix + IntToString(value) else IntToString(value) + suffix
  }

  /** Reading a shown value back with the digit filter gives the value again,
      whichever side its digit-free suffix is written on. */
  lemma DisplayReadsBack(value: nat, suffix: string)
    requires !HasDigit(suffix)
    ensures ParseIntOfDigits(Display(value, suffix)) == Some(value)
  {
    var shown := NatToString(value);
    if suffix == "$" {
      FilterAppend(suffix, shown, IsDigit);
      FilterDropsAll(suffix, IsDigit);
      FilterKeepsAll(shown, IsDigit);
      assert DigitsOnly(Display(value, suffix)) == shown;
    } else {
      ShownNumberParsesBack(value, suffix);
    }
  }

  /** One `animateValue(element, start, end, duration, suffix)`. */
  class ValueAnimation {
    const start: int
    const end: int
    const duration: real
    const suffix: string
    var current: real
    var text: string
    var running: bool
    ghost var ticks: nat

    ghost predicate Valid()
      reads this
    {
      duration > 0.0
      && (running ==> current == Counting.RangeSumAt(start, end, duration, ticks)
                      && (ticks == 0 || !StopsAt(start, end, duration, ticks)))
      && (!running ==> current == end as real && ticks >= 1 && StopsAt(start, end, duration, ticks)
                       && (ticks == 1 || !StopsAt(start, end, duration, ticks - 1)))
    }

    constructor (start0: int, end0: int, duration0: real, suffix0: string, text0: string)
      requires duration0 > 0.0
      ensures Valid() && running && ticks == 0 && text == text0 && current == start0 as real
      ensures start == start0 && end == end0 && duration == duration0 && suffix == suffix0
    {
      start, end, duration, suffix := start0, end0, duration0, suffix0;
      current := start0 as real;
      text := text0;
      running := true;
      ticks := 0;
    }

    /** One interval callback. Counting up, `current` never passes `end`;
        counting down, it never goes below it; with `start == end` the
        interval is never cleared. */
    method Tick()
      requires Valid() && running
      modifies this
      ensures Valid() && ticks == old(ticks) + 1
      ensures running <==> !StopsAt(start, end, duration, ticks)
      ensures !running ==> text == Display(end, suffix)
      ensures running ==> text == Display(Counting.RangeSumAt(start, end, duration, ticks).Floor, suffix)
      ensures start <= end ==> current <= end as real
      ensures start >= end ==> current >= end as real
      ensures start == end ==> running
    {
      var before := current;
      assert before == Counting.RangeSumAt(start, end, duration, ticks);
      RealMath.SumStep(ticks, Counting.RangeStep(start, end, duration));
      var increment := (end - start) as real / (duration / 16.0);
      current := current + increment;
      ticks := ticks + 1;
      assert current == Counting.RangeSumAt(start, end, duration, ticks);
      StopsExactly(start, end, duration, ticks);
      StepSign(start, end, duration);
      if (increment > 0.0 && current >= end as real) || (increment < 0.0 && current <= end as real) {
        current := end as real;
        running := false;
      }
      text := Display(current.Floor, suffix);
    }

    /** For `start != end` the callbacks until the interval is cleared: it
        stops after ceil(duration / 16) ticks showing `end`. */
    method Run()
      requires Valid() && running && start != end
      modifies this
      ensures Valid() && !running && current == end as real
      ensures text == Display(end, suffix)
      ensures (ticks as real) * 16.0 >= duration && ((ticks - 1) as real) * 16.0 < duration
    {
      if ticks > 0 {
        StopsExactly(start, end, duration, ticks);
        Counting.TicksBelowDuration(ticks, duration);
      }
      while running
        invariant Valid()
        invariant running ==> ticks <= (duration / 16.0).Floor
        invariant !running ==> text == Display(end, suffix)
        decreases if running then (duration / 16.0).Floor + 1 - ticks else 0
      {
        Tick();
        if running {
          StopsExactly(start, end, duration, ticks);
          Counting.TicksBelowDuration(ticks, duration);
        }
      }
      StopsExactly(start, end, duration, ticks);
      StopsExactly(start, end, duration, ticks - 1);
    }
  }

  /** Every intermediate value lies between start and end, strictly below
      the end when counting up. */
  lemma ValuesBetween(start: int, end: int, duration: real, k: nat)
    requires duration > 0.0 && !StopsAt(start, end, duration, k)
    ensures start < end ==> start <= Counting.RangeSumAt(start, end, duration, k).Floor < end
    ensures start >= end ==> end <= Counting.RangeSumAt(start, end, duration, k).Floor <= start
  {
    StepSign(start, end, duration);
    var step := Counting.RangeStep(start, end, duration);
    var sum := Counting.RangeSumAt(start, end, duration, k);
    if start < end {
      RealMath.SumMonotone(0, k, step);
      RealMath.FloorAtLeast(sum, start);
      RealMath.FloorBelow(sum, end);
    } else if start > end {
      RealMath.SumAntitone(0, k, step);
      RealMath.FloorAtLeast(sum, end);
      RealMath.FloorMonotone(sum, start as real);
    }
  }

  /** The rate counter: `current += 0.001` until it reaches 0.04, written
      with `toFixed(2)`, here the parameter `fixed2`. */
  class RateCounter {
    var current: real
    var text: string
    var running: bool
    ghost var ticks: nat

    ghost predicate Valid()
      reads this
    {
      ticks <= 40
      && (running ==> ticks < 40 && current == (ticks as real) * 0.001)
      && (!running ==> ticks == 40 && current == 0.04)
    }

    constructor (text0: string)
      ensures Valid() && running && ticks == 0 && current == 0.0 && text == text0
    {
      current := 0.0;
      text := text0;
      running := true;
      ticks := 0;
    }

    method Tick(fixed2: real -> string)
      requires Valid() && running
      modifies this
      ensures Valid() && ticks == old(ticks) + 1
      ensures text == fixed2(current)
      ensures current == (ticks as real) * 0.001 && current <= 0.04
      ensures running <==> ticks < 40
    {
      current := current + 0.001;
      ticks := ticks + 1;
      if current >= 0.04 {
        current := 0.04;
        running := false;
      }
      text := fixed2(current);
    }

    /** The interval clears itself after exactly 40 callbacks, at 0.04. */
    method Run(fixed2: real -> string)
      requires Valid() && running
      modifies this
      ensures Valid() && !running && ticks == 40 && current == 0.04
      ensures text == fixed2(0.04)
    {
      while running
        invariant Valid()
        invariant !running ==> text == fixed2(0.04)
        decreases 40 - ticks
      {
        Tick(fixed2);
      }
    }
  }

  /** One call the math-section observer schedules: a counter
      `animateValue(mathValues[index].childNodes[0], 0, end, duration,
      suffix)` after `delay` ms, or the rate counter. */
  datatype Launch =
    | Value(index: nat, delay: nat, end: int, duration: real, suffix: string)
    | Rate(index: nat, delay: nat)
  {
    function Delay(): nat {
      match this
      case Value(_, d, _, _, _) => d
      case Rate(_, d) => d
    }
  }

  /** The six calls in the order the handler sets them up. */
  const MathPlan: seq<Launch> := [
    Value(0, 200, 25, 1000.0, ""),
    Value(1, 400, 4, 1000.0, ""),
    Value(2, 600, 3, 1000.0, ""),
    Value(3, 800, 10000, 1500.0, ""),
    Rate(4, 1000),
    Value(5, 1200, 100, 1500.0, "$")
  ]

  /** Call i drives `.math-value` i and starts (i + 1) * 200 ms after the
      intersection; only the last one puts '$' (before its number). */
  lemma MathPlanShape()
    ensures |MathPlan| == 6
    ensures forall i :: 0 <= i < 6 ==> MathPlan[i].index == i && MathPlan[i].Delay() == (i + 1) * 200
    ensures forall i :: 0 <= i < 6 && MathPlan[i].Value? ==> MathPlan[i].duration > 0.0
    ensures forall i :: 0 <= i < 6 && MathPlan[i].Value? ==> (MathPlan[i].suffix == "$" <==> i == 5)
    ensures MathPlan[4].Rate?
  {
  }

  /** The `.math-section` element and its observer. */
  class MathSection {
    var observing: bool
    ghost var triggered: nat

    ghost predicate Valid()
      reads this
    {
      triggered + (if observing then 1 else 0) == 1
    }

    constructor ()
      ensures Valid() && observing && triggered == 0
    {
      observing := true;
      triggered := 0;
    }

    /** An intersecting entry, with `count` `.math-value` elements on the
        page: the section is unobserved first, and the six counters are
        scheduled only if at least six values exist. */
    method OnIntersect(count: nat) returns (scheduled: seq<Launch>)
      requires Valid()
      modifies this
      ensures Valid() && !observing && triggered == 1
      ensures scheduled == (if old(observing) && count >= 6 then MathPlan else [])
    {
      if !observing {
        return [];
      }
      observing := false;
      triggered := triggered + 1;
      if count >= 6 {
        scheduled := MathPlan;
      } else {
        scheduled := [];
      }
    }
  }
}

/** The gold-reserves page: the timeline's tooltip and highlight, the
    counter of `Utils.animateCounter`, the metric values animated once each
    and then restored to their written form, and the HQLA bars that drop to
    0% and grow back on every intersection. */
module GoldPlay {
  import opened Options
  import opened Text
  import RealMath
  import Counting

  /** The 'highlighted' classes of the `.timeline-item` elements. */
  class TimelineHighlight {
    var highlighted: seq<bool>

    constructor (n: nat)
      ensures |highlighted| == n && forall i :: 0 <= i < n ==> !highlighted[i]
    {
      highlighted := seq(n, _ => false);
    }

    /** `highlightTimelineItem(item)`: every item loses the class, then the
        clicked one gets it. */
    method HighlightItem(item: nat)
      requires item < |highlighted|
      modifies this
      ensures |highlighted| == |old(highlighted)|
      ensures forall i :: 0 <= i < |highlighted| ==> (highlighted[i] <==> i == item)
    {
      var i := 0;
      while i < |highlighted|
        invariant 0 <= i <= |highlighted| == |old(highlighted)|
        invariant forall j :: 0 <= j < i ==> !highlighted[j]
      {
        highlighted := highlighted[i := false];
        i := i + 1;
      }
      highlighted := highlighted[item := true];
    }
  }

  /** The data attributes a tooltip shows. */
  datatype Tooltip = Tooltip(item: nat, month: string, tonnes: string, value: string, add: string)

  /** The `.timeline-tooltip` elements in document order. */
  class Tooltips {
    var shown: seq<Tooltip>

    ghost predicate Valid()
      reads this
    {
      |shown| <= 1
    }

    constructor ()
      ensures Valid() && shown == []
    {
      shown := [];
    }

    /** `hideTimelineTooltip()`: the first tooltip in the document, if any,
        is removed. With at most one present, none is left. */
    method Hide()
      requires Valid()
      modifies this
      ensures Valid() && shown == []
    {
      if |shown| > 0 {
        shown := shown[1..];
      }
    }

    /** `showTimelineTooltip(item)` on mouseenter: the existing tooltip is
        removed before the new one is appended, so exactly one exists. */
    method Show(t: Tooltip)
      requires Valid()
      modifies this
      ensures Valid() && shown == [t]
    {
      Hide();
      shown := shown + [t];
    }
  }

  /** `Utils.animateCounter(element, target, duration)`: `target /
      (duration / 16)` per 16 ms callback, clamped at the target; every
      write is `formatNumber(current)`, here the parameter `format`. */
  class Counter {
    const target: real
    const duration: real
    var current: real
    var text: string
    var running: bool
    ghost var ticks: nat

    ghost predicate Valid()
      reads this
    {
      target >= 0.0 && duration > 0.0
      && (running ==> current == Counting.SumAfter(target, duration / 16.0, ticks)
                      && (ticks == 0 || !Counting.Reached(target, duration / 16.0, ticks)))
      && (!running ==> current == target && ticks > 0 && Counting.Reached(target, duration / 16.0, ticks))
    }

    constructor (target0: real, duration0: real, text0: string)
      requires target0 >= 0.0 && duration0 > 0.0
      ensures Valid() && running && ticks == 0 && text == text0
      ensures target == target0 && duration == duration0
    {
      target := target0;
      duration := duration0;
      current := 0.0;
      text := text0;
      running := true;
      ticks := 0;
    }

    method Tick(format: real -> string)
      requires Valid() && running
      modifies this
      ensures Valid() && ticks == old(ticks) + 1
      ensures current == Counting.Clamped(target, duration / 16.0, ticks)
      ensures 0.0 <= current <= target
      ensures running <==> !Counting.Reached(target, duration / 16.0, ticks)
      ensures text == format(current)
    {
      var steps := duration / 16.0;
      var before := current;
      assert before == Counting.SumAfter(target, steps, ticks);
      RealMath.SumStep(ticks, Counting.Increment(target, steps));
      current := current + target / steps;
      ticks := ticks + 1;
      assert current == Counting.SumAfter(target, steps, ticks);
      if current >= target {
        current := target;
        running := false;
      }
      Counting.ClampedBounds(target, steps, ticks, ticks);
      text := format(current);
    }

    /** The interval is cleared on the first tick at or past `duration` ms
        (the first tick for a zero target) with the target formatted. */
    method Run(format: real -> string)
      requires Valid() && running
      modifies this
      ensures Valid() && !running && current == target && text == format(target)
      ensures target == 0.0 ==> ticks == 1
      ensures target > 0.0 ==> (ticks as real) * 16.0 >= duration && ((ticks - 1) as real) * 16.0 < duration
    {
      var steps := duration / 16.0;
      Counting.ReachedExactly(target, steps, ticks);
      if ticks > 0 {
        Counting.TicksBelowDuration(ticks, duration);
      }
      while running
        invariant Valid()
        invariant running ==> ticks <= steps.Floor
        invariant running && target == 0.0 ==> ticks == 0
        invariant !running ==> text == format(target)
        invariant !running ==> ticks == 1 || !Counting.Reached(target, steps, ticks - 1)
        decreases if running then steps.Floor + 1 - ticks else 0
      {
        ghost var before := ticks;
        assert before == 0 || !Counting.Reached(target, steps, before);
        Tick(format);
        Counting.ReachedExactly(target, steps, ticks);
        if running {
          Counting.TicksBelowDuration(ticks, duration);
        }
      }
      if target > 0.0 {
        Counting.FirstReachingTick(target, duration, ticks);
      }
    }
  }

  /** The metric counter's duration. */
  const MetricDuration: real := 1500.0

  /** A metric counter with a positive target is cleared on its 94th tick,
      at 1504 ms, before the 1600 ms restore. */
  lemma MetricCounterEndsBeforeRestore(target: real, k: nat)
    requires target > 0.0
    ensures Counting.Reached(target, MetricDuration / 16.0, k) <==> k >= 94
  {
    Counting.ReachedExactly(target, MetricDuration / 16.0, k);
  }

  /** A `.metric-value`: its text, `data-animated`, and the original text
      held for the 1600 ms restore. */
  class MetricValue {
    ghost const original: string
    var text: string
    var animated: bool
    var saved: Option<string>

    ghost predicate Valid()
      reads this
    {
      (!animated ==> text == original && saved.None?)
      && (saved.Some? ==> saved.value == original)
    }

    constructor (text0: string)
      ensures Valid() && original == text0 && text == text0 && !animated
    {
      original := text0;
      text := text0;
      animated := false;
      saved := None;
    }

    /** The metric card intersects. The first time, `data-animated` is set
        and the text's digits and dots are parsed; a number resets the text
        to '0', starts a 1500 ms counter towards it (returned) and schedules
        the restore. NaN leaves the text as it is. Later intersections do
        nothing. */
    method OnIntersect() returns (counter: Option<real>)
      requires Valid()
      modifies this
      ensures Valid() && animated
      ensures old(animated) ==> counter.None? && text == old(text) && saved == old(saved)
      ensures !old(animated) ==> counter == ParseFloatDigitsDots(DigitsAndDots(original))
      ensures !old(animated) && counter.Some? ==> text == "0" && saved == Some(original)
      ensures !old(animated) && counter.None? ==> text == original && saved.None?
    {
      if animated {
        return None;
      }
      animated := true;
      var t := text;
      var number := ParseFloatDigitsDots(DigitsAndDots(t));
      counter := number;
      if number.Some? {
        text := "0";
        saved := Some(t);
      }
    }

    /** A write of the counter into the element. */
    method Write(s: string)
      requires Valid() && animated
      modifies this
      ensures Valid() && animated && text == s && saved == old(saved)
    {
      text := s;
    }

    /** The 1600 ms timeout: the original text comes back verbatim, whatever
        the counter wrote. */
    method Restore()
      requires Valid() && saved.Some?
      modifies this
      ensures Valid() && text == original && animated
    {
      text := saved.value;
    }
  }

  /** A `.bar-fill` bar: its `style.width` and the widths its pending
      500 ms timeouts will write back, oldest first. */
  class Bar {
    var width: string
    var pending: seq<string>

    constructor (width0: string)
      ensures width == width0 && pending == []
    {
      width := width0;
      pending := [];
    }

    /** Every intersection reads the current width, sets 0% and schedules
        writing the read width back; there is no guard. */
    method OnIntersect()
      modifies this
      ensures width == "0%" && pending == old(pending) + [old(width)]
    {
      var w := width;
      width := "0%";
      pending := pending + [w];
    }

    /** The oldest pending timeout fires. */
    method Restore()
      requires pending != []
      modifies this
      ensures width == old(pending[0]) && pending == old(pending[1..])
    {
      width := pending[0];
      pending := pending[1..];
    }
  }

  /** One intersection and its timeout bring the bar back to its width. */
  method IntersectOnce(width0: string) returns (final: string)
    ensures final == width0
  {
    var b := new Bar(width0);
    b.OnIntersect();
    b.Restore();
    final := b.width;
  }

  /** A second intersection within the 500 ms reads the 0% of the first, so
      once both timeouts have fired the bar stays at 0%. */
  method IntersectTwiceQuickly(width0: string) returns (final: string)
    ensures final == "0%"
  {
    var b := new Bar(width0);
    b.OnIntersect();
    b.OnIntersect();
    b.Restore();
    b.Restore();
    final := b.width;
  }
}

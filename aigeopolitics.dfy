/** The AI-race page (US vs China): each stat text is split around its first
    run of digits, watched by its own observer until it first comes into
    view, and then counted up from 0 by an interval timer; timeline items of
    one observer batch are revealed 100 ms apart. */
module AiGeopolitics {
  import opened Options
  import opened Text
  import RealMath
  import Counting

  /** The position of the first digit at or after `from`, or `|s|`. */
  function FirstDigitFrom(s: string, from: nat): (p: nat)
    requires from <= |s|
    ensures from <= p <= |s|
    ensures forall j :: from <= j < p ==> !IsDigit(s[j])
    ensures p < |s| ==> IsDigit(s[p])
    decreases |s| - from
  {
    if from == |s| || IsDigit(s[from]) then from else FirstDigitFrom(s, from + 1)
  }

  function FirstDigit(s: string): (p: nat)
    ensures p <= |s|
    ensures forall j :: 0 <= j < p ==> !IsDigit(s[j])
    ensures p < |s| <==> HasDigit(s)
  {
    FirstDigitFrom(s, 0)
  }

  /** `text.match(/\d+/)`: the leftmost maximal run of digits. */
  function MatchDigits(text: string): (m: Option<string>)
    ensures m.None? <==> !HasDigit(text)
    ensures m.Some? ==> |m.value| > 0 && AllDigits(m.value)
  {
    var p := FirstDigit(text);
    if p == |text| then None
    else
      var k := DigitRun(text[p..]);
      assert k > 0 by { assert IsDigit(text[p..][0]); }
      Some(text[p..][..k])
  }

  /** `indexOf` of the matched digits finds the match itself: every earlier
      position holds a non-digit, so no copy of the digits starts there. */
  lemma IndexOfMatch(text: string)
    requires HasDigit(text)
    ensures IndexOf(text, MatchDigits(text).value) == FirstDigit(text)
  {
    var p := FirstDigit(text);
    var m := MatchDigits(text).value;
    assert text[p..][..|m|] == text[p..p + |m|];
    assert OccursAt(text, m, p);
    forall j | 0 <= j < p ensures !OccursAt(text, m, j) {
      if j + |m| <= |text| {
        assert text[j..j + |m|][0] == text[j];
      }
    }
  }

  /** The three parts `animateNumbers` computes for a text with a number. */
  datatype NumberSplit = NumberSplit(prefix: string, digits: string, suffix: string)
  {
    /** `parseInt(numberMatch[0])` */
    function Target(): nat
      requires AllDigits(digits)
    {
      DigitsValue(digits)
    }
  }

  /** The prefix is the text before `indexOf` of the match, the suffix the
      text after the match; a text without a digit gets nothing. */
  function SplitNumber(text: string): (r: Option<NumberSplit>)
    ensures r.None? <==> !HasDigit(text)
    ensures r.Some? ==> r.value.prefix + r.value.digits + r.value.suffix == text
    ensures r.Some? ==> !HasDigit(r.value.prefix)
    ensures r.Some? ==> |r.value.digits| > 0 && AllDigits(r.value.digits)
    ensures r.Some? ==> r.value.suffix == [] || !IsDigit(r.value.suffix[0])
  {
    match MatchDigits(text)
    case None => None
    case Some(m) =>
      IndexOfMatch(text);
      var i := IndexOf(text, m);
      var p := FirstDigit(text);
      var k := DigitRun(text[p..]);
      assert m == text[p..p + k];
      assert p + k < |text| ==> text[p + k] == text[p..][k];
      assert text[..i] + m + text[i + |m|..] == text;
      Some(NumberSplit(text[..i], m, text[i + |m|..]))
  }

  /** A text built as a digit-free prefix, a run of digits and a rest that
      does not start with a digit splits back into exactly those parts, so
      the target is the value of that first run. */
  lemma SplitRoundTrip(prefix: string, digits: string, rest: string)
    requires !HasDigit(prefix) && |digits| > 0 && AllDigits(digits)
    requires rest == [] || !IsDigit(rest[0])
    ensures SplitNumber(prefix + digits + rest) == Some(NumberSplit(prefix, digits, rest))
  {
    var text := prefix + digits + rest;
    FirstDigitOfSplit(prefix, digits, rest);
    var p := |prefix|;
    assert text[p..] == digits + rest;
    RunOfSplit(digits, rest);
    assert (digits + rest)[..|digits|] == digits;
    assert MatchDigits(text) == Some(digits);
    IndexOfMatch(text);
    assert text[..p] == prefix;
    assert text[p + |digits|..] == rest;
  }

  lemma FirstDigitOfSplit(prefix: string, digits: string, rest: string)
    requires !HasDigit(prefix) && |digits| > 0 && AllDigits(digits)
    ensures FirstDigit(prefix + digits + rest) == |prefix|
  {
    var text := prefix + digits + rest;
    var p := FirstDigit(text);
    assert text[|prefix|] == digits[0];
  }

  lemma {:induction false} RunOfSplit(digits: string, rest: string)
    requires AllDigits(digits)
    requires rest == [] || !IsDigit(rest[0])
    ensures DigitRun(digits + rest) == |digits|
  {
    if digits == [] {
      assert digits + rest == rest;
    } else {
      assert (digits + rest)[1..] == digits[1..] + rest;
      RunOfSplit(digits[1..], rest);
    }
  }

  /** Splitting the text a counter shows recovers the number it shows. */
  lemma SplitShownNumber(n: nat, prefix: string, rest: string)
    requires !HasDigit(prefix)
    requires rest == [] || !IsDigit(rest[0])
    ensures var r := SplitNumber(prefix + NatToString(n) + rest);
      r.Some? && r.value.prefix == prefix && r.value.suffix == rest && r.value.Target() == n
  {
    SplitRoundTrip(prefix, NatToString(n), rest);
  }

  /** A `.stat-value` or `.info-value` element and the observer
      `animateNumbers` creates for it. `observing` is whether that observer
      still watches the element; `launches` counts the `animateNumber` calls
      it has made. */
  class NumberElement {
    const text: string
    var observing: bool
    ghost var launches: nat

    ghost predicate Valid()
      reads this
    {
      launches + (if observing then 1 else 0) == (if HasDigit(text) then 1 else 0)
    }

    constructor (text0: string)
      ensures Valid() && text == text0 && launches == 0
      ensures observing <==> HasDigit(text0)
    {
      text := text0;
      observing := MatchDigits(text0).Some?;
      launches := 0;
    }

    /** The element intersects: while observed, the animation is launched
        with the split parts and the element is unobserved. */
    method OnIntersect() returns (launch: Option<NumberSplit>)
      requires Valid()
      modifies this
      ensures Valid() && !observing && launches <= 1
      ensures launch.Some? <==> old(observing)
      ensures launch.Some? ==> launch == SplitNumber(text) && launches == old(launches) + 1
      ensures launch.None? ==> launches == old(launches)
    {
      if observing {
        launch := SplitNumber(text);
        observing := false;
        launches := launches + 1;
      } else {
        launch := None;
      }
    }
  }

  /** The `k`-th interval callback takes the `current >= end` branch. */
  predicate ReachedAt(start: int, end: int, duration: real, k: nat)
    requires duration > 0.0
  {
    Counting.RangeSumAt(start, end, duration, k) >= end as real
  }

  /** What the `k`-th callback writes between prefix and suffix. */
  function ShownAt(start: int, end: int, duration: real, k: nat): int
    requires duration > 0.0
  {
    if ReachedAt(start, end, duration, k) then end else Counting.RangeSumAt(start, end, duration, k).Floor
  }

  /** For a positive range the end is reached exactly when 16 k >= duration:
      after ceil(duration / 16) ticks. An empty range is reached at once. */
  lemma ReachedExactly(start: int, end: int, duration: real, k: nat)
    requires duration > 0.0 && start <= end
    ensures start < end ==> (ReachedAt(start, end, duration, k) <==> (k as real) * 16.0 >= duration)
    ensures start == end ==> ReachedAt(start, end, duration, k)
  {
    if start < end {
      RealMath.ReachedWhen(k, (end - start) as real, duration / 16.0);
    }
  }

  /** Every value written lies between start and end, and the values never
      decrease. */
  lemma ShownBounds(start: int, end: int, duration: real, j: nat, k: nat)
    requires duration > 0.0 && start <= end && j <= k
    ensures start <= ShownAt(start, end, duration, j) <= ShownAt(start, end, duration, k) <= end
  {
    var step := Counting.RangeStep(start, end, duration);
    RealMath.DivMonotone(0.0, (end - start) as real, duration / 16.0);
    RealMath.SumMonotone(j, k, step);
    var sj, sk := Counting.RangeSumAt(start, end, duration, j), Counting.RangeSumAt(start, end, duration, k);
    RealMath.FloorAtLeast(sj, start);
    RealMath.FloorMonotone(sj, sk);
    if !ReachedAt(start, end, duration, k) {
      RealMath.FloorBelow(sk, end);
    } else if !ReachedAt(start, end, duration, j) {
      RealMath.FloorBelow(sj, end);
    }
  }

  /** With the page's 1500 ms the interval stops on its 94th tick. */
  lemma NinetyFourTicks(k: nat)
    requires (k as real) * 16.0 >= 1500.0 && ((k - 1) as real) * 16.0 < 1500.0
    ensures k == 94
  {
  }

  /** One `animateNumber(element, start, end, duration, prefix, suffix)`:
      `running` is whether the interval is still set; `Tick` is one interval
      callback. */
  class NumberAnimation {
    const start: int
    const end: int
    const duration: real
    const prefix: string
    const suffix: string
    var current: real
    var text: string
    var running: bool
    ghost var ticks: nat

    ghost predicate Valid()
      reads this
    {
      duration > 0.0 && start <= end
      && (running ==> current == Counting.RangeSumAt(start, end, duration, ticks)
                      && (ticks == 0 || !ReachedAt(start, end, duration, ticks)))
      && (!running ==> current == end as real && ticks >= 1 && ReachedAt(start, end, duration, ticks)
                       && (ticks == 1 || !ReachedAt(start, end, duration, ticks - 1)))
    }

    constructor (start0: int, end0: int, duration0: real, prefix0: string, suffix0: string, text0: string)
      requires duration0 > 0.0 && start0 <= end0
      ensures Valid() && running && ticks == 0 && text == text0
      ensures start == start0 && end == end0 && duration == duration0
      ensures prefix == prefix0 && suffix == suffix0
    {
      start, end, duration := start0, end0, duration0;
      prefix, suffix := prefix0, suffix0;
      current := start0 as real;
      text := text0;
      running := true;
      ticks := 0;
    }

    method Tick()
      requires Valid() && running
      modifies this
      ensures Valid()
      ensures ticks == old(ticks) + 1
      ensures running <==> !ReachedAt(start, end, duration, ticks)
      ensures text == prefix + IntToString(ShownAt(start, end, duration, ticks)) + suffix
      ensures current <= end as real
    {
      RealMath.SumStep(ticks, Counting.RangeStep(start, end, duration));
      current := current + (end - start) as real / (duration / 16.0);
      ticks := ticks + 1;
      assert current == Counting.RangeSumAt(start, end, duration, ticks);
      if current >= end as real {
        current := end as real;
        running := false;
      }
      text := prefix + IntToString(current.Floor) + suffix;
    }

    /** The callbacks until the interval is cleared: the last write shows
        the end value, after ceil(duration / 16) ticks for a positive range
        and after one tick for an empty one. */
    method Run()
      requires Valid() && running
      modifies this
      ensures Valid() && !running && current == end as real
      ensures text == prefix + IntToString(end) + suffix
      ensures start < end ==> (ticks as real) * 16.0 >= duration && ((ticks - 1) as real) * 16.0 < duration
      ensures start == end ==> ticks == 1
    {
      if ticks > 0 {
        ReachedExactly(start, end, duration, ticks);
        Counting.TicksBelowDuration(ticks, duration);
      }
      while running
        invariant Valid()
        invariant running ==> ticks <= (duration / 16.0).Floor
        invariant !running ==> text == prefix + IntToString(end) + suffix
        decreases if running then (duration / 16.0).Floor + 1 - ticks else 0
      {
        Tick();
        if running {
          ReachedExactly(start, end, duration, ticks);
          Counting.TicksBelowDuration(ticks, duration);
        }
      }
      ReachedExactly(start, end, duration, ticks);
      ReachedExactly(start, end, duration, ticks - 1);
    }
  }

  /** The timeline observer callback on one batch: entry `index` that
      intersects is revealed after `index * 100` ms, the index counting
      every entry of the batch, intersecting or not. */
  method ScheduleTimeline(intersecting: seq<bool>) returns (delays: map<nat, nat>)
    ensures forall i: nat :: i in delays <==> i < |intersecting| && intersecting[i]
    ensures forall i: nat :: i in delays ==> delays[i] == i * 100
  {
    delays := map[];
    var index := 0;
    while index < |intersecting|
      invariant 0 <= index <= |intersecting|
      invariant forall i: nat :: i in delays <==> i < index && intersecting[i]
      invariant forall i: nat :: i in delays ==> delays[i] == i * 100
    {
      if intersecting[index] {
        delays := delays[index := index * 100];
      }
      index := index + 1;
    }
  }

  /** Entries revealed from one batch appear in batch order, 100 ms per
      position apart. */
  lemma TimelineOrdered(delays: map<nat, nat>, i: nat, j: nat)
    requires forall k: nat :: k in delays ==> delays[k] == k * 100
    requires i in delays && j in delays && i < j
    ensures delays[i] + 100 <= delays[j]
  {
  }
}

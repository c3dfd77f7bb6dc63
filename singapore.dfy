/** The housing-policy page (Singapore): the linear counter that
    `animateCounters` runs on each number of a revealed container, the eased
    `animateValue` step, the table of original counter values, the theme
    toggle and the Ctrl+arrow section navigation. */
module Singapore {
  import opened Options
  import opened Text
  import RealMath
  import Counting

  /** 2000 ms at one frame per 16 ms: each frame adds `target / 125`. */
  const Frames: real := 2000.0 / 16.0

  /** A positive target is reached on the 125th frame and not before; a zero
      target at once, since 0 is not below 0. */
  lemma FramesToFinish(target: nat, k: nat)
    ensures Counting.Reached(target as real, Frames, k) <==> target == 0 || k >= 125
  {
    Counting.ReachedExactly(target as real, Frames, k);
  }

  function PercentMark(hasPercent: bool): string { if hasPercent then "%" else "" }

  /** The mark survives a write: it is in the new text exactly when it was
      in the old one, because the digits never contain it. */
  lemma MarkKept(n: nat, hasPercent: bool)
    ensures ('%' in NatToString(n) + PercentMark(hasPercent)) == hasPercent
  {
    assert '%' !in NatToString(n);
  }

  /** One counter started by `animateCounters` (app.js:66-89). `running`
      says that another animation frame has been requested; the frame
      callback is `Tick`, and its first call is the synchronous
      `updateCounter()`. */
  class CounterAnimation {
    const target: nat
    ghost const hasPercent: bool
    var current: real
    var text: string
    var running: bool
    ghost var frames: nat

    ghost predicate Valid()
      reads this
    {
      current == Counting.SumAfter(target as real, Frames, frames)
      && ('%' in text <==> hasPercent)
      && (running ==> frames == 0 || !Counting.Reached(target as real, Frames, frames))
      && (!running && frames > 0 ==> Counting.Reached(target as real, Frames, frames))
    }

    /** `parseInt` of the text with every non-digit removed; a text without
        digits is left alone and no frame is requested. */
    constructor (text0: string)
      ensures Valid() && frames == 0 && current == 0.0 && text == text0
      ensures hasPercent == ('%' in text0)
      ensures running <==> HasDigit(text0)
      ensures running ==> Some(target) == ParseIntOfDigits(text0)
    {
      var parsed := ParseIntOfDigits(text0);
      target := parsed.GetOr(0);
      hasPercent := '%' in text0;
      current := 0.0;
      text := text0;
      running := parsed.Some?;
      frames := 0;
    }

    /** One call of `updateCounter`: the new text is the shown number and
        the '%' mark of the text it replaces. */
    method Tick()
      requires Valid() && running
      modifies this
      ensures Valid()
      ensures frames == old(frames) + 1
      ensures running <==> !Counting.Reached(target as real, Frames, frames)
      ensures text == NatToString(Counting.Shown(target as real, Frames, frames)) + PercentMark(hasPercent)
    {
      RealMath.SumStep(frames, Counting.Increment(target as real, Frames));
      current := current + target as real / Frames;
      frames := frames + 1;
      assert current == Counting.SumAfter(target as real, Frames, frames);
      var mark := if '%' in text then "%" else "";
      assert mark == PercentMark(hasPercent);
      if current < target as real {
        assert Counting.Shown(target as real, Frames, frames) == current.Floor;
        text := NatToString(current.Floor) + mark;
      } else {
        text := NatToString(target) + mark;
        running := false;
      }
      MarkKept(Counting.Shown(target as real, Frames, frames), hasPercent);
    }

    /** The frames from the current state to the end: the counter stops on
        the 125th frame (the 1st for a zero target) showing the target. */
    method Run()
      requires Valid() && running
      modifies this
      ensures Valid() && !running
      ensures frames == (if target == 0 then 1 else 125)
      ensures text == NatToString(target) + PercentMark(hasPercent)
    {
      FramesToFinish(target, frames);
      while running
        invariant Valid()
        invariant running ==> frames < 125
        invariant running && target == 0 ==> frames == 0
        invariant !running ==> frames == (if target == 0 then 1 else 125)
        invariant !running ==> text == NatToString(target) + PercentMark(hasPercent)
        decreases if running then 126 - frames else 0
      {
        Tick();
        FramesToFinish(target, frames);
        FramesToFinish(target, frames - 1);
        Counting.ShownWhole(target, Frames, frames);
      }
    }
  }

  /** The observer never unobserves, so a container that scrolls out and
      back in runs `animateCounters` again on the text the first counter has
      just written. Here it comes back after frame `k` of a counter towards
      a positive target. The second counter aims at the number then shown,
      and both write the same element. When that number is positive the
      second counter ends last and leaves it on the element; when it is 0
      the second counter stops at once and the first one finishes with its
      target. */
  method ScrollBackIn(text0: string, k: nat) returns (last: string)
    requires ParseIntOfDigits(text0).Some? && ParseIntOfDigits(text0).value > 0
    requires 1 <= k < 125
    ensures var target := ParseIntOfDigits(text0).value;
      var again := Counting.Shown(target as real, Frames, k);
      last == NatToString(if again > 0 then again else target) + PercentMark('%' in text0)
  {
    var first := new CounterAnimation(text0);
    FirstFrames(first, k);
    var target := first.target;
    var again := Counting.Shown(target as real, Frames, k);
    ShownNumberParsesBack(again, PercentMark(first.hasPercent));
    MarkKept(again, first.hasPercent);
    var second := new CounterAnimation(first.text);
    second.Tick();
    if again == 0 {
      // Its first, synchronous frame already reaches 0.
      first.Run();
      last := first.text;
    } else {
      Lockstep(first, second, k);
      if second.running {
        second.Run();
      }
      last := second.text;
    }
  }

  /** The first `k` frames of a counter towards a positive target. */
  method FirstFrames(c: CounterAnimation, k: nat)
    requires c.Valid() && c.running && c.frames == 0 && c.target > 0 && k < 125
    modifies c
    ensures c.Valid() && c.running && c.frames == k
    ensures k > 0 ==> c.text == NatToString(Counting.Shown(c.target as real, Frames, k)) + PercentMark(c.hasPercent)
  {
    FramesToFinish(c.target, 0);
    var shown := 0;
    while shown < k
      invariant c.Valid() && shown == c.frames <= k && c.running
      invariant shown > 0 ==>
        c.text == NatToString(Counting.Shown(c.target as real, Frames, shown)) + PercentMark(c.hasPercent)
    {
      c.Tick();
      shown := shown + 1;
      FramesToFinish(c.target, shown);
    }
  }

  /** Both counters request a frame each time until the first one, which
      started `k - 1` frames earlier, stops. In each frame the second
      callback runs after the first, since it was requested later. The
      second counter is still running then, or it stopped on the same
      frame, which happens when `k` is 1. */
  method Lockstep(first: CounterAnimation, second: CounterAnimation, k: nat)
    requires first != second && 1 <= k
    requires first.Valid() && first.running && first.frames == k
    requires second.Valid() && second.running && second.frames == 1 && second.target > 0
    modifies first, second
    ensures first.Valid() && !first.running
    ensures second.Valid()
    ensures !second.running ==>
      second.text == NatToString(second.target) + PercentMark(second.hasPercent)
  {
    FramesToFinish(first.target, first.frames);
    FramesToFinish(second.target, second.frames);
    while first.running
      invariant first.Valid() && second.Valid()
      invariant first.frames == second.frames + k - 1
      invariant first.running ==> first.frames < 125 && second.running
      invariant !second.running ==>
        second.text == NatToString(second.target) + PercentMark(second.hasPercent)
      decreases 125 - first.frames
    {
      first.Tick();
      FramesToFinish(first.target, first.frames);
      second.Tick();
      FramesToFinish(second.target, second.frames);
      Counting.ShownWhole(second.target, Frames, second.frames);
    }
  }

  /** `easeOutQuart`: `1 - (--t) * t * t * t`, that is 1 - (t - 1)^4. */
  function EaseOutQuart(t: real): real {
    var u := t - 1.0;
    1.0 - u * u * u * u
  }

  lemma SquareMonotone(x: real, y: real)
    requires x >= y >= 0.0
    ensures x * x >= y * y >= 0.0
  {
    assert x * x - y * y == (x - y) * (x + y);
  }

  lemma EaseEnds()
    ensures EaseOutQuart(0.0) == 0.0 && EaseOutQuart(1.0) == 1.0
  {
  }

  /** The easing is nondecreasing on [0, 1]. */
  lemma EaseMonotone(a: real, b: real)
    requires 0.0 <= a <= b <= 1.0
    ensures EaseOutQuart(a) <= EaseOutQuart(b)
  {
    var x, y := 1.0 - a, 1.0 - b;
    SquareMonotone(x, y);
    SquareMonotone(x * x, y * y);
    assert (a - 1.0) * (a - 1.0) * (a - 1.0) * (a - 1.0) == (x * x) * (x * x);
    assert (b - 1.0) * (b - 1.0) * (b - 1.0) * (b - 1.0) == (y * y) * (y * y);
  }

  /** On [0, 1] the eased progress stays in [0, 1]. */
  lemma EaseWithinUnit(t: real)
    requires 0.0 <= t <= 1.0
    ensures 0.0 <= EaseOutQuart(t) <= 1.0
  {
    EaseEnds();
    EaseMonotone(0.0, t);
    EaseMonotone(t, 1.0);
  }

  /** `Math.min(elapsed / duration, 1)` */
  function Progress(elapsed: real, duration: real): real
    requires duration > 0.0
  {
    if elapsed / duration < 1.0 then elapsed / duration else 1.0
  }

  /** What one `step` of the eased `animateValue` (app.js:135-152) computes:
      the value it formats (`Math.floor(start + (end - start) * eased)`) and
      whether it requests another frame. */
  datatype EasedFrame = EasedFrame(value: int, again: bool)

  function EasedStep(start: real, end: real, duration: real, elapsed: real): (f: EasedFrame)
    requires duration > 0.0
    ensures f.again <==> elapsed < duration
    ensures !f.again ==> f.value == end.Floor
  {
    var p := Progress(elapsed, duration);
    assert p < 1.0 <==> elapsed < duration by {
      assert elapsed / duration < 1.0 <==> elapsed < duration;
    }
    EasedFrame((start + (end - start) * EaseOutQuart(p)).Floor, p < 1.0)
  }

  /** Every frame of an increasing eased animation shows a value between the
      start and the end. */
  lemma EasedWithinRange(start: real, end: real, duration: real, elapsed: real)
    requires duration > 0.0 && start <= end && elapsed >= 0.0
    ensures start.Floor <= EasedStep(start, end, duration, elapsed).value <= end.Floor
  {
    var p := Progress(elapsed, duration);
    assert 0.0 <= p <= 1.0;
    var e := EaseOutQuart(p);
    EaseWithinUnit(p);
    var v := start + (end - start) * e;
    RealMath.Between(start, end, e);
    RealMath.FloorMonotone(start, v);
    RealMath.FloorMonotone(v, end);
  }

  /** The text a step writes: the formatted value followed by the suffix
      (`current.toLocaleString() + suffix`, the formatter being a parameter). */
  function EasedText(f: EasedFrame, suffix: string, format: int -> string): string {
    format(f.value) + suffix
  }

  /** Later frames of an increasing eased animation never show less. */
  lemma EasedNeverDecreases(start: real, end: real, duration: real, e1: real, e2: real)
    requires duration > 0.0 && start <= end && 0.0 <= e1 <= e2
    ensures EasedStep(start, end, duration, e1).value <= EasedStep(start, end, duration, e2).value
  {
    var p1, p2 := Progress(e1, duration), Progress(e2, duration);
    ProgressMonotone(e1, e2, duration);
    EaseMonotone(p1, p2);
    var a, b := EaseOutQuart(p1), EaseOutQuart(p2);
    RealMath.LerpFloorMonotone(start, end, a, b);
    EasedValue(start, end, duration, e1);
    EasedValue(start, end, duration, e2);
  }

  lemma EasedValue(start: real, end: real, duration: real, elapsed: real)
    requires duration > 0.0
    ensures EasedStep(start, end, duration, elapsed).value
      == (start + (end - start) * EaseOutQuart(Progress(elapsed, duration))).Floor
  {
  }

  lemma ProgressMonotone(e1: real, e2: real, duration: real)
    requires duration > 0.0 && 0.0 <= e1 <= e2
    ensures 0.0 <= Progress(e1, duration) <= Progress(e2, duration) <= 1.0
  {
    RealMath.DivMonotone(0.0, e1, duration);
    RealMath.DivMonotone(e1, e2, duration);
  }

  /** An entry of `counterElements`: the parsed number and the text with all
      digits and commas removed. */
  datatype CounterEntry = CounterEntry(number: nat, suffix: string)

  predicate SuffixChar(c: char) { !IsDigit(c) && c != ',' }

  /** `text.replace(/[0-9]/g, '').replace(/,/g, '')`: the characters of the
      text that are neither digits nor commas, in their order and number. */
  function CounterSuffix(text: string): (r: string)
    ensures forall c :: c in r <==> c in text && SuffixChar(c)
    ensures r == Filter(text, SuffixChar)
  {
    FilterTwice(text, NotDigit, NotComma, SuffixChar);
    RemoveCommas(RemoveDigits(text))
  }

  /** The suffix of a number followed by a tail with neither digits nor
      commas is exactly that tail. */
  lemma SuffixAfterNumber(n: nat, tail: string)
    requires forall i :: 0 <= i < |tail| ==> SuffixChar(tail[i])
    ensures CounterSuffix(NatToString(n) + tail) == tail
  {
    var shown := NatToString(n);
    FilterAppend(shown, tail, SuffixChar);
    FilterDropsAll(shown, SuffixChar);
    FilterKeepsAll(tail, SuffixChar);
  }

  /** `setupCounterAnimations` filling `counterElements` (app.js:154-164);
      an element is identified by its position in the query result. */
  method CollectCounters(texts: seq<string>) returns (entries: map<nat, CounterEntry>)
    ensures forall i: nat :: i in entries <==> i < |texts| && HasDigit(Trim(texts[i]))
    ensures forall i: nat :: i in entries ==>
      Some(entries[i].number) == ParseIntOfDigits(Trim(texts[i]))
      && entries[i].suffix == CounterSuffix(Trim(texts[i]))
  {
    entries := map[];
    var i := 0;
    while i < |texts|
      invariant 0 <= i <= |texts|
      invariant forall j: nat {:trigger j in entries} :: j in entries <==> j < i && HasDigit(Trim(texts[j]))
      invariant forall j: nat {:trigger entries[j]} :: j in entries ==>
        Some(entries[j].number) == ParseIntOfDigits(Trim(texts[j]))
        && entries[j].suffix == CounterSuffix(Trim(texts[j]))
    {
      var entry := ReadCounter(texts[i]);
      if entry.Some? {
        entries := entries[i := entry.value];
      }
      i := i + 1;
    }
  }

  /** The entry for one element's text, when it has a digit once trimmed. */
  method ReadCounter(raw: string) returns (entry: Option<CounterEntry>)
    ensures entry.Some? <==> HasDigit(Trim(raw))
    ensures entry.Some? ==>
      Some(entry.value.number) == ParseIntOfDigits(Trim(raw))
      && entry.value.suffix == CounterSuffix(Trim(raw))
  {
    var text := Trim(raw);
    var number := ParseIntOfDigits(text);
    entry := None;
    if number.Some? {
      entry := Some(CounterEntry(number.value, CounterSuffix(text)));
    }
  }

  /** `this.theme === 'dark' ? 'light' : 'dark'` */
  function NextTheme(theme: string): (r: string)
    ensures r == "dark" || r == "light"
    ensures r != theme
  {
    if theme == "dark" then "light" else "dark"
  }

  lemma ToggleTwiceRestores(theme: string)
    requires theme == "dark" || theme == "light"
    ensures NextTheme(NextTheme(theme)) == theme
  {
  }

  /** `ThemeController` (app.js:280-295): `dataTheme` is the document's
      `data-theme` attribute that `applyTheme` writes. */
  class ThemeController {
    var theme: string
    var dataTheme: string

    ghost predicate Valid()
      reads this
    {
      (theme == "dark" || theme == "light") && dataTheme == theme
    }

    constructor ()
      ensures Valid() && theme == "dark"
    {
      theme := "dark";
      dataTheme := "dark";
    }

    method ToggleTheme()
      requires Valid()
      modifies this
      ensures Valid()
      ensures theme == NextTheme(old(theme))
    {
      theme := if theme == "dark" then "light" else "dark";
      dataTheme := theme;
    }
  }

  /** A `section` element's `offsetTop` and `offsetHeight`. */
  datatype Section = Section(top: real, height: real)

  predicate Spans(s: Section, y: real) { s.top <= y <= s.top + s.height }

  /** The index `getCurrentSection` returns: the first section whose
      [top, bottom] holds the probe, searching from `from`, else 0. */
  function FirstSpanning(sections: seq<Section>, y: real, from: nat): (i: nat)
    requires from <= |sections|
    ensures i == 0 || from <= i < |sections|
    ensures (exists j :: from <= j < |sections| && Spans(sections[j], y)) ==>
      from <= i < |sections| && Spans(sections[i], y)
      && forall j :: from <= j < i ==> !Spans(sections[j], y)
    ensures (forall j :: from <= j < |sections| ==> !Spans(sections[j], y)) ==> i == 0
    decreases |sections| - from
  {
    if from == |sections| then 0
    else if Spans(sections[from], y) then from
    else FirstSpanning(sections, y, from + 1)
  }

  function CurrentSection(sections: seq<Section>, y: real): nat {
    FirstSpanning(sections, y, 0)
  }

  /** `getCurrentSection` (app.js:348-362), the probe being
      `pageYOffset + innerHeight / 2`. */
  method GetCurrentSection(sections: seq<Section>, y: real) returns (i: nat)
    ensures i == CurrentSection(sections, y)
    ensures i == 0 || i < |sections|
  {
    var k := 0;
    while k < |sections|
      invariant 0 <= k <= |sections|
      invariant FirstSpanning(sections, y, k) == CurrentSection(sections, y)
    {
      if Spans(sections[k], y) {
        return k;
      }
      k := k + 1;
    }
    return 0;
  }

  /** `navigateToNextSection`: the section it scrolls to, if any. */
  method NavigateToNextSection(sections: seq<Section>, y: real) returns (target: Option<nat>)
    ensures target.Some? <==> CurrentSection(sections, y) + 1 < |sections|
    ensures target.Some? ==> target.value == CurrentSection(sections, y) + 1
  {
    var current := GetCurrentSection(sections, y);
    if current + 1 < |sections| {
      target := Some(current + 1);
    } else {
      target := None;
    }
  }

  /** `navigateToPrevSection`: `sections[current - 1]` is `undefined` for
      the first section, and then nothing happens. */
  method NavigateToPrevSection(sections: seq<Section>, y: real) returns (target: Option<nat>)
    ensures target.Some? <==> CurrentSection(sections, y) >= 1
    ensures target.Some? ==> target.value + 1 == CurrentSection(sections, y)
  {
    var current := GetCurrentSection(sections, y);
    if current >= 1 {
      target := Some(current - 1);
    } else {
      target := None;
    }
  }

  /** With the probe outside every section the current index falls back to
      0, so Ctrl+ArrowDown goes to the second section wherever the reader is
      and Ctrl+ArrowUp does nothing. */
  lemma OutsideEverySection(sections: seq<Section>, y: real)
    requires forall j :: 0 <= j < |sections| ==> !Spans(sections[j], y)
    ensures CurrentSection(sections, y) == 0
  {
  }
}

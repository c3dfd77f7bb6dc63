/** The rare-earth trade-war page: stat numbers counted up once each on an
    interval, keeping the non-digit characters of whatever text they
    replace; progress bars grown once from 0% to their inline width; arrow
    keys moving between sections; and the left/right slide-in class. */
module RareEarth {
  import opened Options
  import opened Text
  import RealMath
  import Counting
  import Schedule

  /** 2000 ms at one tick per 16 ms. */
  const Ticks: real := 2000.0 / 16.0

  /** The digit removal of a written text gives back its tail: the tail is
      the same on every tick. */
  lemma TailKept(n: nat, tail: string)
    requires !HasDigit(tail)
    ensures RemoveDigits(NatToString(n) + tail) == tail
  {
    ShownNumberParsesBack(n, tail);
  }

  /** Characters around the number all end up after it: a text `$500` is
      written `<n>$`. */
  lemma NonDigitsMoveAfter(prefix: string, digits: string, rest: string)
    requires !HasDigit(prefix) && AllDigits(digits) && !HasDigit(rest)
    ensures RemoveDigits(prefix + digits + rest) == prefix + rest
  {
    FilterAppend(prefix + digits, rest, NotDigit);
    FilterAppend(prefix, digits, NotDigit);
    FilterKeepsAll(prefix, NotDigit);
    FilterKeepsAll(rest, NotDigit);
    FilterDropsAll(digits, NotDigit);
    var front := Filter(prefix + digits, NotDigit);
    assert front == prefix by {
      assert prefix + [] == prefix;
    }
    assert RemoveDigits(prefix + digits + rest) == front + Filter(rest, NotDigit);
  }

  /** A `.stat-number` element: its text, the 'animated' class, and the
      `animateNumber` interval started for it. `tail` is the digit-free part
      of the text when the interval started, which every tick keeps. */
  class StatNumber {
    var text: string
    var animated: bool
    var target: nat
    var current: real
    var running: bool
    ghost var tail: string
    ghost var ticks: nat
    ghost var starts: nat

    ghost predicate Valid()
      reads this
    {
      starts <= 1 && (starts == 1 ==> animated)
      && (running ==> starts == 1)
      && (starts == 1 ==>
            !HasDigit(tail)
            && (running ==> current == Counting.SumAfter(target as real, Ticks, ticks)
                            && (ticks == 0 || !Counting.Reached(target as real, Ticks, ticks)))
            && (!running ==> current == target as real && ticks > 0 && Counting.Reached(target as real, Ticks, ticks))
            && (ticks == 0 ==> RemoveDigits(text) == tail)
            && (ticks > 0 ==> text == NatToString(Counting.Shown(target as real, Ticks, ticks)) + tail))
      && (starts == 0 ==> !running)
    }

    constructor (text0: string)
      ensures Valid() && text == text0 && !animated && !running && starts == 0
    {
      text := text0;
      animated := false;
      target := 0;
      current := 0.0;
      running := false;
      tail := [];
      ticks := 0;
      starts := 0;
    }

    /** The stat observer sees the element intersect: without 'animated',
        `animateNumber` runs (and starts an interval only when the text has a
        digit) and the class is added either way. */
    method OnIntersect()
      requires Valid()
      modifies this
      ensures Valid() && animated && text == old(text)
      ensures old(animated) ==> running == old(running) && starts == old(starts) && ticks == old(ticks)
      ensures !old(animated) ==> (running <==> HasDigit(text)) && (starts == 1 <==> HasDigit(text))
      ensures !old(animated) && running ==>
        Some(target) == ParseIntOfDigits(text) && ticks == 0 && tail == RemoveDigits(text)
    {
      if animated {
        return;
      }
      var parsed := ParseIntOfDigits(text);
      if parsed.Some? {
        target := parsed.value;
        current := 0.0;
        running := true;
        tail := RemoveDigits(text);
        ticks := 0;
        starts := 1;
      }
      animated := true;
    }

    /** One interval callback: `current` is clamped to the target (and the
        interval cleared) once reached, and the text becomes
        `Math.floor(current)` followed by the non-digits of the text it
        replaces. */
    method Tick()
      requires Valid() && running
      modifies this
      ensures Valid() && ticks == old(ticks) + 1
      ensures starts == old(starts) && target == old(target) && tail == old(tail) && animated == old(animated)
      ensures text == NatToString(Counting.Shown(target as real, Ticks, ticks)) + RemoveDigits(old(text))
      ensures RemoveDigits(old(text)) == tail
      ensures current <= target as real
      ensures running <==> !Counting.Reached(target as real, Ticks, ticks)
    {
      if ticks > 0 {
        TailKept(Counting.Shown(target as real, Ticks, ticks), tail);
      }
      Counting.ClampedStep(target as real, Ticks, ticks, current);
      current := current + target as real / Ticks;
      ticks := ticks + 1;
      if current >= target as real {
        current := target as real;
        running := false;
      }
      assert current == Counting.Clamped(target as real, Ticks, ticks);
      assert current.Floor == Counting.Shown(target as real, Ticks, ticks);
      var suffix := RemoveDigits(text);
      text := NatToString(current.Floor) + suffix;
    }

    /** The interval runs 125 ticks for a positive target (one for 0) and
        leaves the target followed by the original non-digits. */
    method Run()
      requires Valid() && running
      modifies this
      ensures Valid() && !running
      ensures ticks == (if target == 0 then 1 else 125)
      ensures current == target as real
      ensures text == NatToString(target) + tail
    {
      Counting.ReachedExactly(target as real, Ticks, ticks);
      while running
        invariant Valid() && starts == 1
        invariant running ==> ticks < 125
        invariant running && target == 0 ==> ticks == 0
        invariant !running ==> ticks == (if target == 0 then 1 else 125)
        decreases if running then 126 - ticks else 0
      {
        Tick();
        Counting.ReachedExactly(target as real, Ticks, ticks);
        Counting.ReachedExactly(target as real, Ticks, ticks - 1);
      }
      Counting.ShownWhole(target, Ticks, ticks);
    }
  }

  /** A `.progress-fill` bar: its inline `style.width`, the 'animated' class,
      and the width saved for the 300 ms restore while it is pending. */
  class ProgressFill {
    ghost const original: string
    var width: string
    var animated: bool
    var saved: Option<string>

    ghost predicate Valid()
      reads this
    {
      (!animated ==> width == original && saved.None?)
      && (saved.Some? ==> saved.value == original && width == "0%")
      && (animated && saved.None? ==> width == original)
    }

    constructor (width0: string)
      ensures Valid() && original == width0 && width == width0 && !animated
    {
      original := width0;
      width := width0;
      animated := false;
      saved := None;
    }

    /** Intersecting: the first time only, the width is saved, set to 0%
        and the restore scheduled. */
    method OnIntersect()
      requires Valid()
      modifies this
      ensures Valid() && animated
      ensures !old(animated) ==> width == "0%" && saved == Some(original)
      ensures old(animated) ==> width == old(width) && saved == old(saved)
    {
      if !animated {
        var w := width;
        width := "0%";
        saved := Some(w);
        animated := true;
      }
    }

    /** The timeout fires: the saved width is written back. */
    method Restore()
      requires Valid() && saved.Some?
      modifies this
      ensures Valid() && width == original && saved.None? && animated
    {
      width := saved.value;
      saved := None;
    }
  }

  /** A section's `getBoundingClientRect()` top and bottom. */
  datatype Rect = Rect(top: real, bottom: real)

  predicate SpansLine(r: Rect) { r.top <= 100.0 && r.bottom >= 100.0 }

  /** `sections.find(...)` followed by `indexOf`: the first section whose
      rectangle spans y = 100. */
  function SpanningIndex(rects: seq<Rect>, from: nat): (r: Option<nat>)
    requires from <= |rects|
    ensures r.Some? ==>
      from <= r.value < |rects| && SpansLine(rects[r.value]) && forall j :: from <= j < r.value ==> !SpansLine(rects[j])
    ensures r.None? ==> forall j :: from <= j < |rects| ==> !SpansLine(rects[j])
    decreases |rects| - from
  {
    if from == |rects| then None
    else if SpansLine(rects[from]) then Some(from)
    else SpanningIndex(rects, from + 1)
  }

  datatype ArrowKey = ArrowDown | ArrowUp

  /** The section the keydown handler scrolls to, if any. */
  function ArrowTarget(rects: seq<Rect>, key: ArrowKey): (r: Option<nat>)
    ensures SpanningIndex(rects, 0).None? ==> r.None?
    ensures r.Some? ==> r.value < |rects|
    ensures r.Some? ==> var i := SpanningIndex(rects, 0).value;
      (key == ArrowDown ==> r.value == i + 1) && (key == ArrowUp ==> r.value + 1 == i)
    ensures SpanningIndex(rects, 0).Some? ==> var i := SpanningIndex(rects, 0).value;
      (r.None? <==> (key == ArrowDown && i == |rects| - 1) || (key == ArrowUp && i == 0))
  {
    match SpanningIndex(rects, 0)
    case None => None
    case Some(i) =>
      if key == ArrowDown && i < |rects| - 1 then Some(i + 1)
      else if key == ArrowUp && i > 0 then Some(i - 1)
      else None
  }

  /** No wrap-around: ArrowDown does nothing on the last section and
      ArrowUp nothing on the first. */
  lemma ArrowsNeverWrap(rects: seq<Rect>)
    requires SpanningIndex(rects, 0).Some?
    ensures SpanningIndex(rects, 0).value == |rects| - 1 ==> ArrowTarget(rects, ArrowDown).None?
    ensures SpanningIndex(rects, 0).value == 0 ==> ArrowTarget(rects, ArrowUp).None?
  {
  }

  /** `rect.left < innerWidth / 2 ? 'slide-in-left' : 'slide-in-right'` */
  function SlideClass(left: real, innerWidth: real): (c: string)
    ensures c == "slide-in-left" || c == "slide-in-right"
    ensures c == "slide-in-left" <==> left < innerWidth / 2.0
  {
    if left < innerWidth / 2.0 then "slide-in-left" else "slide-in-right"
  }

  /** One `animationObserver` callback for an intersecting element: its
      class list gains the class for its position. The observer never
      unobserves, so this runs again on every later intersection. */
  function Intersect(classes: set<string>, left: real, innerWidth: real): (after: set<string>)
    ensures classes <= after && SlideClass(left, innerWidth) in after
    ensures forall c :: c in after && c !in classes ==> c == SlideClass(left, innerWidth)
  {
    classes + {SlideClass(left, innerWidth)}
  }

  /** The callbacks for a run of intersections, each with the element's
      `rect.left` and the window's `innerWidth` at that moment. */
  function IntersectAll(classes: set<string>, seen: seq<(real, real)>): set<string>
    decreases |seen|
  {
    if seen == [] then classes
    else IntersectAll(Intersect(classes, seen[0].0, seen[0].1), seen[1..])
  }

  /** An intersection leaves exactly one of the two slide classes unless the
      element already carries the class of the other side. */
  lemma ExactlyOneSlide(classes: set<string>, left: real, innerWidth: real)
    requires !("slide-in-left" in classes && SlideClass(left, innerWidth) == "slide-in-right")
    requires !("slide-in-right" in classes && SlideClass(left, innerWidth) == "slide-in-left")
    ensures var after := Intersect(classes, left, innerWidth);
      ("slide-in-left" in after) != ("slide-in-right" in after)
  {
  }

  /** Intersecting again on the same side changes nothing. */
  lemma IntersectAgain(classes: set<string>, left: real, innerWidth: real)
    ensures Intersect(Intersect(classes, left, innerWidth), left, innerWidth)
      == Intersect(classes, left, innerWidth)
  {
  }

  /** Starting without slide classes, an element carries 'slide-in-left'
      exactly when some intersection found it left of the centre, and
      'slide-in-right' exactly when some found it at or right of the centre;
      so it carries both once a resize or a layout change moved it across. */
  lemma {:induction false} SlidesAfter(classes: set<string>, seen: seq<(real, real)>)
    requires "slide-in-left" !in classes && "slide-in-right" !in classes
    ensures "slide-in-left" in IntersectAll(classes, seen)
      <==> exists i :: 0 <= i < |seen| && seen[i].0 < seen[i].1 / 2.0
    ensures "slide-in-right" in IntersectAll(classes, seen)
      <==> exists i :: 0 <= i < |seen| && seen[i].0 >= seen[i].1 / 2.0
  {
    SlidesAfterFrom(classes, seen);
  }

  lemma {:induction false} SlidesAfterFrom(classes: set<string>, seen: seq<(real, real)>)
    ensures "slide-in-left" in IntersectAll(classes, seen)
      <==> "slide-in-left" in classes || exists i :: 0 <= i < |seen| && seen[i].0 < seen[i].1 / 2.0
    ensures "slide-in-right" in IntersectAll(classes, seen)
      <==> "slide-in-right" in classes || exists i :: 0 <= i < |seen| && seen[i].0 >= seen[i].1 / 2.0
    decreases |seen|
  {
    if seen != [] {
      var next := Intersect(classes, seen[0].0, seen[0].1);
      SlidesAfterFrom(next, seen[1..]);
      assert forall i :: 1 <= i < |seen| ==> seen[i] == seen[1..][i - 1];
      if exists i :: 0 <= i < |seen[1..]| && seen[1..][i].0 < seen[1..][i].1 / 2.0 {
        var i :| 0 <= i < |seen[1..]| && seen[1..][i].0 < seen[1..][i].1 / 2.0;
        assert seen[i + 1] == seen[1..][i];
      }
      if exists i :: 0 <= i < |seen[1..]| && seen[1..][i].0 >= seen[1..][i].1 / 2.0 {
        var i :| 0 <= i < |seen[1..]| && seen[1..][i].0 >= seen[1..][i].1 / 2.0;
        assert seen[i + 1] == seen[1..][i];
      }
    }
  }

  /** The timeline items' `animationDelay`: index times 0.2 s, here in
      milliseconds. */
  method TimelineDelays(items: nat) returns (delays: seq<nat>)
    ensures |delays| == items && forall i :: 0 <= i < items ==> delays[i] == i * 200
  {
    delays := Schedule.Stagger(items, 200);
  }
}

/** The US-China trade-relations page: the timeline whose points show one
    entry of `timelineData` at a time, stepped with the arrow keys; stat
    counters that step by a fiftieth of their target every 30 ms; the
    staggered progress-bar and counter timers; and the rare-earth
    expand/collapse button. */
module UsChina {
  import opened Options
  import opened Text
  import RealMath
  import Counting
  import Selection

  datatype Detail = Detail(title: string, description: string)

  /** `timelineData`, in order. */
  const TimelineData: seq<Detail> := [
    Detail("2018: Trade War Begins", "Trump launches first tariffs on Chinese goods, targeting intellectual property theft and forced technology transfer. China scrambles to respond with limited options."),
    Detail("2019: Escalation", "Tariffs expand to cover $550B of Chinese goods. China retaliates where possible but lacks strategic leverage. Trade tensions reach their peak."),
    Detail("2020: Phase One Deal", "After months of negotiations, US and China sign Phase One trade deal. China commits to purchasing additional US goods, though compliance remains partial."),
    Detail("2021-2024: China Prepares", "China quietly consolidates control over rare earth processing and refining. Strategic investments in critical minerals create future leverage points."),
    Detail("2025: Rare Earth Leverage Deployed", "China deploys rare earth export controls, demonstrating strategic leverage and forcing a fundamental shift in US-China power dynamics. The \"pain is excruciating.\"")
  ]

  /** The page opens on entry 4, the last of the five. */
  const InitialIndex: nat := 4

  lemma InitialIndexValid()
    ensures |TimelineData| == 5 && InitialIndex == |TimelineData| - 1
    ensures TimelineData[InitialIndex].title == "2025: Rare Earth Leverage Deployed"
  {
  }

  datatype Key = ArrowRight | ArrowLeft | OtherKey

  /** The index the keydown handler passes to `showTimelineDetail`, if
      any, for `n` points and the current index. */
  function ArrowTarget(current: int, n: nat, key: Key): (r: Option<nat>)
    requires current >= -1
    ensures key == ArrowRight ==> (r.Some? <==> current < n - 1) && (r.Some? ==> r.value == current + 1)
    ensures key == ArrowLeft ==> (r.Some? <==> current > 0) && (r.Some? ==> r.value == current - 1)
    ensures key == OtherKey ==> r.None?
    ensures current < n && r.Some? ==> r.value < n
  {
    if key == ArrowRight && current < n - 1 then Some(current + 1)
    else if key == ArrowLeft && current > 0 then Some(current - 1)
    else None
  }

  /** The timeline: which points are 'active', the detail box texts and
      opacity, and the index whose 200 ms content update is pending. */
  class Timeline {
    var active: seq<bool>
    var title: string
    var description: string
    var shown: bool
    var pending: Option<nat>

    constructor (n: nat, title0: string, description0: string)
      ensures |active| == n && Selection.FirstTrue(active) == -1
      ensures title == title0 && description == description0 && shown && pending.None?
    {
      active := seq(n, _ => false);
      title := title0;
      description := description0;
      shown := true;
      pending := None;
    }

    /** `showTimelineDetail(index)`: point `index` becomes the only active
        one (no point is when it is out of range), the box fades out and
        the content update is scheduled. */
    method ShowDetail(index: nat)
      modifies this
      ensures |active| == |old(active)|
      ensures forall i :: 0 <= i < |active| ==> (active[i] <==> i == index)
      ensures Selection.FirstTrue(active) == (if index < |active| then index else -1)
      ensures !shown && pending == Some(index)
      ensures title == old(title) && description == old(description)
    {
      var i := 0;
      while i < |active|
        invariant 0 <= i <= |active| == |old(active)|
        invariant forall j :: 0 <= j < i ==> (active[j] <==> j == index)
        invariant forall j :: i <= j < |active| ==> active[j] == old(active)[j]
        invariant title == old(title) && description == old(description)
      {
        if i == index {
          active := active[i := true];
        } else {
          active := active[i := false];
        }
        i := i + 1;
      }
      if index < |active| {
        Selection.FirstOfOnly(active, index);
      }
      shown := false;
      pending := Some(index);
    }

    /** The 200 ms timeout: the title and description of entry `index` are
        written and the box shown again. Reading an entry past the fifth
        throws, and nothing more is written. */
    method ApplyDetail()
      requires pending.Some?
      modifies this
      ensures active == old(active) && pending.None?
      ensures old(pending.value) < |TimelineData| ==>
        title == TimelineData[old(pending.value)].title
        && description == TimelineData[old(pending.value)].description && shown
      ensures old(pending.value) >= |TimelineData| ==>
        title == old(title) && description == old(description) && shown == old(shown)
    {
      var index := pending.value;
      pending := None;
      if index < |TimelineData| {
        title := TimelineData[index].title;
        description := TimelineData[index].description;
        shown := true;
      }
    }

    /** The keydown handler. */
    method OnKey(key: Key)
      modifies this
      ensures |active| == |old(active)|
      ensures var t := ArrowTarget(Selection.FirstTrue(old(active)), |old(active)|, key);
        (t.None? ==> active == old(active) && pending == old(pending) && shown == old(shown))
        && (t.Some? ==> Selection.FirstTrue(active) == t.value && pending == Some(t.value))
    {
      var current := Selection.FirstTrue(active);
      var n := |active|;
      if key == ArrowRight && current < n - 1 {
        ShowDetail(current + 1);
      } else if key == ArrowLeft && current > 0 {
        ShowDetail(current - 1);
      }
    }
  }

  /** With no point active the index is -1, so ArrowRight selects the
      first point and ArrowLeft does nothing. */
  lemma NoActivePoint(n: nat)
    requires n > 0
    ensures ArrowTarget(-1, n, ArrowRight) == Some(0)
    ensures ArrowTarget(-1, n, ArrowLeft).None?
  {
  }

  /** From a valid index, ArrowRight then ArrowLeft comes back, and so does
      ArrowLeft then ArrowRight; neither key leaves the range of points. */
  lemma ArrowsInverse(i: nat, n: nat)
    requires i < n
    ensures i < n - 1 ==> ArrowTarget(ArrowTarget(i, n, ArrowRight).value, n, ArrowLeft) == Some(i)
    ensures i > 0 ==> ArrowTarget(ArrowTarget(i, n, ArrowLeft).value, n, ArrowRight) == Some(i)
    ensures i == n - 1 ==> ArrowTarget(i, n, ArrowRight).None?
    ensures i == 0 ==> ArrowTarget(i, n, ArrowLeft).None?
  {
  }

  /** `target / 50` per 30 ms callback. */
  const Steps: real := 50.0

  /** A `.stat-number` under `animateCounter(element, target)`. The element
      may start with a `.stat-percent` child; the `textContent` write drops
      it before it is looked up, so the branch that would write it back
      never runs. */
  class StatCounter {
    const target: nat
    var current: real
    var text: string
    var hasPercentSpan: bool
    var running: bool
    ghost var ticks: nat

    ghost predicate Valid()
      reads this
    {
      (running ==> current == Counting.SumAfter(target as real, Steps, ticks)
                   && (ticks == 0 || !Counting.Reached(target as real, Steps, ticks)))
      && (!running ==> current == target as real && ticks > 0 && Counting.Reached(target as real, Steps, ticks))
      && (ticks > 0 ==> !hasPercentSpan)
    }

    constructor (target0: nat, text0: string, hasPercentSpan0: bool)
      ensures Valid() && running && ticks == 0 && target == target0
      ensures text == text0 && hasPercentSpan == hasPercentSpan0
    {
      target := target0;
      current := 0.0;
      text := text0;
      hasPercentSpan := hasPercentSpan0;
      running := true;
      ticks := 0;
    }

    /** One interval callback. */
    method Tick()
      requires Valid() && running
      modifies this
      ensures Valid() && ticks == old(ticks) + 1
      ensures running <==> !Counting.Reached(target as real, Steps, ticks)
      ensures current <= target as real
      ensures text == NatToString(Counting.Shown(target as real, Steps, ticks)) && !hasPercentSpan
    {
      var before := current;
      assert before == Counting.SumAfter(target as real, Steps, ticks);
      RealMath.SumStep(ticks, Counting.Increment(target as real, Steps));
      current := current + target as real / Steps;
      ticks := ticks + 1;
      assert current == Counting.SumAfter(target as real, Steps, ticks);
      if current >= target as real {
        current := target as real;
        running := false;
      }
      assert current == Counting.Clamped(target as real, Steps, ticks);
      Counting.ClampedBounds(target as real, Steps, ticks, ticks);
      assert current.Floor == Counting.Shown(target as real, Steps, ticks);
      var written := NatToString(current.Floor);
      hasPercentSpan := false;
      var percentSpan := hasPercentSpan;
      if percentSpan {
        written := IntToString(current.Floor) + "%";
      }
      text := written;
    }

    /** The interval is cleared after 50 callbacks (one for a zero target),
        showing the target without a '%'. */
    method Run()
      requires Valid() && running
      modifies this
      ensures Valid() && !running
      ensures ticks == (if target == 0 then 1 else 50)
      ensures text == NatToString(target) && !hasPercentSpan
    {
      Counting.ReachedExactly(target as real, Steps, ticks);
      while running
        invariant Valid()
        invariant running ==> ticks < 50
        invariant running && target == 0 ==> ticks == 0
        invariant !running ==> ticks == (if target == 0 then 1 else 50)
        invariant !running ==> text == NatToString(target) && !hasPercentSpan
        decreases if running then 51 - ticks else 0
      {
        Tick();
        Counting.ReachedExactly(target as real, Steps, ticks);
        Counting.ReachedExactly(target as real, Steps, ticks - 1);
        Counting.ShownWhole(target, Steps, ticks);
      }
    }
  }

  /** A timer set up by `animateProgressBars`: after `delay` ms the bar's
      `style.width` becomes its `data-width`. */
  datatype BarTimer = BarTimer(delay: nat, bar: nat, width: string)

  /** `animateProgressBars(section)`, run on every intersection of the
      section. */
  method ProgressBarTimers(dataWidths: seq<string>) returns (timers: seq<BarTimer>)
    ensures |timers| == |dataWidths|
    ensures forall i :: 0 <= i < |timers| ==> timers[i] == BarTimer(i * 200, i, dataWidths[i])
  {
    timers := [];
    var i := 0;
    while i < |dataWidths|
      invariant 0 <= i <= |dataWidths| && |timers| == i
      invariant forall j :: 0 <= j < i ==> timers[j] == BarTimer(j * 200, j, dataWidths[j])
    {
      timers := timers + [BarTimer(i * 200, i, dataWidths[i])];
      i := i + 1;
    }
  }

  /** A timer set up by `animateStats`: after `delay` ms card `card`'s
      counter starts towards its `data-count`. */
  datatype StatTimer = StatTimer(delay: nat, card: nat, target: nat)

  /** `animateStats(section)`, run on every intersection of the section. */
  method StatTimers(counts: seq<nat>) returns (timers: seq<StatTimer>)
    ensures |timers| == |counts|
    ensures forall i :: 0 <= i < |timers| ==> timers[i] == StatTimer(i * 100, i, counts[i])
  {
    timers := [];
    var i := 0;
    while i < |counts|
      invariant 0 <= i <= |counts| && |timers| == i
      invariant forall j :: 0 <= j < i ==> timers[j] == StatTimer(j * 100, j, counts[j])
    {
      timers := timers + [StatTimer(i * 100, i, counts[i])];
      i := i + 1;
    }
  }

  /** The rare-earth button and the content after it. */
  class ExpandButton {
    var contentActive: bool
    var minusIcon: bool
    var caption: string

    ghost predicate Valid()
      reads this
    {
      minusIcon == contentActive
      && caption == (if contentActive then "Hide Details" else "What are Rare Earth Elements?")
    }

    constructor ()
      ensures Valid() && !contentActive
    {
      contentActive := false;
      minusIcon := false;
      caption := "What are Rare Earth Elements?";
    }

    /** `toggleExpand(button)`: the content, the icon and the caption flip
        together. */
    method ToggleExpand()
      requires Valid()
      modifies this
      ensures Valid() && contentActive == !old(contentActive)
    {
      if contentActive {
        contentActive := false;
        minusIcon := false;
        caption := "What are Rare Earth Elements?";
      } else {
        contentActive := true;
        minusIcon := true;
        caption := "Hide Details";
      }
    }
  }
}

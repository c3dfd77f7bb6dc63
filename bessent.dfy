/** The Bessent profile page: the career timeline and criticism cards built
    from the page's data arrays, the 'expanded' toggle on a criticism card,
    and the statistics counters, each started once and stepped 60 times
    towards its target with the display chosen by the target's magnitude. */
module Bessent {
  import opened Options
  import opened Text
  import RealMath
  import Counting

  /** `element.dataset.x || ''`: a missing or empty attribute gives ''. */
  function AttrOr(a: Option<string>): string {
    if a.Some? then a.value else ""
  }

  /** `stepValue = target / steps` with `steps = 60`. */
  const Steps: real := 60.0

  /** The display branch, picked by the target: tenths of billions for a
      target of at least 1e9, tenths of millions for at least 1e6, the
      floor of `current` below that. */
  datatype Display = Billions(amount: real) | Millions(amount: real) | Whole(n: int)

  function DisplayValue(target: nat, current: real): (d: Display)
    ensures d.Billions? <==> target >= 1000000000
    ensures d.Millions? <==> 1000000 <= target < 1000000000
    ensures d.Whole? <==> target < 1000000
    ensures d.Billions? ==> d.amount * 1000000000.0 == current
    ensures d.Millions? ==> d.amount * 1000000.0 == current
    ensures d.Whole? ==> d.n as real <= current < d.n as real + 1.0
  {
    if target >= 1000000000 then Billions(current / 1000000000.0)
    else if target >= 1000000 then Millions(current / 1000000.0)
    else Whole(current.Floor)
  }

  /** The branch never changes while a counter runs: it depends on the
      target, not on `current`. */
  lemma BranchFixedByTarget(target: nat, c1: real, c2: real)
    ensures DisplayValue(target, c1).Billions? == DisplayValue(target, c2).Billions?
    ensures DisplayValue(target, c1).Millions? == DisplayValue(target, c2).Millions?
    ensures DisplayValue(target, c1).Whole? == DisplayValue(target, c2).Whole?
  {
  }

  /** The written form of a display value; `fixed1` stands for
      `toFixed(1)`. */
  function Render(d: Display, fixed1: real -> string): string {
    match d
    case Billions(x) => fixed1(x)
    case Millions(x) => fixed1(x)
    case Whole(n) => IntToString(n)
  }

  /** A `.stat-number` element: its 'animated' class and the
      `animateCounter` interval started for it. */
  class StatCounter {
    const target: nat
    const prefix: string
    const suffix: string
    var animated: bool
    var current: real
    var text: string
    var running: bool
    ghost var ticks: nat
    ghost var starts: nat

    ghost predicate Valid()
      reads this
    {
      starts == (if animated then 1 else 0)
      && (!animated ==> !running && ticks == 0)
      && (running ==> current == Counting.SumAfter(target as real, Steps, ticks)
                      && (ticks == 0 || !Counting.Reached(target as real, Steps, ticks)))
      && (animated && !running ==> current == target as real && ticks > 0
                                   && Counting.Reached(target as real, Steps, ticks))
    }

    constructor (target0: nat, prefixAttr: Option<string>, suffixAttr: Option<string>, text0: string)
      ensures Valid() && !animated && text == text0 && target == target0
      ensures prefix == AttrOr(prefixAttr) && suffix == AttrOr(suffixAttr)
    {
      target := target0;
      prefix := AttrOr(prefixAttr);
      suffix := AttrOr(suffixAttr);
      animated := false;
      current := 0.0;
      text := text0;
      running := false;
      ticks := 0;
      starts := 0;
    }

    /** The statistics section intersects: a counter without 'animated' gets
        the class and its interval; one with it is left alone. */
    method OnIntersect()
      requires Valid()
      modifies this
      ensures Valid() && animated && starts == 1 && text == old(text)
      ensures old(animated) ==> running == old(running) && ticks == old(ticks) && current == old(current)
      ensures !old(animated) ==> running && ticks == 0 && current == 0.0
    {
      if !animated {
        animated := true;
        starts := 1;
        current := 0.0;
        ticks := 0;
        running := true;
      }
    }

    /** One interval callback: `current` is clamped to the target once it
        reaches it, and every write is prefix, display value, suffix. */
    method Tick(fixed1: real -> string)
      requires Valid() && running
      modifies this
      ensures Valid() && animated && ticks == old(ticks) + 1
      ensures current == Counting.Clamped(target as real, Steps, ticks)
      ensures 0.0 <= current <= target as real
      ensures running <==> !Counting.Reached(target as real, Steps, ticks)
      ensures text == prefix + Render(DisplayValue(target, current), fixed1) + suffix
    {
      var before := current;
      assert before == Counting.SumAfter(target as real, Steps, ticks);
      RealMath.SumStep(ticks, Counting.Increment(target as real, Steps));
      current := current + target as real / Steps;
      ticks := ticks + 1;
      assert current == Counting.SumAfter(target as real, Steps, ticks);
      if current >= target as real {
        current := target as real;
        running := false;
      }
      Counting.ClampedBounds(target as real, Steps, ticks, ticks);
      var display: string;
      if target >= 1000000000 {
        display := fixed1(current / 1000000000.0);
      } else if target >= 1000000 {
        display := fixed1(current / 1000000.0);
      } else {
        display := IntToString(current.Floor);
      }
      text := prefix + display + suffix;
    }

    /** The interval is cleared on the 60th callback (the first for a zero
        target) with the target itself displayed. */
    method Run(fixed1: real -> string)
      requires Valid() && running
      modifies this
      ensures Valid() && animated && !running && current == target as real
      ensures ticks == (if target == 0 then 1 else 60)
      ensures text == prefix + Render(DisplayValue(target, target as real), fixed1) + suffix
      ensures target < 1000000 ==> text == prefix + NatToString(target) + suffix
    {
      Counting.ReachedExactly(target as real, Steps, ticks);
      while running
        invariant Valid() && animated
        invariant running ==> ticks < 60
        invariant running && target == 0 ==> ticks == 0
        invariant !running ==> ticks == (if target == 0 then 1 else 60)
        invariant !running ==> text == prefix + Render(DisplayValue(target, target as real), fixed1) + suffix
        decreases if running then 61 - ticks else 0
      {
        Tick(fixed1);
        Counting.ReachedExactly(target as real, Steps, ticks);
        Counting.ReachedExactly(target as real, Steps, ticks - 1);
      }
    }
  }

  /** An entry of `timelineData`. */
  datatype Milestone = Milestone(year: string, event: string, icon: string, highlight: bool, side: string)

  /** A rendered `.timeline-item`: its class and the three texts it shows. */
  datatype TimelineItem = TimelineItem(className: string, year: string, icon: string, event: string)

  /** `timeline-item ${item.side} ${item.highlight ? 'highlight' : ''}` */
  function ItemClass(m: Milestone): (c: string)
    ensures |c| >= 15 + |m.side|
    ensures c[..14] == "timeline-item " && c[14..14 + |m.side|] == m.side
    ensures m.highlight <==> |c| == 24 + |m.side|
    ensures m.highlight ==> c[14 + |m.side|..] == " highlight"
    ensures !m.highlight ==> c[14 + |m.side|..] == " "
  {
    var head := "timeline-item " + m.side;
    var c := head + " " + (if m.highlight then "highlight" else "");
    assert c[..|head|] == head;
    assert c[..14] == head[..14] == "timeline-item ";
    assert c[14..14 + |m.side|] == head[14..] == m.side;
    c
  }

  /** `renderTimeline`: one item appended per entry, in order. The local
      `side` alternates on every entry but no class reads it: each item's
      side is the entry's own. */
  method RenderTimeline(data: seq<Milestone>) returns (items: seq<TimelineItem>)
    ensures |items| == |data|
    ensures forall i :: 0 <= i < |data| ==>
      items[i].className == ItemClass(data[i])
      && items[i].year == data[i].year && items[i].icon == data[i].icon && items[i].event == data[i].event
  {
    items := [];
    var side := "left";
    var i := 0;
    while i < |data|
      invariant 0 <= i <= |data| && |items| == i
      invariant forall j :: 0 <= j < i ==>
        items[j].className == ItemClass(data[j])
        && items[j].year == data[j].year && items[j].icon == data[j].icon && items[j].event == data[j].event
    {
      var m := data[i];
      var className := "timeline-item " + m.side + " " + (if m.highlight then "highlight" else "");
      items := items + [TimelineItem(className, m.year, m.icon, m.event)];
      side := if side == "left" then "right" else "left";
      i := i + 1;
    }
  }

  /** An entry of `criticismsData`. */
  datatype Criticism = Criticism(category: string, severity: string, source: string, details: seq<string>)

  /** A rendered `.criticism-card`. */
  datatype CriticismCard = CriticismCard(className: string, index: nat, category: string, source: string, detailsHtml: string)

  /** `details.map(detail => `<li>${detail}</li>`).join('')` */
  function DetailsHtml(details: seq<string>): string
    decreases |details|
  {
    if details == [] then "" else "<li>" + details[0] + "</li>" + DetailsHtml(details[1..])
  }

  /** The number of characters before the first '<'. */
  function TextRun(s: string): (n: nat)
    ensures n <= |s| && '<' !in s[..n] && (n < |s| ==> s[n] == '<')
  {
    if s == [] || s[0] == '<' then 0
    else
      var n := TextRun(s[1..]);
      assert s[..n + 1] == [s[0]] + s[1..][..n];
      n + 1
  }

  /** Reading the list items back out of the markup. */
  function ReadItems(h: string): Option<seq<string>>
    decreases |h|
  {
    if h == [] then Some([])
    else if |h| < 4 || h[..4] != "<li>" then None
    else
      var body := h[4..];
      var n := TextRun(body);
      var after := body[n..];
      if |after| < 5 || after[..5] != "</li>" then None
      else match ReadItems(after[5..])
        case None => None
        case Some(rest) => Some([body[..n]] + rest)
  }

  lemma TextRunOf(d: string, rest: string)
    requires '<' !in d && (rest == [] || rest[0] == '<')
    ensures TextRun(d + rest) == |d|
    decreases |d|
  {
    if d != [] {
      assert (d + rest)[1..] == d[1..] + rest;
      TextRunOf(d[1..], rest);
    } else {
      assert d + rest == rest;
    }
  }

  /** The markup lists exactly the details, in order: reading it back gives
      them again, as long as no detail contains '<'. */
  lemma {:induction false} DetailsRoundTrip(details: seq<string>)
    requires forall i :: 0 <= i < |details| ==> '<' !in details[i]
    ensures ReadItems(DetailsHtml(details)) == Some(details)
    decreases |details|
  {
    if details != [] {
      var d := details[0];
      var tail := DetailsHtml(details[1..]);
      var h := "<li>" + d + "</li>" + tail;
      assert h[..4] == "<li>";
      assert h[4..] == d + ("</li>" + tail);
      TextRunOf(d, "</li>" + tail);
      assert h[4..][..|d|] == d;
      assert h[4..][|d|..] == "</li>" + tail;
      assert ("</li>" + tail)[5..] == tail;
      DetailsRoundTrip(details[1..]);
      assert [d] + details[1..] == details;
    }
  }

  /** `renderCriticisms`: card i has class `criticism-card <severity>`,
      `data-index` i and one `<li>` per detail; none starts expanded. */
  method RenderCriticisms(data: seq<Criticism>) returns (cards: seq<CriticismCard>, expanded: seq<bool>)
    ensures |cards| == |data| && |expanded| == |data|
    ensures forall i :: 0 <= i < |data| ==>
      cards[i].className == "criticism-card " + data[i].severity
      && cards[i].index == i && cards[i].category == data[i].category && cards[i].source == data[i].source
      && cards[i].detailsHtml == DetailsHtml(data[i].details)
    ensures forall i :: 0 <= i < |data| ==> !expanded[i]
  {
    cards := [];
    expanded := [];
    var i := 0;
    while i < |data|
      invariant 0 <= i <= |data| && |cards| == i && |expanded| == i
      invariant forall j :: 0 <= j < i ==>
        cards[j].className == "criticism-card " + data[j].severity
        && cards[j].index == j && cards[j].category == data[j].category && cards[j].source == data[j].source
        && cards[j].detailsHtml == DetailsHtml(data[j].details)
      invariant forall j :: 0 <= j < i ==> !expanded[j]
    {
      var c := data[i];
      cards := cards + [CriticismCard("criticism-card " + c.severity, i, c.category, c.source, DetailsHtml(c.details))];
      expanded := expanded + [false];
      i := i + 1;
    }
  }

  /** A click on card i: `classList.toggle('expanded')` on that card only. */
  function ToggleCard(expanded: seq<bool>, i: nat): (r: seq<bool>)
    requires i < |expanded|
    ensures |r| == |expanded| && r[i] == !expanded[i]
    ensures forall j :: 0 <= j < |r| && j != i ==> r[j] == expanded[j]
  {
    expanded[i := !expanded[i]]
  }

  /** Two clicks on the same card restore every card. */
  lemma ToggleCardTwice(expanded: seq<bool>, i: nat)
    requires i < |expanded|
    ensures ToggleCard(ToggleCard(expanded, i), i) == expanded
  {
    assert ToggleCard(ToggleCard(expanded, i), i) == expanded[i := expanded[i]];
  }
}

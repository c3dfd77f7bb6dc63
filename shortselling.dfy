/** The short-selling page: the profit badges that open one details popup
    at a time, the document click that closes them all from outside, and
    the hero's parallax and fade while it is still on screen. */
module ShortSelling {
  import opened Options
  import RealMath
  import Schedule

  /** `document.getElementById(id)` over the popups' ids in document order:
      the first element with that id. */
  function FirstWithId(ids: seq<string>, id: string): (r: Option<nat>)
    ensures r.Some? ==> r.value < |ids| && ids[r.value] == id && forall j :: 0 <= j < r.value ==> ids[j] != id
    ensures r.None? ==> forall j :: 0 <= j < |ids| ==> ids[j] != id
  {
    if ids == [] then None
    else if ids[0] == id then Some(0)
    else
      var r := FirstWithId(ids[1..], id);
      assert forall j :: 1 <= j < |ids| ==> ids[j] == ids[1..][j - 1];
      if r.None? then None else Some(r.value + 1)
  }

  /** The `.details-popup` elements: their ids and 'active' classes. */
  class Popups {
    const ids: seq<string>
    var active: seq<bool>

    /** At most one popup is open, and an open popup is the one its id
        finds. */
    ghost predicate Valid()
      reads this
    {
      |active| == |ids|
      && (forall i, j :: 0 <= i < |active| && 0 <= j < |active| && active[i] && active[j] ==> i == j)
      && (forall i :: 0 <= i < |active| && active[i] ==> FirstWithId(ids, ids[i]) == Some(i))
    }

    constructor (ids0: seq<string>)
      ensures Valid() && ids == ids0 && |active| == |ids0|
      ensures forall i :: 0 <= i < |active| ==> !active[i]
    {
      ids := ids0;
      active := seq(|ids0|, _ => false);
    }

    /** A click on a badge whose `data-details` is `detailsId`: every popup
        with another id closes, then the popup `details-<detailsId>`, if it
        exists, toggles. */
    method BadgeClick(detailsId: string)
      requires Valid()
      modifies this
      ensures Valid()
      ensures var target := FirstWithId(ids, "details-" + detailsId);
        (target.None? ==> forall i :: 0 <= i < |active| ==> !active[i] || (old(active[i]) && ids[i] == "details-" + detailsId))
        && (target.Some? ==> active[target.value] == !old(active[target.value])
                             && forall i :: 0 <= i < |active| && i != target.value ==> !active[i])
    {
      var id := "details-" + detailsId;
      var i := 0;
      while i < |active|
        invariant 0 <= i <= |active| == |old(active)|
        invariant forall j :: 0 <= j < i && ids[j] != id ==> !active[j]
        invariant forall j :: 0 <= j < |active| && (j >= i || ids[j] == id) ==> active[j] == old(active)[j]
      {
        if ids[i] != id {
          active := active[i := false];
        }
        i := i + 1;
      }
      var target := FirstWithId(ids, id);
      if target.Some? {
        var t := target.value;
        active := active[t := !active[t]];
      }
    }

    /** A click anywhere: outside every badge and popup it closes every
        popup; inside one it does nothing here. */
    method DocumentClick(insideBadge: bool, insidePopup: bool)
      requires Valid()
      modifies this
      ensures Valid() && |active| == |old(active)|
      ensures !insideBadge && !insidePopup ==> forall i :: 0 <= i < |active| ==> !active[i]
      ensures insideBadge || insidePopup ==> active == old(active)
    {
      if !insideBadge && !insidePopup {
        var i := 0;
        while i < |active|
          invariant 0 <= i <= |active| == |old(active)|
          invariant forall j :: 0 <= j < i ==> !active[j]
          invariant forall j :: i <= j < |active| ==> active[j] == old(active)[j]
        {
          active := active[i := false];
          i := i + 1;
        }
      }
    }
  }

  /** A second click on the same badge closes the popup it opened. */
  method ClickTwice(ids: seq<string>, detailsId: string) returns (openAfterFirst: bool, openAfterSecond: bool)
    requires FirstWithId(ids, "details-" + detailsId).Some?
    ensures openAfterFirst && !openAfterSecond
  {
    var p := new Popups(ids);
    var t := FirstWithId(ids, "details-" + detailsId).value;
    p.BadgeClick(detailsId);
    openAfterFirst := p.active[t];
    p.BadgeClick(detailsId);
    openAfterSecond := p.active[t];
  }

  /** The hero's `translateY` and opacity. */
  datatype HeroStyle = HeroStyle(translate: real, opacity: real)

  /** The scroll handler, given the hero's `offsetHeight` when the page has
      a hero: while the hero is still partly on screen (`scrolled <
      offsetHeight`) it moves at 0.3 of the scroll and fades in proportion;
      past it, or with no hero, the styles are left as they are. */
  function OnScroll(scrolled: real, hero: Option<real>): (r: Option<HeroStyle>)
    requires scrolled >= 0.0
    ensures r.Some? <==> hero.Some? && scrolled < hero.value
    ensures r.Some? ==> 0.0 < r.value.opacity <= 1.0 && r.value.translate == scrolled * 0.3
    ensures r.Some? ==> (r.value.opacity == 1.0 <==> scrolled == 0.0)
  {
    if hero.Some? && scrolled < hero.value then
      var offsetHeight := hero.value;
      var ratio := scrolled / offsetHeight;
      assert ratio * offsetHeight == scrolled;
      assert (1.0 - ratio) * offsetHeight == offsetHeight - scrolled;
      assert 0.0 <= ratio < 1.0 by {
        if ratio >= 1.0 { RealMath.MulNonneg(ratio - 1.0, offsetHeight); }
        if ratio < 0.0 { RealMath.MulNonneg(-ratio, offsetHeight); }
      }
      Some(HeroStyle(scrolled * 0.3, 1.0 - ratio))
    else None
  }

  /** Scrolling further fades the hero further. */
  lemma FadeMonotone(a: real, b: real, offsetHeight: real)
    requires 0.0 <= a <= b < offsetHeight
    ensures OnScroll(b, Some(offsetHeight)).value.opacity <= OnScroll(a, Some(offsetHeight)).value.opacity
  {
    assert a / offsetHeight <= b / offsetHeight by {
      assert (b / offsetHeight - a / offsetHeight) * offsetHeight == b - a;
    }
  }

  /** The process steps' `animationDelay` (index times 0.1 s, here in
      milliseconds) and the Bessent cards' reveal timeouts (index times
      100 ms). */
  method PageDelays(processSteps: nat, bessentCards: nat) returns (stepDelays: seq<nat>, cardDelays: seq<nat>)
    ensures |stepDelays| == processSteps && |cardDelays| == bessentCards
    ensures forall i :: 0 <= i < processSteps ==> stepDelays[i] == i * 100
    ensures forall i :: 0 <= i < bessentCards ==> cardDelays[i] == i * 100
  {
    stepDelays := Schedule.Stagger(processSteps, 100);
    cardDelays := Schedule.Stagger(bessentCards, 100);
  }
}

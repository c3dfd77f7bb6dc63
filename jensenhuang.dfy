/** The leadership-principles page (Jensen Huang): principle cards whose
    details expand and collapse, tracked in the module-level set
    `expandedCards`; Escape collapsing every expanded card; arrow-key focus
    movement between cards; the highlighted navigation link and the
    navigation background opacity. */
module JensenHuang {
  import opened Options

  /** A `.principle-card`: its `data-id` and whether it holds a
      `.card-details` element. */
  datatype Card = Card(id: string, hasDetails: bool)

  /** The set after `expandedCards.delete(id)` or `expandedCards.add(id)`,
      whichever `toggleCardDetails` chooses. */
  function Toggled(s: set<string>, id: string): (r: set<string>)
    ensures id in r <==> id !in s
    ensures forall x :: x != id ==> (x in r <==> x in s)
  {
    if id in s then s - {id} else s + {id}
  }

  /** Two toggles of the same card restore the set. */
  lemma ToggleTwiceRestores(s: set<string>, id: string)
    ensures Toggled(Toggled(s, id), id) == s
  {
    var t := Toggled(Toggled(s, id), id);
    assert forall x :: x in t <==> x in s;
  }

  /** `document.querySelector('[data-id="id"]')`: the first card in
      document order carrying that id, if any. */
  function FindCard(cards: seq<Card>, id: string): (r: Option<nat>)
    ensures r.Some? ==>
      r.value < |cards| && cards[r.value].id == id && forall j :: 0 <= j < r.value ==> cards[j].id != id
    ensures r.None? ==> forall j :: 0 <= j < |cards| ==> cards[j].id != id
  {
    FindCardFrom(cards, id, 0)
  }

  function FindCardFrom(cards: seq<Card>, id: string, from: nat): (r: Option<nat>)
    requires from <= |cards|
    requires forall j :: 0 <= j < from ==> cards[j].id != id
    ensures r.Some? ==>
      from <= r.value < |cards| && cards[r.value].id == id && forall j :: 0 <= j < r.value ==> cards[j].id != id
    ensures r.None? ==> forall j :: 0 <= j < |cards| ==> cards[j].id != id
    decreases |cards| - from
  {
    if from == |cards| then None
    else if cards[from].id == id then Some(from)
    else FindCardFrom(cards, id, from + 1)
  }

  /** The card an Escape press collapses for `id`: found, and with details. */
  predicate Collapsible(cards: seq<Card>, id: string) {
    var k := FindCard(cards, id);
    k.Some? && cards[k.value].hasDetails
  }

  /** ArrowDown: `(i + 1) % n`. */
  function WrapNext(i: nat, n: nat): (r: nat)
    requires i < n
    ensures r < n
    ensures r == 0 <==> i == n - 1
    ensures i < n - 1 ==> r == i + 1
  {
    (i + 1) % n
  }

  /** ArrowUp: `i === 0 ? n - 1 : i - 1`. */
  function WrapPrev(i: nat, n: nat): (r: nat)
    requires i < n
    ensures r < n
    ensures r == n - 1 <==> i == 0
    ensures i > 0 ==> r == i - 1
  {
    if i == 0 then n - 1 else i - 1
  }

  /** ArrowUp undoes ArrowDown and ArrowDown undoes ArrowUp. */
  lemma WrapInverse(i: nat, n: nat)
    requires i < n
    ensures WrapPrev(WrapNext(i, n), n) == i
    ensures WrapNext(WrapPrev(i, n), n) == i
  {
  }

  datatype ArrowKey = ArrowDown | ArrowUp

  /** What the arrow handler focuses given `currentIndex`, the result of
      `allCards.indexOf(focusedElement)`: -1 when the focused card is not in
      the list, which is always the case once the cards have been replaced
      by their clones. A `Some` index names an entry of that stale list.
      `None` is `allCards[nextIndex]` being `undefined`, where the
      `.focus()` call throws and nothing is focused. */
  function ArrowFocus(key: ArrowKey, currentIndex: int, n: nat): (r: Option<nat>)
    requires n > 0 && -1 <= currentIndex < n
    ensures r.Some? ==> r.value < n
    ensures 0 <= currentIndex ==> r.Some?
    ensures 0 <= currentIndex && key == ArrowDown ==> r == Some(WrapNext(currentIndex, n))
    ensures 0 <= currentIndex && key == ArrowUp ==> r == Some(WrapPrev(currentIndex, n))
  {
    var next := if key == ArrowDown then (currentIndex + 1) % n
                else if currentIndex == 0 then n - 1 else currentIndex - 1;
    if 0 <= next < n then Some(next) else None
  }

  /** With the stale list, ArrowDown always names stale card 0, a detached
      original whose `focus()` leaves the focus where it was, and ArrowUp
      reads `allCards[-2]`, which is `undefined`, so the call throws. Either
      way the focus does not move. */
  lemma StaleListFocus(n: nat)
    requires n > 0
    ensures ArrowFocus(ArrowDown, -1, n) == Some(0)
    ensures ArrowFocus(ArrowUp, -1, n) == None
  {
  }

  /** A `section`: its id, `offsetTop` and `offsetHeight`. */
  datatype Section = Section(id: string, top: real, height: real)

  /** `scrollPosition >= sectionTop && scrollPosition < sectionTop + sectionHeight` */
  predicate Holds(s: Section, probe: real) { s.top <= probe < s.top + s.height }

  /** The `sections.forEach` of `updateActiveNavLink` from section `from`
      on, as a fold: the active section after the pass and whether the link
      classes were rewritten on the way. */
  function NavPass(sections: seq<Section>, probe: real, active: string, from: nat): (string, bool)
    requires from <= |sections|
    decreases |sections| - from
  {
    if from == |sections| then (active, false)
    else if Holds(sections[from], probe) && active != sections[from].id then
      (NavPass(sections, probe, sections[from].id, from + 1).0, true)
    else NavPass(sections, probe, active, from + 1)
  }

  /** The link classes are rewritten exactly when some section holding the
      probe has an id other than the active one. */
  lemma {:induction false} RelinkWhen(sections: seq<Section>, probe: real, active: string, from: nat)
    requires from <= |sections|
    ensures NavPass(sections, probe, active, from).1 <==>
      exists j :: from <= j < |sections| && Holds(sections[j], probe) && sections[j].id != active
    decreases |sections| - from
  {
    if from < |sections| {
      RelinkWhen(sections, probe, active, from + 1);
    }
  }

  /** Without a rewrite the active section stays as it was; with one, it is
      the id of a section that holds the probe. */
  lemma {:induction false} PassResult(sections: seq<Section>, probe: real, active: string, from: nat)
    requires from <= |sections|
    ensures var (a, relinked) := NavPass(sections, probe, active, from);
      (!relinked ==> a == active)
      && (relinked ==> exists j :: from <= j < |sections| && Holds(sections[j], probe) && sections[j].id == a)
    decreases |sections| - from
  {
    if from < |sections| {
      PassResult(sections, probe, active, from + 1);
      if Holds(sections[from], probe) && active != sections[from].id {
        PassResult(sections, probe, sections[from].id, from + 1);
      }
    }
  }

  /** `Math.min(scrolled / 100, 0.95)` */
  function NavOpacity(scrolled: real): (r: real)
    ensures r <= 0.95
    ensures r == 0.95 <==> scrolled >= 95.0
    ensures scrolled < 95.0 ==> r == scrolled / 100.0
    ensures scrolled >= 0.0 ==> r >= 0.0
  {
    if scrolled / 100.0 < 0.95 then scrolled / 100.0 else 0.95
  }

  /** The page's state: `expandedCards`, `activeSection`, and the attributes
      and classes the handlers write. Card k's `aria-expanded`, and whether
      its details carry 'visible' and 'hidden', are `ariaExpanded[k]`,
      `detailsVisible[k]` and `detailsHidden[k]`; link i carries 'active'
      when `linkActive[i]`. */
  class Page {
    const cards: seq<Card>
    const linkHrefs: seq<string>
    var expanded: set<string>
    var ariaExpanded: seq<bool>
    var detailsVisible: seq<bool>
    var detailsHidden: seq<bool>
    var activeSection: string
    var linkActive: seq<bool>

    ghost predicate Valid()
      reads this
    {
      |ariaExpanded| == |detailsVisible| == |detailsHidden| == |cards|
      && |linkActive| == |linkHrefs|
    }

    /** The state once the script has loaded and `DOMContentLoaded` has run:
        nothing expanded and the active section 'hero'. The cards are the
        clones the top-level loop put in place while the script loaded,
        before `initializePrincipleCards` ran; that function writes
        `aria-expanded="false"`, `tabindex` and `role` on the detached
        originals it still holds, so a live card keeps whatever
        `aria-expanded` its markup gave it, `aria0[k]`. */
    constructor (cards0: seq<Card>, hrefs: seq<string>, aria0: seq<bool>, visible0: seq<bool>, hidden0: seq<bool>, active0: seq<bool>)
      requires |aria0| == |visible0| == |hidden0| == |cards0| && |active0| == |hrefs|
      ensures Valid()
      ensures cards == cards0 && linkHrefs == hrefs && expanded == {}
      ensures ariaExpanded == aria0
      ensures detailsVisible == visible0 && detailsHidden == hidden0 && linkActive == active0
      ensures activeSection == "hero"
    {
      cards := cards0;
      linkHrefs := hrefs;
      expanded := {};
      ariaExpanded := aria0;
      detailsVisible := visible0;
      detailsHidden := hidden0;
      activeSection := "hero";
      linkActive := active0;
    }

    /** `toggleCardDetails(card)` for card k. */
    method ToggleCardDetails(k: nat)
      requires Valid() && k < |cards|
      modifies this
      ensures Valid()
      ensures !cards[k].hasDetails ==>
        expanded == old(expanded) && ariaExpanded == old(ariaExpanded)
        && detailsVisible == old(detailsVisible) && detailsHidden == old(detailsHidden)
      ensures cards[k].hasDetails ==>
        expanded == Toggled(old(expanded), cards[k].id)
        && ariaExpanded == old(ariaExpanded)[k := cards[k].id in expanded]
        && detailsVisible == old(detailsVisible)[k := cards[k].id in expanded]
        && detailsHidden == old(detailsHidden)[k := cards[k].id !in expanded]
      ensures activeSection == old(activeSection) && linkActive == old(linkActive)
    {
      var card := cards[k];
      if !card.hasDetails {
        return;
      }
      if card.id in expanded {
        detailsVisible := detailsVisible[k := false];
        detailsHidden := detailsHidden[k := true];
        expanded := expanded - {card.id};
        ariaExpanded := ariaExpanded[k := false];
      } else {
        detailsHidden := detailsHidden[k := false];
        detailsVisible := detailsVisible[k := true];
        expanded := expanded + {card.id};
        ariaExpanded := ariaExpanded[k := true];
      }
    }

    /** `toggleCardDetailsAccessible(card)`: the state the announcement
        reports, `None` when the card has no details and nothing is
        announced. */
    method ToggleCardDetailsAccessible(k: nat) returns (announced: Option<bool>)
      requires Valid() && k < |cards|
      modifies this
      ensures Valid()
      ensures announced.Some? <==> cards[k].hasDetails
      ensures announced.Some? ==>
        announced.value == (cards[k].id !in old(expanded))
        && announced.value == (cards[k].id in expanded)
        && expanded == Toggled(old(expanded), cards[k].id)
        && ariaExpanded == old(ariaExpanded)[k := announced.value]
        && detailsVisible == old(detailsVisible)[k := announced.value]
        && detailsHidden == old(detailsHidden)[k := !announced.value]
      ensures announced.None? ==>
        expanded == old(expanded) && ariaExpanded == old(ariaExpanded)
        && detailsVisible == old(detailsVisible) && detailsHidden == old(detailsHidden)
      ensures activeSection == old(activeSection) && linkActive == old(linkActive)
    {
      if !cards[k].hasDetails {
        return None;
      }
      var isExpanded := cards[k].id in expanded;
      ToggleCardDetails(k);
      announced := Some(!isExpanded);
    }

    /** The Escape handler: `expandedCards.forEach` toggling the card each id
        finds. Deleting the visited id during `forEach` does not disturb
        the iteration, so every id present at the start is visited once. */
    method CollapseAll()
      requires Valid()
      modifies this
      ensures Valid()
      ensures expanded == set id | id in old(expanded) && !Collapsible(cards, id)
      ensures forall k :: 0 <= k < |cards| ==>
        if FindCard(cards, cards[k].id) == Some(k) && cards[k].hasDetails && cards[k].id in old(expanded)
        then !ariaExpanded[k] && !detailsVisible[k] && detailsHidden[k]
        else (ariaExpanded[k] == old(ariaExpanded[k]) && detailsVisible[k] == old(detailsVisible[k])
          && detailsHidden[k] == old(detailsHidden[k]))
      ensures activeSection == old(activeSection) && linkActive == old(linkActive)
    {
      ghost var start := expanded;
      ghost var aria0, visible0, hidden0 := ariaExpanded, detailsVisible, detailsHidden;
      var pending := expanded;
      while pending != {}
        invariant Valid()
        invariant pending <= start
        invariant expanded == pending + set id | id in start && id !in pending && !Collapsible(cards, id)
        invariant forall k :: 0 <= k < |cards| ==>
          if FindCard(cards, cards[k].id) == Some(k) && cards[k].hasDetails
            && cards[k].id in start && cards[k].id !in pending
          then !ariaExpanded[k] && !detailsVisible[k] && detailsHidden[k]
          else ariaExpanded[k] == aria0[k] && detailsVisible[k] == visible0[k] && detailsHidden[k] == hidden0[k]
        invariant activeSection == old(activeSection) && linkActive == old(linkActive)
        decreases pending
      {
        var id :| id in pending;
        pending := pending - {id};
        var found := FindCard(cards, id);
        if found.Some? {
          ToggleCardDetails(found.value);
        }
      }
    }

    /** `updateActiveNavLink` with `scrollPosition = scrollY + 100`. */
    method UpdateActiveNavLink(sections: seq<Section>, scrollY: real)
      requires Valid()
      modifies this
      ensures Valid()
      ensures activeSection == NavPass(sections, scrollY + 100.0, old(activeSection), 0).0
      ensures NavPass(sections, scrollY + 100.0, old(activeSection), 0).1 ==>
        forall i :: 0 <= i < |linkHrefs| ==> (linkActive[i] <==> linkHrefs[i] == "#" + activeSection)
      ensures !NavPass(sections, scrollY + 100.0, old(activeSection), 0).1 ==> linkActive == old(linkActive)
      ensures expanded == old(expanded) && ariaExpanded == old(ariaExpanded)
      ensures detailsVisible == old(detailsVisible) && detailsHidden == old(detailsHidden)
    {
      var probe := scrollY + 100.0;
      ghost var relinked := false;
      ghost var active0 := activeSection;
      var i := 0;
      while i < |sections|
        invariant 0 <= i <= |sections|
        invariant Valid()
        invariant NavPass(sections, probe, active0, 0).0 == NavPass(sections, probe, activeSection, i).0
        invariant NavPass(sections, probe, active0, 0).1 == (relinked || NavPass(sections, probe, activeSection, i).1)
        invariant relinked ==>
          forall j :: 0 <= j < |linkHrefs| ==> (linkActive[j] <==> linkHrefs[j] == "#" + activeSection)
        invariant !relinked ==> linkActive == old(linkActive)
        invariant expanded == old(expanded) && ariaExpanded == old(ariaExpanded)
        invariant detailsVisible == old(detailsVisible) && detailsHidden == old(detailsHidden)
      {
        var section := sections[i];
        if section.top <= probe < section.top + section.height {
          if activeSection != section.id {
            activeSection := section.id;
            linkActive := seq(|linkHrefs|, j requires 0 <= j < |linkHrefs| => linkHrefs[j] == "#" + section.id);
            relinked := true;
          }
        }
        i := i + 1;
      }
    }
  }
}

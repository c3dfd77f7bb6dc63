/** The harsh-truths page: the truth-card accordion, driven by clicks on a
    card, clicks on its expand button (which stop the event there), and
    Enter or Space on the button, which click it. */
module HarshTruths {

  /** No two cards are expanded. */
  predicate AtMostOne(s: seq<bool>) {
    forall i, j :: 0 <= i < |s| && 0 <= j < |s| && s[i] && s[j] ==> i == j
  }

  /** The classes after one run of the handler body on card `k`: every
      other card loses 'expanded' and card `k` toggles it. */
  function AfterToggle(s: seq<bool>, k: nat): (r: seq<bool>)
    requires k < |s|
    ensures |r| == |s| && AtMostOne(r)
    ensures r[k] == !s[k]
    ensures forall i :: 0 <= i < |s| && i != k ==> !r[i]
  {
    seq(|s|, i => if i == k then !s[k] else false)
  }

  /** Clicking the expanded card leaves none expanded; clicking any other
      card leaves exactly that one expanded. */
  lemma ToggleOutcome(s: seq<bool>, k: nat)
    requires k < |s|
    ensures s[k] ==> forall i :: 0 <= i < |s| ==> !AfterToggle(s, k)[i]
    ensures !s[k] ==> forall i :: 0 <= i < |s| ==> (AfterToggle(s, k)[i] <==> i == k)
  {
  }

  /** A second click on the same card gives it back its state and leaves
      every other card closed. */
  lemma ToggleTwice(s: seq<bool>, k: nat)
    requires k < |s|
    ensures forall i :: 0 <= i < |s| ==> (AfterToggle(AfterToggle(s, k), k)[i] <==> i == k && s[k])
  {
  }

  /** Where a click lands. */
  datatype ClickTarget = ExpandButton | CardBody

  /** A key pressed on an expand button. */
  datatype Key = Enter | Space | OtherKey

  /** The `.truth-card` elements' 'expanded' classes. */
  class Accordion {
    var expanded: seq<bool>

    ghost predicate Valid()
      reads this
    {
      AtMostOne(expanded)
    }

    constructor (n: nat)
      ensures Valid() && |expanded| == n && forall i :: 0 <= i < n ==> !expanded[i]
    {
      expanded := seq(n, _ => false);
    }

    /** The body both click handlers share: close every other expanded
        card, then toggle this one. */
    method CloseOthersAndToggle(k: nat)
      requires k < |expanded|
      modifies this
      ensures expanded == AfterToggle(old(expanded), k)
    {
      var i := 0;
      while i < |expanded|
        invariant 0 <= i <= |expanded| == |old(expanded)|
        invariant forall j :: 0 <= j < i && j != k ==> !expanded[j]
        invariant forall j :: i <= j < |expanded| || j == k ==> 0 <= j < |expanded| ==> expanded[j] == old(expanded)[j]
      {
        if i != k && expanded[i] {
          expanded := expanded[i := false];
        }
        i := i + 1;
      }
      expanded := expanded[k := !expanded[k]];
    }

    /** A click inside card `k`. On the expand button its handler runs and
        stops the event, so the card's own handler does not run after it;
        elsewhere in the card only the card's handler runs. Either way the
        card toggles once. */
    method Click(k: nat, target: ClickTarget)
      requires Valid() && k < |expanded|
      modifies this
      ensures Valid() && expanded == AfterToggle(old(expanded), k)
    {
      // Whether the event bubbles up to the card's own handler; the expand
      // button's handler calls `stopPropagation`, which clears it.
      var reachesCard := true;
      if target == ExpandButton {
        reachesCard := false;
        CloseOthersAndToggle(k);
      }
      if reachesCard {
        CloseOthersAndToggle(k);
      }
    }

    /** A keypress on card `k`'s expand button: Enter and Space call
        `expandBtn.click()`, which is a click on the button; other keys do
        nothing. */
    method KeyPress(k: nat, key: Key)
      requires Valid() && k < |expanded|
      modifies this
      ensures Valid()
      ensures key != OtherKey ==> expanded == AfterToggle(old(expanded), k)
      ensures key == OtherKey ==> expanded == old(expanded)
    {
      if key == Enter || key == Space {
        Click(k, ExpandButton);
      }
    }
  }
}

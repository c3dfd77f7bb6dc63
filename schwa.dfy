/** The Dutch schwa page: the rule examples whose final 'e' is highlighted
    for two seconds, the back-to-top button that exists while the page is
    scrolled past 500 px, the tooltips wrapped around the key terms, the
    reading-progress bar and the cards' staggered entrance. */
module Schwa {
  import opened Text
  import RealMath
  import Schedule

  // Markup

  /** The rest of `s` after the first '>' (a tag's remainder), or nothing
      when the tag is not closed. */
  function SkipTag(s: string): (r: string)
    ensures |r| <= |s|
  {
    if s == [] then []
    else if s[0] == '>' then s[1..]
    else SkipTag(s[1..])
  }

  /** The text of a piece of markup: everything outside its tags. */
  function StripTags(s: string): string
    decreases |s|
  {
    if s == [] then []
    else if s[0] == '<' then StripTags(SkipTag(s[1..]))
    else [s[0]] + StripTags(s[1..])
  }

  lemma {:induction false} SkipTagOf(x: string, rest: string)
    requires '>' !in x
    ensures SkipTag(x + ">" + rest) == rest
  {
    if x == [] {
      assert (x + ">" + rest)[1..] == rest;
    } else {
      assert (x + ">" + rest)[1..] == x[1..] + ">" + rest;
      SkipTagOf(x[1..], rest);
    }
  }

  /** Text without a '<' is its own markup. */
  lemma {:induction false} StripPlain(a: string, rest: string)
    requires '<' !in a
    ensures StripTags(a + rest) == a + StripTags(rest)
  {
    if a != [] {
      assert (a + rest)[0] == a[0];
      assert (a + rest)[1..] == a[1..] + rest;
      StripPlain(a[1..], rest);
      assert a == [a[0]] + a[1..];
    } else {
      assert a + rest == rest;
    }
  }

  /** A tag `<x>` contributes no text. */
  lemma StripTag(x: string, rest: string)
    requires '>' !in x
    ensures StripTags("<" + x + ">" + rest) == StripTags(rest)
  {
    var s := "<" + x + ">" + rest;
    assert s[1..] == x + ">" + rest;
    SkipTagOf(x, rest);
  }

  // Rule examples

  /** The closing tag of every span the page writes. */
  const CloseSpan: string := "</span>"

  lemma StripCloseSpan(rest: string)
    ensures StripTags(CloseSpan + rest) == StripTags(rest)
  {
    assert CloseSpan + rest == "<" + "/span" + ">" + rest;
    StripTag("/span", rest);
  }

  /** The opening tag around a highlighted 'e': `<span class="highlighted-e">`. */
  const HighlightTag: string := "span class=" + "\"highlighted-e\""
  const HighlightOpen: string := "<" + HighlightTag + ">"

  lemma HighlightTagPlain()
    ensures '>' !in HighlightTag
  {
    assert '>' !in "span class=";
    assert '>' !in "\"highlighted-e\"";
  }

  /** What a rule example span holds: its plain text, or that text with the
      final 'e' wrapped in a highlight span. */
  datatype Content = Plain(text: string) | Highlighted(text: string)

  /** The element's `textContent`: the highlight span still holds the 'e',
      so highlighting does not change it. */
  function TextContent(c: Content): string {
    c.text
  }

  /** The element's `innerHTML`: `text.slice(0, -1)` followed by the
      highlight span around 'e'. */
  function InnerHtml(c: Content): string
  {
    match c
    case Plain(s) => s
    case Highlighted(s) =>
      (if |s| > 0 then s[..|s| - 1] else s) + HighlightOpen + "e" + CloseSpan
  }

  /** The text of the highlight span is the 'e'. */
  lemma StripHighlight()
    ensures StripTags(HighlightOpen + "e" + CloseSpan) == "e"
  {
    HighlightTagPlain();
    assert HighlightOpen + "e" + CloseSpan == "<" + HighlightTag + ">" + ("e" + CloseSpan);
    StripTag(HighlightTag, "e" + CloseSpan);
    StripPlain("e", CloseSpan);
    StripCloseSpan([]);
  }

  /** The highlighted markup begins with everything before the final 'e',
      and its text is the example's text again. */
  lemma HighlightKeepsText(s: string)
    requires EndsWith(s, 'e') && '<' !in s
    ensures InnerHtml(Highlighted(s))[..|s| - 1] == s[..|s| - 1]
    ensures StripTags(InnerHtml(Highlighted(s))) == s
  {
    var stem := s[..|s| - 1];
    var span := HighlightOpen + "e" + CloseSpan;
    assert InnerHtml(Highlighted(s)) == stem + span;
    assert '<' !in stem by {
      forall i | 0 <= i < |stem| ensures stem[i] != '<' {
        assert stem[i] == s[i];
      }
    }
    StripPlain(stem, span);
    StripHighlight();
    assert s == stem + "e";
  }

  /** A `.rule-examples span` with the resets its pending 2000 ms timeouts
      will write, oldest first. */
  class RuleExample {
    ghost const original: string
    var content: Content
    var pending: seq<string>

    /** Highlighting leaves `textContent` alone, so every reset the element
        has pending writes back its original text. */
    ghost predicate Valid()
      reads this
    {
      TextContent(content) == original
      && forall i :: 0 <= i < |pending| ==> pending[i] == original
    }

    constructor (text0: string)
      ensures Valid() && original == text0 && content == Plain(text0) && pending == []
    {
      original := text0;
      content := Plain(text0);
      pending := [];
    }

    /** A click: a text ending in 'e' is rewritten with that 'e' highlighted
        and a reset to the text is scheduled; any other text is left as it
        is. */
    method Click()
      requires Valid()
      modifies this
      ensures Valid()
      ensures EndsWith(original, 'e') ==> content == Highlighted(original) && pending == old(pending) + [original]
      ensures !EndsWith(original, 'e') ==> content == old(content) && pending == old(pending)
    {
      var text := TextContent(content);
      if EndsWith(text, 'e') {
        content := Highlighted(text);
        pending := pending + [text];
      }
    }

    /** The oldest pending timeout sets `textContent` back. */
    method Reset()
      requires Valid() && pending != []
      modifies this
      ensures Valid() && content == Plain(original) && pending == old(pending[1..])
    {
      content := Plain(pending[0]);
      pending := pending[1..];
    }
  }

  /** A click and its reset bring the example back to its plain text, and so
      do two clicks in quick succession once both resets have fired. */
  method ClickAndReset(text0: string, clicks: nat) returns (final: Content, highlighted: bool)
    requires 1 <= clicks <= 2
    ensures final == Plain(text0)
    ensures highlighted <==> EndsWith(text0, 'e')
  {
    var example := new RuleExample(text0);
    example.Click();
    if clicks == 2 {
      example.Click();
    }
    highlighted := example.content.Highlighted?;
    while example.pending != []
      invariant example.Valid() && example.original == text0
      invariant example.pending == [] ==> example.content == Plain(text0)
      decreases |example.pending|
    {
      example.Reset();
    }
    final := example.content;
  }

  // Back to top

  /** The `backToTopButton` variable and the buttons it has put in the
      body and not yet removed. */
  class BackToTop {
    var button: bool
    var inBody: nat
    ghost var created: nat

    ghost predicate Valid()
      reads this
    {
      inBody == if button then 1 else 0
    }

    constructor ()
      ensures Valid() && !button && created == 0
    {
      button := false;
      inBody := 0;
      created := 0;
    }

    /** The scroll handler: past 500 px a button is created and appended
        if none exists; at 500 px or less an existing one is removed. */
    method OnScroll(scrollY: real)
      requires Valid()
      modifies this
      ensures Valid() && inBody <= 1
      ensures button <==> scrollY > 500.0
      ensures created == old(created) + if !old(button) && scrollY > 500.0 then 1 else 0
    {
      if scrollY > 500.0 {
        if !button {
          button := true;
          inBody := inBody + 1;
          created := created + 1;
        }
      } else if button {
        inBody := inBody - 1;
        button := false;
      }
    }
  }

  /** After any sequence of scroll events the body holds at most one
      back-to-top button, and holds one exactly when the latest scroll was
      past 500 px. */
  method ScrollThrough(positions: seq<real>) returns (buttons: nat)
    ensures buttons <= 1
    ensures buttons == 1 <==> |positions| > 0 && positions[|positions| - 1] > 500.0
  {
    var b := new BackToTop();
    var i := 0;
    while i < |positions|
      invariant 0 <= i <= |positions|
      invariant b.Valid()
      invariant b.button <==> i > 0 && positions[i - 1] > 500.0
    {
      b.OnScroll(positions[i]);
      i := i + 1;
    }
    buttons := b.inBody;
  }

  // Tooltips

  /** `term` matches `s` at `i` ignoring ASCII case. */
  predicate MatchesAt(s: string, term: string, i: nat) {
    i + |term| <= |s| && Lower(s[i..i + |term|]) == Lower(term)
  }

  /** `s.replace(new RegExp(term, 'gi'), repl)` for a term without regular
      expression syntax: every match, left to right and not overlapping,
      becomes `repl`. */
  function ReplaceAll(s: string, term: string, repl: string): string
    requires |term| > 0
    decreases |s|
  {
    if |s| < |term| then s
    else if MatchesAt(s, term, 0) then repl + ReplaceAll(s[|term|..], term, repl)
    else [s[0]] + ReplaceAll(s[1..], term, repl)
  }

  lemma {:induction false} ReplaceWithoutMatch(s: string, term: string, repl: string)
    requires |term| > 0
    requires forall i :: 0 <= i < |s| ==> !MatchesAt(s, term, i)
    ensures ReplaceAll(s, term, repl) == s
  {
    if |s| >= |term| {
      assert !MatchesAt(s, term, 0);
      forall i | 0 <= i < |s| - 1 ensures !MatchesAt(s[1..], term, i) {
        if i + |term| <= |s| - 1 {
          assert s[1..][i..i + |term|] == s[i + 1..i + 1 + |term|];
          assert !MatchesAt(s, term, i + 1);
        }
      }
      ReplaceWithoutMatch(s[1..], term, repl);
      assert s == [s[0]] + s[1..];
    }
  }

  lemma LowerAppend(a: string, b: string)
    ensures Lower(a + b) == Lower(a) + Lower(b)
  {
    assert forall i :: 0 <= i < |a + b| ==> Lower(a + b)[i] == (Lower(a) + Lower(b))[i];
  }

  lemma LowerSlice(s: string, i: nat, j: nat)
    requires i <= j <= |s|
    ensures Lower(s)[i..j] == Lower(s[i..j])
  {
    assert forall k :: 0 <= k < j - i ==> Lower(s)[i..j][k] == Lower(s[i..j])[k];
  }

  /** The page's lowercased `includes` test of a lowercase term holds
      exactly when the term matches somewhere ignoring case. */
  lemma ContainsIffMatches(s: string, term: string)
    requires |term| > 0 && Lower(term) == term
    ensures Contains(Lower(s), term) <==> exists i :: 0 <= i < |s| && MatchesAt(s, term, i)
  {
    if Contains(Lower(s), term) {
      var i :| 0 <= i <= |Lower(s)| && OccursAt(Lower(s), term, i);
      LowerSlice(s, i, i + |term|);
      assert MatchesAt(s, term, i);
    }
    if exists i :: 0 <= i < |s| && MatchesAt(s, term, i) {
      var i :| 0 <= i < |s| && MatchesAt(s, term, i);
      LowerSlice(s, i, i + |term|);
      assert OccursAt(Lower(s), term, i);
    }
  }

  /** The tooltip span: `<span class="tooltip" data-tooltip="…">term</span>`. */
  function TooltipOpenTag(definition: string): string {
    "span class=" + "\"tooltip\" " + "data-tooltip=\"" + definition + "\""
  }

  function TooltipSpan(term: string, definition: string): string {
    "<" + TooltipOpenTag(definition) + ">" + term + CloseSpan
  }

  lemma TooltipTagPlain(definition: string)
    requires '>' !in definition
    ensures '>' !in TooltipOpenTag(definition)
  {
    assert '>' !in "span class=";
    assert '>' !in "\"tooltip\" ";
    assert '>' !in "data-tooltip=\"";
    assert '>' !in "\"";
  }

  /** The text of a tooltip span is its term. */
  lemma StripTooltip(term: string, definition: string, rest: string)
    requires '<' !in term && '>' !in definition
    ensures StripTags(TooltipSpan(term, definition) + rest) == term + StripTags(rest)
  {
    TooltipTagPlain(definition);
    assert TooltipSpan(term, definition) + rest == "<" + TooltipOpenTag(definition) + ">" + (term + (CloseSpan + rest));
    StripTag(TooltipOpenTag(definition), term + (CloseSpan + rest));
    StripPlain(term, CloseSpan + rest);
    StripCloseSpan(rest);
  }

  /** Wrapping the matches leaves the element's text as it was, up to the
      case of the matched letters: the text of the new markup, lowercased,
      is the old text lowercased. */
  lemma {:induction false} TooltipsKeepText(s: string, term: string, definition: string)
    requires |term| > 0 && '<' !in s && '<' !in term && '>' !in definition
    ensures Lower(StripTags(ReplaceAll(s, term, TooltipSpan(term, definition)))) == Lower(s)
  {
    var span := TooltipSpan(term, definition);
    if |s| < |term| {
      StripPlain(s, []);
      assert s + [] == s;
    } else if MatchesAt(s, term, 0) {
      var rest := ReplaceAll(s[|term|..], term, span);
      assert '<' !in s[|term|..] by {
        forall i | 0 <= i < |s| - |term| ensures s[|term|..][i] != '<' {
          assert s[|term|..][i] == s[i + |term|];
        }
      }
      TooltipsKeepText(s[|term|..], term, definition);
      StripTooltip(term, definition, rest);
      LowerAppend(term, StripTags(rest));
      LowerAppend(s[..|term|], s[|term|..]);
      assert s == s[..|term|] + s[|term|..];
    } else {
      var rest := ReplaceAll(s[1..], term, span);
      assert '<' !in s[1..] by {
        forall i | 0 <= i < |s| - 1 ensures s[1..][i] != '<' {
          assert s[1..][i] == s[i + 1];
        }
      }
      TooltipsKeepText(s[1..], term, definition);
      StripPlain([s[0]], rest);
      LowerAppend([s[0]], StripTags(rest));
      LowerAppend([s[0]], s[1..]);
      assert s == [s[0]] + s[1..];
    }
  }

  /** The lowercased text never holds an upper-case letter, so the 'IPA'
      term, tested against `textContent.toLowerCase()` as written, marks
      nothing. */
  lemma UpperCaseTermNeverMatches(s: string)
    ensures !Contains(Lower(s), "IPA")
  {
    forall i | 0 <= i <= |Lower(s)| ensures !OccursAt(Lower(s), "IPA", i) {
      if i + 3 <= |s| {
        assert Lower(s)[i..i + 3][0] == LowerChar(s[i]);
      }
    }
  }

  /** The key terms and their definitions, in object key order. */
  const Unstressed: string := "unstressed"
  const UnstressedDefinition: string := "A syllable that is not emphasized when speaking"
  const Ipa: string := "IPA"
  const IpaDefinition: string := "International Phonetic Alphabet - " + "a system for writing sounds"
  const Syllable: string := "syllable"
  const SyllableDefinition: string := "A unit of sound in a word that contains a vowel sound"

  /** The page's elements: the text of each, and its `innerHTML` and whether
      it has no child elements. A leaf's markup is its text. */
  class TooltipPage {
    const texts: seq<string>
    var html: seq<string>
    var leaf: seq<bool>

    ghost predicate Valid()
      reads this
    {
      |html| == |texts| && |leaf| == |texts|
      && forall i :: 0 <= i < |texts| && leaf[i] ==> html[i] == texts[i]
    }

    constructor (texts0: seq<string>, leaf0: seq<bool>)
      requires |leaf0| == |texts0|
      ensures Valid() && texts == texts0 && leaf == leaf0
    {
      texts := texts0;
      html := texts0;
      leaf := leaf0;
    }

    /** One key term: every element still without children whose lowercased
        text contains the term has each match, in any case, replaced by the
        tooltip span, and so gains a child; nothing else changes. */
    method MarkTerm(term: string, definition: string)
      requires Valid() && |term| > 0
      modifies this
      ensures Valid() && |html| == |old(html)| && |leaf| == |old(leaf)|
      ensures forall i :: 0 <= i < |texts| ==>
        if old(leaf[i]) && Contains(Lower(texts[i]), term)
        then html[i] == ReplaceAll(texts[i], term, TooltipSpan(term, definition)) && !leaf[i]
        else html[i] == old(html[i]) && leaf[i] == old(leaf[i])
    {
      var i := 0;
      while i < |texts|
        invariant 0 <= i <= |texts|
        invariant Valid() && |html| == |old(html)| && |leaf| == |old(leaf)|
        invariant forall j :: 0 <= j < i ==>
          if old(leaf[j]) && Contains(Lower(texts[j]), term)
          then html[j] == ReplaceAll(texts[j], term, TooltipSpan(term, definition)) && !leaf[j]
          else html[j] == old(html[j]) && leaf[j] == old(leaf[j])
        invariant forall j :: i <= j < |texts| ==> html[j] == old(html[j]) && leaf[j] == old(leaf[j])
      {
        if leaf[i] && Contains(Lower(texts[i]), term) {
          html := html[i := ReplaceAll(html[i], term, TooltipSpan(term, definition))];
          leaf := leaf[i := false];
        }
        i := i + 1;
      }
    }

    /** The three terms in turn. An element marked for 'unstressed' has a
        child by the time 'syllable' is tried, so each element is marked for
        at most one term; 'IPA' marks nothing. */
    method MarkAll()
      requires Valid()
      modifies this
      ensures Valid()
      ensures forall i :: 0 <= i < |texts| ==>
        if old(leaf[i]) && Contains(Lower(texts[i]), Unstressed)
        then html[i] == ReplaceAll(texts[i], Unstressed, TooltipSpan(Unstressed, UnstressedDefinition))
        else if old(leaf[i]) && Contains(Lower(texts[i]), Syllable)
        then html[i] == ReplaceAll(texts[i], Syllable, TooltipSpan(Syllable, SyllableDefinition))
        else html[i] == old(html[i]) && leaf[i] == old(leaf[i])
    {
      MarkTerm(Unstressed, UnstressedDefinition);
      forall i | 0 <= i < |texts| ensures !Contains(Lower(texts[i]), Ipa) {
        UpperCaseTermNeverMatches(texts[i]);
      }
      MarkTerm(Ipa, IpaDefinition);
      MarkTerm(Syllable, SyllableDefinition);
    }
  }

  // Progress bar and entrance

  /** What `Math.min(scrolled, 100) + '%'` sets: a width, or a value the
      style rejects, which leaves the width as it was: NaN or -Infinity from
      a zero denominator, or a negative percentage. */
  datatype Width = Percent(p: real) | Rejected

  /** The progress bar's width for the scroll position, the body's
      `scrollHeight` and the window's `innerHeight`. The ratio is negative,
      and rejected, when the scroll and the scrollable range
      (`scrollHeight - innerHeight`) have opposite signs: a negative scroll
      on a scrollable page, or a positive one on a page shorter than the
      window. */
  function ProgressWidth(scrollY: real, scrollHeight: real, innerHeight: real): (w: Width)
    ensures w.Rejected? <==>
      (scrollHeight == innerHeight && scrollY <= 0.0)
      || (scrollHeight > innerHeight && scrollY < 0.0)
      || (scrollHeight < innerHeight && scrollY > 0.0)
    ensures w.Percent? ==> 0.0 <= w.p <= 100.0
    ensures scrollY >= 0.0 && scrollHeight > innerHeight ==>
      w.Percent? && (w.p == 100.0 <==> scrollY >= scrollHeight - innerHeight)
  {
    var range := scrollHeight - innerHeight;
    if range == 0.0 then
      // y / 0 is +Infinity for y > 0, NaN for 0 and -Infinity below.
      if scrollY > 0.0 then Percent(100.0) else Rejected
    else
      var scrolled := scrollY / range * 100.0;
      assert scrolled < 0.0 <==> (range > 0.0 && scrollY < 0.0) || (range < 0.0 && scrollY > 0.0) by {
        RealMath.QuotientSign(scrollY, range);
      }
      if range > 0.0 && scrollY >= 0.0 then
        assert scrolled >= 100.0 <==> scrollY >= range by {
          RealMath.ScaledRatioReachesHundred(scrollY, range);
        }
        Percent(if scrolled < 100.0 then scrolled else 100.0)
      else if scrolled < 0.0 then Rejected
      else
        Percent(if scrolled < 100.0 then scrolled else 100.0)
  }

  /** The entrance timeouts of the fact cards, example boxes and practice
      cards: index times 100 ms. */
  method CardDelays(cards: nat) returns (delays: seq<nat>)
    ensures |delays| == cards && forall i :: 0 <= i < cards ==> delays[i] == i * 100
  {
    delays := Schedule.Stagger(cards, 100);
  }
}

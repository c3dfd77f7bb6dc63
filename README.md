# Interactive infographic scripts, modelled in Dafny

The repository publishes thirteen standalone infographic pages, and each has
its own `app.js`. Most of each script wires up DOM nodes and CSS. The rest is
a small amount of sequential logic, and this project models that part and
proves properties of it:

- counters that advance `current` by a fixed increment on each timer or
  animation-frame tick;
- parsing of display text: digits only, digits and dots, and the
  prefix / number / suffix split;
- exclusive-selection and toggle state: accordions, popups, highlighted and
  active items, the perspective toggle, the theme, and the back-to-top
  button;
- index navigation, with and without wrapping, and `Math.min` clamps for
  widths, opacities and circle offsets;
- one-shot guards: the `animated` class, `data-animated`, module flags and
  `unobserve`.

There is one Dafny module per page. Six modules are shared by several pages:

- `Options` is the `Option` type.
- `Text` holds the regex filters (`replace(/[^0-9]/g, '')` and the like),
  `parseInt`/`parseFloat` of the filtered text, rendering of whole numbers,
  `trim`, ASCII `toLowerCase`, `indexOf` and `endsWith`.
- `Counting` is the arithmetic of a counter that adds `target / steps` per
  tick and clamps at the target.
- `Schedule` holds the `index * step` delays of staggered animations.
- `Selection` finds the first set flag, which models `querySelector('.x.active')`
  followed by `indexOf`.
- `RealMath` holds small lemmas about `Floor` and about products of reals.

**How the browser is modelled.**

- An element is a class whose fields are its classes, its text or its
  style, and a handler is a method on it.
- A timer or animation-frame callback is one `Tick()` call. `Run()` keeps
  ticking until the script stops, and proves how many ticks that takes.
- A delayed write made with `setTimeout` is either a pending value or a
  separate method, such as `Restore` or `Reset`.
- "The element became visible" is a method call. The observer's geometry is
  not modelled.
- Numbers are exact reals. `Math.floor` is `.Floor`.
- `toLocaleString`, `Intl.NumberFormat` and `toFixed` are function
  parameters. The model does not interpret them.

**Behaviour reproduced as the scripts have it.**

- Jensen Huang page: the top-level loop replaces the cards by clones while
  the script loads, before `DOMContentLoaded`. The old list is kept, so
  `initializePrincipleCards` sets `aria-expanded`, `tabindex` and `role` on
  the detached originals, and arrow navigation searches the old list. The
  index found is therefore -1. ArrowDown asks to focus stale card 0, which
  does nothing, and ArrowUp reads `allCards[-2]` and throws. See
  `JensenHuang.StaleListFocus` and `JensenHuang.Page.constructor`.
- Singapore and rare-earth pages: the observers never unobserve, so a
  counter container that scrolls back in starts a second counter on the
  text the first one is writing, and an element that moves across the
  centre gets both slide classes. See `Singapore.ScrollBackIn` and
  `RareEarth.SlidesAfter`.
- US-China page: writing `textContent` removes the `.stat-percent` span
  before the script looks for it, so the '%' is never written back. See
  `UsChina.StatCounter.Tick`.
- $550B page: once the flag is set, only the first intersecting number card
  becomes visible. See `TradeDeal.NumberCards.OnEntries`.
- Schwa page: the key term 'IPA' is compared with lower-cased text, so it
  never matches. See `Schwa.UpperCaseTermNeverMatches` and
  `Schwa.TooltipPage.MarkAll`.
- Gold page: an HQLA bar that intersects again before its 500 ms timeout
  reads back the "0%" it was just given, and stays at 0%. See
  `GoldPlay.IntersectTwiceQuickly`.
- Bessent page: the local `side` variable alternates, but no class reads it.
  See `Bessent.RenderTimeline`.

## Model

Source paths are relative to the repository root.

Pure helpers that only compute a value (for example `Singapore.EaseOutQuart`,
`Schwa.ReplaceAll`, `Bessent.ReadItems`) have no row of their own. The lemmas
and methods whose rows follow state what they compute.

| member | source | states |
|---|---|---|
| Text.Filter | docs/The_Rare_Earth_Battle_US_vs_China_-_Trade_War_Infographic/app.js:116 | A regex `replace` with a character class: the characters kept are exactly those the class admits, in order. The result is empty iff no character is admitted, and equals the input iff every character is. |
| Text.FilterTwice | docs/Singapores_Most_Intrusive_Yet_Most_Important_Social_Policy/app.js:159 | Two filters applied in turn keep exactly the characters both admit, in order. |
| Text.ParseIntOfDigits | docs/Singapores_Most_Intrusive_Yet_Most_Important_Social_Policy/app.js:70-71 | `parseInt` of the digits-only text is NaN (`None`) exactly when the text has no digit. |
| Text.NatToString | docs/US-China_Trade_Relations_Evolution_2018-2025/app.js:67 | A whole number is written as nonempty decimal digits with no leading zero, and those digits denote the number. |
| Text.IntToString | docs/Make_100Day_with_ChatGPT_amp_TikTok_-_Educational_Infographic/app.js:118-120 | The text starts with '-' exactly for a negative number. What follows is nonempty decimal digits with no leading zero, whose value is the magnitude of the number. |
| Text.ShownNumberParsesBack | docs/The_Rare_Earth_Battle_US_vs_China_-_Trade_War_Infographic/app.js:131-133 | Reading back a written number followed by a digit-free tail gives the same number, and removing the digits gives the tail. |
| Text.ParseFloatDigitsDots | docs/Chinas_Strategic_Gold_Play_HQLA_Reserves_amp_Game_Theory/app.js:389-390 | `parseFloat` of a digits-and-dots text is NaN exactly when it starts with neither a digit nor a dot followed by a digit. Otherwise the number is nonnegative. |
| Text.ParseFloatOfDecimal | docs/Chinas_Strategic_Gold_Play_HQLA_Reserves_amp_Game_Theory/app.js:389-390 | `parseFloat` of "w.f", with w nonempty digits and f digits, is the value of w plus the value of f divided by 10 to the length of f: "12.5" reads as 12.5. |
| Text.ParseFloatOfDigits | docs/Chinas_Strategic_Gold_Play_HQLA_Reserves_amp_Game_Theory/app.js:389 | On a text of digits only, `parseFloat` gives the value of those digits, and NaN for the empty text. |
| Text.IndexFrom | docs/The_AI_Geopolitics_Battle_US_vs_China/app.js:38 | `indexOf` gives the first position at or after the start where the pattern occurs, or -1 when it occurs nowhere there. |
| Text.Trim | docs/Singapores_Most_Intrusive_Yet_Most_Important_Social_Policy/app.js:157 | The trimmed text neither starts nor ends with white space, and keeps every character that is not white space. White space is ECMAScript's: tab, vertical tab, form feed, space, no-break space, the byte order mark, every space separator, and the four line terminators. |
| Text.TrimIsSlice | docs/Singapores_Most_Intrusive_Yet_Most_Important_Social_Policy/app.js:157 | What `trim` leaves is a contiguous piece s[a..b] of the text, and every character before a and from b on is white space. |
| Text.Lower | docs/What_is_the_SCHWA_SJWA_in_Dutch/app.js:306 | `toLowerCase` keeps the length and lower-cases each character in place (ASCII letters). |
| Counting.ReachedExactly | docs/The_Rare_Earth_Battle_US_vs_China_-_Trade_War_Infographic/app.js:119-128 | With `target / steps` added per tick, the running sum reaches the target exactly when the target is 0 or at least `steps` ticks have run. |
| Counting.ClampedBounds | docs/The_Rare_Earth_Battle_US_vs_China_-_Trade_War_Infographic/app.js:124-128 | The clamped value never decreases from tick to tick and stays within [0, target]. It equals the target exactly when the target has been reached. |
| Counting.ClampedStep | docs/The_Rare_Earth_Battle_US_vs_China_-_Trade_War_Infographic/app.js:124-128 | One increment takes the sum after k ticks to the sum after k+1. The `current >= target` condition holds exactly when tick k+1 reaches the target, and the clamp then gives the value after k+1 ticks. |
| Counting.ShownBounds | docs/Singapores_Most_Intrusive_Yet_Most_Important_Social_Policy/app.js:79-83 | The floored value never decreases and never exceeds floor(target). It is strictly below the target while the target is unreached, and floor(target) once reached. |
| Counting.ShownWhole | docs/The_550B_Trade_Deal_That_Backfired__Educational_Infographic/app.js:83-88 | For a whole target, the displayed number equals the target once reached and is strictly below it before. |
| Counting.FirstReachingTick | docs/Chinas_Strategic_Gold_Play_HQLA_Reserves_amp_Game_Theory/app.js:271-278 | The first tick that reaches a positive target is the first whose 16 ms multiple is at least `duration`. |
| Schedule.Stagger | docs/The_550B_Trade_Deal_That_Backfired__Educational_Infographic/app.js:17-18 | Element i of a group gets delay i * step. |
| Schedule.StaggerIsOrdered | docs/US-China_Trade_Relations_Evolution_2018-2025/app.js:37-41 | With a positive step, later elements start strictly later, by exactly (j - i) * step. |
| Selection.FirstTrue | docs/US-China_Trade_Relations_Evolution_2018-2025/app.js:197-199 | `indexOf(querySelector('.active'))`: the first flagged index, or -1 exactly when none is flagged. |
| Selection.FirstOfOnly | docs/US-China_Trade_Relations_Evolution_2018-2025/app.js:123-130 | When exactly point k is active, the index found is k. |
| Singapore.FramesToFinish | docs/Singapores_Most_Intrusive_Yet_Most_Important_Social_Policy/app.js:73-79 | With `target / 125` added per frame, the loop stops exactly at frame 125, or at the first frame for target 0. |
| Singapore.MarkKept | docs/Singapores_Most_Intrusive_Yet_Most_Important_Social_Policy/app.js:80-83 | A written number followed by the mark contains '%' exactly when the mark was added, so `includes('%')` gives the same answer on every frame. |
| Singapore.CounterAnimation.constructor | docs/Singapores_Most_Intrusive_Yet_Most_Important_Social_Policy/app.js:70-71 | The counter starts only when the text has a digit. Its target is `parseInt` of the digits-only text, and it remembers whether the text contained '%'. |
| Singapore.CounterAnimation.Tick | docs/Singapores_Most_Intrusive_Yet_Most_Important_Social_Policy/app.js:77-85 | One frame: another frame is requested exactly while the target is unreached. The text is the floored value, or the target on the last frame, followed by '%' iff the original had one. |
| Singapore.CounterAnimation.Run | docs/Singapores_Most_Intrusive_Yet_Most_Important_Social_Policy/app.js:77-87 | The frame loop ends after 125 frames (1 for target 0), having written exactly the target with its '%' mark. |
| Singapore.ScrollBackIn | docs/Singapores_Most_Intrusive_Yet_Most_Important_Social_Policy/app.js:19-38 | A container that scrolls back in after frame k (1 ≤ k < 125) of a counter towards a positive target starts a second counter towards the number then shown, on the same element. The element ends showing that number with its '%' mark. It ends with the target only when that number was 0. |
| Singapore.FirstFrames | docs/Singapores_Most_Intrusive_Yet_Most_Important_Social_Policy/app.js:73-86 | The first k frames of a counter towards a positive target leave it running on frame k, showing the floored sum of k increments. |
| Singapore.Lockstep | docs/Singapores_Most_Intrusive_Yet_Most_Important_Social_Policy/app.js:73-86 | Two counters ticking once per frame, the first one k - 1 frames ahead, stop the first on its 125th frame. The second is then either still running or has just written its own target. |
| Singapore.EaseEnds | docs/Singapores_Most_Intrusive_Yet_Most_Important_Social_Policy/app.js:133 | easeOutQuart maps 0 to 0 and 1 to 1. |
| Singapore.EaseMonotone | docs/Singapores_Most_Intrusive_Yet_Most_Important_Social_Policy/app.js:133 | easeOutQuart never decreases on [0, 1]. |
| Singapore.EaseWithinUnit | docs/Singapores_Most_Intrusive_Yet_Most_Important_Social_Policy/app.js:133 | easeOutQuart maps [0, 1] into [0, 1]. |
| Singapore.EasedStep | docs/Singapores_Most_Intrusive_Yet_Most_Important_Social_Policy/app.js:138-148 | One eased frame requests another exactly while elapsed < duration. Once it stops, the value is floor(end). |
| Singapore.EasedWithinRange | docs/Singapores_Most_Intrusive_Yet_Most_Important_Social_Policy/app.js:139-142 | With start ≤ end, every eased frame shows a value between floor(start) and floor(end). |
| Singapore.EasedNeverDecreases | docs/Singapores_Most_Intrusive_Yet_Most_Important_Social_Policy/app.js:139-142 | With start ≤ end, a later frame never shows a smaller value. |
| Singapore.CounterSuffix | docs/Singapores_Most_Intrusive_Yet_Most_Important_Social_Policy/app.js:159 | The two replacements leave exactly the characters of the text that are neither digits nor commas, in their order and number, as one filter would. |
| Singapore.SuffixAfterNumber | docs/Singapores_Most_Intrusive_Yet_Most_Important_Social_Policy/app.js:159 | A number written in front of a tail with no digit and no comma gives back exactly that tail as the suffix. |
| Singapore.CollectCounters | docs/Singapores_Most_Intrusive_Yet_Most_Important_Social_Policy/app.js:155-164 | An element gets an entry iff its trimmed text has a digit. The entry's number is `parseInt` of the digits and its suffix is the trimmed text without digits and commas. |
| Singapore.ReadCounter | docs/Singapores_Most_Intrusive_Yet_Most_Important_Social_Policy/app.js:157-163 | One element's entry exists exactly when its trimmed text has a digit, and holds the parsed number and the suffix. |
| Singapore.NextTheme | docs/Singapores_Most_Intrusive_Yet_Most_Important_Social_Policy/app.js:291 | The next theme is 'dark' or 'light' and always differs from the current one. |
| Singapore.ToggleTwiceRestores | docs/Singapores_Most_Intrusive_Yet_Most_Important_Social_Policy/app.js:290-294 | Two toggles give back the theme. |
| Singapore.ThemeController.constructor | docs/Singapores_Most_Intrusive_Yet_Most_Important_Social_Policy/app.js:281-288 | The controller starts dark. |
| Singapore.ThemeController.ToggleTheme | docs/Singapores_Most_Intrusive_Yet_Most_Important_Social_Policy/app.js:290-294 | The theme moves to the other value and stays 'dark' or 'light'. |
| Singapore.FirstSpanning | docs/Singapores_Most_Intrusive_Yet_Most_Important_Social_Policy/app.js:351-361 | The scan returns the first section whose [top, top + height] contains the probe, or 0 when none does. |
| Singapore.GetCurrentSection | docs/Singapores_Most_Intrusive_Yet_Most_Important_Social_Policy/app.js:348-362 | The `for` loop returns the index of the first section that spans the probe, else 0. |
| Singapore.NavigateToNextSection | docs/Singapores_Most_Intrusive_Yet_Most_Important_Social_Policy/app.js:328-336 | Next scrolls to the following section exactly when one exists, and does nothing otherwise. |
| Singapore.NavigateToPrevSection | docs/Singapores_Most_Intrusive_Yet_Most_Important_Social_Policy/app.js:338-346 | Prev scrolls to the preceding section exactly when one exists, and does nothing at index 0. |
| Singapore.OutsideEverySection | docs/Singapores_Most_Intrusive_Yet_Most_Important_Social_Policy/app.js:356-361 | A probe outside every section counts as section 0. |
| JensenHuang.Toggled | docs/How_Jensen_Huang_Works_-_20_Leadership_Principles/app.js:117-135 | The card's id changes membership in `expandedCards`, and every other id keeps its membership. |
| JensenHuang.ToggleTwiceRestores | docs/How_Jensen_Huang_Works_-_20_Leadership_Principles/app.js:117-135 | Two toggles of the same id give back the set. |
| JensenHuang.FindCard | docs/How_Jensen_Huang_Works_-_20_Leadership_Principles/app.js:232 | `querySelector('[data-id=…]')` finds the first card with that id, or none when no card has it. |
| JensenHuang.WrapNext | docs/How_Jensen_Huang_Works_-_20_Leadership_Principles/app.js:249 | ArrowDown moves to i + 1, wraps to 0 exactly from the last card, and stays in range. |
| JensenHuang.WrapPrev | docs/How_Jensen_Huang_Works_-_20_Leadership_Principles/app.js:251 | ArrowUp moves to i - 1, wraps to the last card exactly from card 0, and stays in range. |
| JensenHuang.WrapInverse | docs/How_Jensen_Huang_Works_-_20_Leadership_Principles/app.js:247-252 | ArrowDown and ArrowUp undo each other from every card. |
| JensenHuang.ArrowFocus | docs/How_Jensen_Huang_Works_-_20_Leadership_Principles/app.js:240-255 | For a card found in the list, the card focused is the wrapped neighbour. The result is always a valid index. |
| JensenHuang.StaleListFocus | docs/How_Jensen_Huang_Works_-_20_Leadership_Principles/app.js:244-254 | After the cards are cloned (lines 362-365), the focused card is not in the old list, so its index is -1. ArrowDown then names stale card 0, a detached node whose `focus()` does nothing. ArrowUp computes index -2, reads `undefined` and throws. |
| JensenHuang.RelinkWhen | docs/How_Jensen_Huang_Works_-_20_Leadership_Principles/app.js:59-76 | The links are rewritten exactly when some section containing scrollY + 100 has an id other than the active one. |
| JensenHuang.PassResult | docs/How_Jensen_Huang_Works_-_20_Leadership_Principles/app.js:61-78 | Without a rewrite, `activeSection` keeps its value. After a rewrite, it is the id of a section containing the probe. |
| JensenHuang.NavOpacity | docs/How_Jensen_Huang_Works_-_20_Leadership_Principles/app.js:82-85 | The nav opacity is scrollY / 100 below 95 px, and exactly 0.95 from there on. It is never above 0.95 and never negative for a nonnegative scroll. |
| JensenHuang.Page.constructor | docs/How_Jensen_Huang_Works_-_20_Leadership_Principles/app.js:89-107 | No id is expanded and the active section is 'hero'. The live cards keep the `aria-expanded` their markup gave them, because `initializePrincipleCards` runs after the clone loop (lines 362-377) and writes only to the detached originals. |
| JensenHuang.Page.ToggleCardDetails | docs/How_Jensen_Huang_Works_-_20_Leadership_Principles/app.js:111-136 | A card without details changes nothing. Otherwise its id is toggled in the set, and its aria-expanded, 'visible' and 'hidden' follow the new membership, with exactly one of the last two present. |
| JensenHuang.Page.ToggleCardDetailsAccessible | docs/How_Jensen_Huang_Works_-_20_Leadership_Principles/app.js:350-358 | The announcement is the negation of the state before the toggle, which is the new state. Nothing is announced for a card without details. |
| JensenHuang.Page.CollapseAll | docs/How_Jensen_Huang_Works_-_20_Leadership_Principles/app.js:230-236 | After Escape, `expandedCards` holds exactly the ids whose card is missing or has no details. Every collapsed card shows 'hidden' and aria-expanded false. |
| JensenHuang.Page.UpdateActiveNavLink | docs/How_Jensen_Huang_Works_-_20_Leadership_Principles/app.js:58-79 | When the section under scrollY + 100 changes, exactly the links with href '#' + id are active. Otherwise the links are unchanged. |
| AiGeopolitics.FirstDigit | docs/The_AI_Geopolitics_Battle_US_vs_China/app.js:35 | The position of the leftmost digit, which is within the text exactly when the text has a digit. |
| AiGeopolitics.MatchDigits | docs/The_AI_Geopolitics_Battle_US_vs_China/app.js:35 | `match(/\d+/)` is null exactly when the text has no digit. Otherwise it is a nonempty run of digits. |
| AiGeopolitics.IndexOfMatch | docs/The_AI_Geopolitics_Battle_US_vs_China/app.js:38 | `indexOf` of the matched digits finds the leftmost digit, the same place the match started. |
| AiGeopolitics.SplitNumber | docs/The_AI_Geopolitics_Battle_US_vs_China/app.js:35-39 | prefix + digits + suffix is the text. The prefix has no digit, the digits are a maximal nonempty run, and there is no split exactly when the text has no digit. |
| AiGeopolitics.SplitRoundTrip | docs/The_AI_Geopolitics_Battle_US_vs_China/app.js:35-39 | Splitting a digit-free prefix, a digit run and a rest that does not start with a digit gives back those three parts. |
| AiGeopolitics.SplitShownNumber | docs/The_AI_Geopolitics_Battle_US_vs_China/app.js:35-39 | Splitting prefix + n + suffix gives back the prefix, the suffix and target n. |
| AiGeopolitics.NumberElement.constructor | docs/The_AI_Geopolitics_Battle_US_vs_China/app.js:35-51 | An element gets an observer exactly when its text has a digit. |
| AiGeopolitics.NumberElement.OnIntersect | docs/The_AI_Geopolitics_Battle_US_vs_China/app.js:42-47 | The first intersection launches one animation with the split of the text and unobserves. Later intersections launch nothing, so there is at most one launch. |
| AiGeopolitics.ReachedExactly | docs/The_AI_Geopolitics_Battle_US_vs_China/app.js:58-66 | With a step of (end − start) / (duration / 16), the value reaches `end` exactly when 16·k ≥ duration, or at once when start = end. |
| AiGeopolitics.ShownBounds | docs/The_AI_Geopolitics_Battle_US_vs_China/app.js:61-67 | The shown integer never decreases and stays within [start, end]. |
| AiGeopolitics.NinetyFourTicks | docs/The_AI_Geopolitics_Battle_US_vs_China/app.js:45 | For the 1500 ms animation, the first tick with 16·k ≥ 1500 is tick 94. |
| AiGeopolitics.NumberAnimation.constructor | docs/The_AI_Geopolitics_Battle_US_vs_China/app.js:56-59 | The animation starts at `start` with the given prefix, suffix and duration. |
| AiGeopolitics.NumberAnimation.Tick | docs/The_AI_Geopolitics_Battle_US_vs_China/app.js:61-68 | The interval stays exactly while `end` is unreached, `current` never exceeds `end`, and the text is prefix + floor(current) + suffix. |
| AiGeopolitics.NumberAnimation.Run | docs/The_AI_Geopolitics_Battle_US_vs_China/app.js:56-68 | The interval clears with prefix + end + suffix written, after ceil(duration / 16) ticks (1 when start = end). |
| AiGeopolitics.ScheduleTimeline | docs/The_AI_Geopolitics_Battle_US_vs_China/app.js:107-115 | Exactly the intersecting entries of a batch get a timeout, and entry k of the batch gets k * 100 ms. |
| AiGeopolitics.TimelineOrdered | docs/The_AI_Geopolitics_Battle_US_vs_China/app.js:108-113 | Of two revealed entries, the later one in the batch appears at least 100 ms after the earlier. |
| RareEarth.TailKept | docs/The_Rare_Earth_Battle_US_vs_China_-_Trade_War_Infographic/app.js:131-133 | Removing the digits of a written number followed by a digit-free tail gives the tail, so the suffix is the same on every tick. |
| RareEarth.NonDigitsMoveAfter | docs/The_Rare_Earth_Battle_US_vs_China_-_Trade_War_Infographic/app.js:132-133 | The recomputed suffix is every non-digit of the text in order, so a prefix such as '$' moves after the number. |
| RareEarth.StatNumber.constructor | docs/The_Rare_Earth_Battle_US_vs_China_-_Trade_War_Infographic/app.js:81-83 | A stat number starts unanimated, with its text as written. |
| RareEarth.StatNumber.OnIntersect | docs/The_Rare_Earth_Battle_US_vs_China_-_Trade_War_Infographic/app.js:74-77 | Only the first intersection starts `animateNumber`, and only when the text has a digit. The target is `parseInt` of the digits, and 'animated' is set in both cases. |
| RareEarth.StatNumber.Tick | docs/The_Rare_Earth_Battle_US_vs_China_-_Trade_War_Infographic/app.js:123-134 | Each tick writes floor(current) followed by the non-digits of the previous text, which are the same on every tick. `current` never exceeds the target. |
| RareEarth.StatNumber.Run | docs/The_Rare_Earth_Battle_US_vs_China_-_Trade_War_Infographic/app.js:119-134 | The interval clears after 125 ticks (1 for target 0) with the target followed by the original non-digits. |
| RareEarth.ProgressFill.constructor | docs/The_Rare_Earth_Battle_US_vs_China_-_Trade_War_Infographic/app.js:153-155 | A bar starts unanimated at its inline width. |
| RareEarth.ProgressFill.OnIntersect | docs/The_Rare_Earth_Battle_US_vs_China_-_Trade_War_Infographic/app.js:142-149 | The first intersection sets 0% and keeps the original width for the timeout. Later intersections change nothing. |
| RareEarth.ProgressFill.Restore | docs/The_Rare_Earth_Battle_US_vs_China_-_Trade_War_Infographic/app.js:145-147 | The 300 ms timeout gives back exactly the original width. |
| RareEarth.SpanningIndex | docs/The_Rare_Earth_Battle_US_vs_China_-_Trade_War_Infographic/app.js:207-213 | `find` returns the first section whose rectangle spans y = 100, or none. |
| RareEarth.ArrowTarget | docs/The_Rare_Earth_Battle_US_vs_China_-_Trade_War_Infographic/app.js:205-228 | ArrowDown moves to i + 1 and ArrowUp to i − 1, only within range. Nothing happens when no section spans the line. |
| RareEarth.ArrowsNeverWrap | docs/The_Rare_Earth_Battle_US_vs_China_-_Trade_War_Infographic/app.js:216-220 | Nothing happens for ArrowDown from the last section or ArrowUp from the first. |
| RareEarth.SlideClass | docs/The_Rare_Earth_Battle_US_vs_China_-_Trade_War_Infographic/app.js:180-186 | The class is 'slide-in-left' exactly when rect.left < innerWidth / 2, else 'slide-in-right'. |
| RareEarth.Intersect | docs/The_Rare_Earth_Battle_US_vs_China_-_Trade_War_Infographic/app.js:175-187 | An intersection only adds classes to the element, and the one it adds is the class for its position. |
| RareEarth.ExactlyOneSlide | docs/The_Rare_Earth_Battle_US_vs_China_-_Trade_War_Infographic/app.js:182-186 | An intersection leaves exactly one of the two slide classes unless the element already carries the other side's class. |
| RareEarth.IntersectAgain | docs/The_Rare_Earth_Battle_US_vs_China_-_Trade_War_Infographic/app.js:175-187 | A repeated intersection on the same side changes nothing. |
| RareEarth.SlidesAfter | docs/The_Rare_Earth_Battle_US_vs_China_-_Trade_War_Infographic/app.js:175-187 | Because the observer never unobserves, after any run of intersections an element carries 'slide-in-left' exactly when some intersection saw it left of the centre, and 'slide-in-right' exactly when some saw it at or past the centre. A resize that moves it across therefore leaves both classes. |
| RareEarth.SlidesAfterFrom | docs/The_Rare_Earth_Battle_US_vs_China_-_Trade_War_Infographic/app.js:175-187 | The same from any starting classes: each slide class is present afterwards exactly when it was before or some intersection added it. |
| RareEarth.TimelineDelays | docs/The_Rare_Earth_Battle_US_vs_China_-_Trade_War_Infographic/app.js:87-98 | Timeline item i gets animationDelay i * 0.2 s. |
| Make100.StepSign | docs/Make_100Day_with_ChatGPT_amp_TikTok_-_Educational_Infographic/app.js:106-107 | The increment is positive, negative or zero as end is above, below or equal to start. |
| Make100.StopsExactly | docs/Make_100Day_with_ChatGPT_amp_TikTok_-_Educational_Infographic/app.js:110-115 | The stop condition holds exactly when 16·k ≥ duration, in either direction. When start = end it never fires. |
| Make100.Display | docs/Make_100Day_with_ChatGPT_amp_TikTok_-_Educational_Infographic/app.js:117-121 | With the suffix '$' the text starts with '$'; with any other suffix it ends with that suffix. |
| Make100.DisplayReadsBack | docs/Make_100Day_with_ChatGPT_amp_TikTok_-_Educational_Infographic/app.js:117-121 | For a nonnegative value and a digit-free suffix, the digit filter and `parseInt` read the shown text back as the value, whichever side the suffix is on. |
| Make100.ValueAnimation.constructor | docs/Make_100Day_with_ChatGPT_amp_TikTok_-_Educational_Infographic/app.js:105-108 | The animation starts at `start`. |
| Make100.ValueAnimation.Tick | docs/Make_100Day_with_ChatGPT_amp_TikTok_-_Educational_Infographic/app.js:110-122 | The interval stays exactly while the stop condition fails, and `current` never passes `end` in the direction of travel. It never clears when start = end, and the last write is Display(end). |
| Make100.ValueAnimation.Run | docs/Make_100Day_with_ChatGPT_amp_TikTok_-_Educational_Infographic/app.js:105-123 | For start ≠ end, the interval clears on the first tick with 16·k ≥ duration, having written Display(end). |
| Make100.ValuesBetween | docs/Make_100Day_with_ChatGPT_amp_TikTok_-_Educational_Infographic/app.js:110-121 | Before the stop, every floored value lies between start and end, and is strictly short of end going up. |
| Make100.RateCounter.constructor | docs/Make_100Day_with_ChatGPT_amp_TikTok_-_Educational_Infographic/app.js:143 | The rate counter starts at 0. |
| Make100.RateCounter.Tick | docs/Make_100Day_with_ChatGPT_amp_TikTok_-_Educational_Infographic/app.js:144-151 | After k ticks the value is 0.001·k, never above 0.04. The interval stays exactly while k < 40, and the text is `toFixed(2)` of the value. |
| Make100.RateCounter.Run | docs/Make_100Day_with_ChatGPT_amp_TikTok_-_Educational_Infographic/app.js:142-152 | The counter clears on tick 40 with `toFixed(2)` of 0.04 written. |
| Make100.MathPlanShape | docs/Make_100Day_with_ChatGPT_amp_TikTok_-_Educational_Infographic/app.js:138-153 | Six launches at 200, 400, …, 1200 ms. Value 4 is the rate counter, the others have positive durations, and only the last uses '$'. |
| Make100.MathSection.constructor | docs/Make_100Day_with_ChatGPT_amp_TikTok_-_Educational_Infographic/app.js:159 | The section starts observed, with nothing triggered. |
| Make100.MathSection.OnIntersect | docs/Make_100Day_with_ChatGPT_amp_TikTok_-_Educational_Infographic/app.js:128-157 | The section is unobserved on its first intersection. The six launches are scheduled only then, and only with at least six `.math-value` elements. |
| TradeDeal.LastFrame | docs/The_550B_Trade_Deal_That_Backfired__Educational_Infographic/app.js:77-86 | With `target / 125` added per frame, the frame loop stops exactly at frame 125, or at the first frame for target 0. |
| TradeDeal.FrameCounter.constructor | docs/The_550B_Trade_Deal_That_Backfired__Educational_Infographic/app.js:76-79 | The counter starts at 0 towards `data-target`. |
| TradeDeal.FrameCounter.Tick | docs/The_550B_Trade_Deal_That_Backfired__Educational_Infographic/app.js:81-89 | Another frame is requested exactly while `current < target`, and each such frame writes a floor below the target. The frame that reaches the target writes it. |
| TradeDeal.FrameCounter.Run | docs/The_550B_Trade_Deal_That_Backfired__Educational_Infographic/app.js:77-91 | The loop ends after 125 frames (1 for target 0) showing exactly the target. |
| TradeDeal.CountTrue | docs/The_550B_Trade_Deal_That_Backfired__Educational_Infographic/app.js:36 | The number of visible cards, which is 0 exactly when none is visible. |
| TradeDeal.NumberCards.constructor | docs/The_550B_Trade_Deal_That_Backfired__Educational_Infographic/app.js:30-31 | No card is visible and `numbersAnimated` is false. |
| TradeDeal.NumberCards.OnEntries | docs/The_550B_Trade_Deal_That_Backfired__Educational_Infographic/app.js:33-43 | `animateNumbers` starts exactly when the flag was clear and some entry intersects. Only the first such entry becomes visible; later intersecting entries, in the same batch or later, do not. |
| TradeDeal.PageDelays | docs/The_550B_Trade_Deal_That_Backfired__Educational_Infographic/app.js:17-68 | Element i gets a transition delay of i·0.1 s in the timeline, player, number and market groups, and i·0.15 s in the crisis and takeaway groups. |
| Bessent.DisplayValue | docs/Scott_Bessent_A_Critical_Profile__US_Treasury_Secretary/app.js:141-148 | Billions for a target ≥ 1e9, millions for a target ≥ 1e6, otherwise floor(current). The amount shown is current scaled by the unit. |
| Bessent.BranchFixedByTarget | docs/Scott_Bessent_A_Critical_Profile__US_Treasury_Secretary/app.js:142-148 | The display branch depends on the target only, whatever the current value. |
| Bessent.StatCounter.constructor | docs/Scott_Bessent_A_Critical_Profile__US_Treasury_Secretary/app.js:125-127 | A missing `data-prefix` or `data-suffix` becomes ''. |
| Bessent.StatCounter.OnIntersect | docs/Scott_Bessent_A_Critical_Profile__US_Treasury_Secretary/app.js:160-165 | Only the first intersection starts the counter from 0, so it starts exactly once. |
| Bessent.StatCounter.Tick | docs/Scott_Bessent_A_Critical_Profile__US_Treasury_Secretary/app.js:133-151 | The step is target / 60. `current` is clamped within [0, target], the interval stays exactly while the target is unreached, and the text is prefix + display + suffix. |
| Bessent.StatCounter.Run | docs/Scott_Bessent_A_Critical_Profile__US_Treasury_Secretary/app.js:124-152 | The counter clears after 60 ticks (1 for target 0). For a target below a million it shows prefix + target + suffix. |
| Bessent.ItemClass | docs/Scott_Bessent_A_Critical_Profile__US_Treasury_Secretary/app.js:70 | The item class is 'timeline-item', the entry's side, and 'highlight' exactly when the entry is highlighted. |
| Bessent.RenderTimeline | docs/Scott_Bessent_A_Critical_Profile__US_Treasury_Secretary/app.js:64-88 | One item per entry, in order, with the entry's class, year, icon and event. The alternating local `side` has no effect. |
| Bessent.DetailsRoundTrip | docs/Scott_Bessent_A_Critical_Profile__US_Treasury_Secretary/app.js:99 | Reading the `<li>` items back out of the joined details gives the details in order. |
| Bessent.RenderCriticisms | docs/Scott_Bessent_A_Critical_Profile__US_Treasury_Secretary/app.js:91-121 | Card i has class 'criticism-card severity', data-index i, its category and source, and one `<li>` per detail. No card starts expanded. |
| Bessent.ToggleCard | docs/Scott_Bessent_A_Critical_Profile__US_Treasury_Secretary/app.js:115-117 | A click flips 'expanded' on that card only. |
| Bessent.ToggleCardTwice | docs/Scott_Bessent_A_Critical_Profile__US_Treasury_Secretary/app.js:115-117 | Two clicks give back the cards' states. |
| UsChina.InitialIndexValid | docs/US-China_Trade_Relations_Evolution_2018-2025/app.js:31 | There are five entries, and the initial index 4 names the last one. |
| UsChina.ArrowTarget | docs/US-China_Trade_Relations_Evolution_2018-2025/app.js:196-206 | ArrowRight moves only while index < n − 1 and ArrowLeft only while index > 0, each by one step, never out of range. |
| UsChina.Timeline.constructor | docs/US-China_Trade_Relations_Evolution_2018-2025/app.js:118-123 | No point is active, the detail box is shown, and nothing is pending. |
| UsChina.Timeline.ShowDetail | docs/US-China_Trade_Relations_Evolution_2018-2025/app.js:117-133 | Exactly point i is active afterwards, so the active index is i (or -1 when i is out of range). The box fades out, and the content update for i is pending. |
| UsChina.Timeline.ApplyDetail | docs/US-China_Trade_Relations_Evolution_2018-2025/app.js:134-138 | The timeout writes `timelineData[i]`'s title and description and shows the box. For an index past the data the read throws, and nothing is written. |
| UsChina.Timeline.OnKey | docs/US-China_Trade_Relations_Evolution_2018-2025/app.js:196-206 | The keydown handler shows the arrow target of the current index when there is one, and changes nothing otherwise. |
| UsChina.NoActivePoint | docs/US-China_Trade_Relations_Evolution_2018-2025/app.js:199-205 | With no active point, ArrowRight selects point 0 and ArrowLeft does nothing. |
| UsChina.ArrowsInverse | docs/US-China_Trade_Relations_Evolution_2018-2025/app.js:201-205 | ArrowRight then ArrowLeft comes back, and so does ArrowLeft then ArrowRight. Neither key moves past an end. |
| UsChina.StatCounter.constructor | docs/US-China_Trade_Relations_Evolution_2018-2025/app.js:58-60 | The counter starts at 0 with or without its '%' span. |
| UsChina.StatCounter.Tick | docs/US-China_Trade_Relations_Evolution_2018-2025/app.js:61-72 | The step is target / 50, clamped at the target. The text is floor(current), and the '%' span is gone after the first write. |
| UsChina.StatCounter.Run | docs/US-China_Trade_Relations_Evolution_2018-2025/app.js:58-73 | The interval clears after 50 ticks (1 for target 0). It shows the target without '%'. |
| UsChina.ProgressBarTimers | docs/US-China_Trade_Relations_Evolution_2018-2025/app.js:35-43 | Bar i receives its own data-width after i·200 ms. |
| UsChina.StatTimers | docs/US-China_Trade_Relations_Evolution_2018-2025/app.js:46-55 | Card i starts its counter towards its data-count after i·100 ms. |
| UsChina.ExpandButton.constructor | docs/US-China_Trade_Relations_Evolution_2018-2025/app.js:84 | The content starts collapsed, with the plus icon and the 'What are Rare Earth Elements?' caption. |
| UsChina.ExpandButton.ToggleExpand | docs/US-China_Trade_Relations_Evolution_2018-2025/app.js:76-91 | The content, the icon and the caption flip together, and the caption always matches the state. |
| GoldPlay.TimelineHighlight.constructor | docs/Chinas_Strategic_Gold_Play_HQLA_Reserves_amp_Game_Theory/app.js:46 | No item starts highlighted. |
| GoldPlay.TimelineHighlight.HighlightItem | docs/Chinas_Strategic_Gold_Play_HQLA_Reserves_amp_Game_Theory/app.js:114-121 | Exactly the clicked item is highlighted afterwards. |
| GoldPlay.Tooltips.constructor | docs/Chinas_Strategic_Gold_Play_HQLA_Reserves_amp_Game_Theory/app.js:45-48 | The page starts with no tooltip. |
| GoldPlay.Tooltips.Hide | docs/Chinas_Strategic_Gold_Play_HQLA_Reserves_amp_Game_Theory/app.js:107-112 | Removing the first tooltip leaves none, since at most one exists. |
| GoldPlay.Tooltips.Show | docs/Chinas_Strategic_Gold_Play_HQLA_Reserves_amp_Game_Theory/app.js:63-97 | The old tooltip is removed before the new one is appended, so exactly the new one exists. |
| GoldPlay.Counter.constructor | docs/Chinas_Strategic_Gold_Play_HQLA_Reserves_amp_Game_Theory/app.js:269-272 | The counter starts at 0. |
| GoldPlay.Counter.Tick | docs/Chinas_Strategic_Gold_Play_HQLA_Reserves_amp_Game_Theory/app.js:274-281 | The step is target / (duration / 16). `current` is clamped within [0, target], the interval stays exactly while the target is unreached, and each write is the formatted value. |
| GoldPlay.Counter.Run | docs/Chinas_Strategic_Gold_Play_HQLA_Reserves_amp_Game_Theory/app.js:269-282 | The interval clears with the formatted target, on the first tick at or past `duration` ms (tick 1 for target 0). |
| GoldPlay.MetricCounterEndsBeforeRestore | docs/Chinas_Strategic_Gold_Play_HQLA_Reserves_amp_Game_Theory/app.js:392-395 | The 1500 ms metric counter clears on tick 94, at 1504 ms, before the 1600 ms restore. |
| GoldPlay.MetricValue.constructor | docs/Chinas_Strategic_Gold_Play_HQLA_Reserves_amp_Game_Theory/app.js:385-386 | A metric value starts unanimated with its written text. |
| GoldPlay.MetricValue.OnIntersect | docs/Chinas_Strategic_Gold_Play_HQLA_Reserves_amp_Game_Theory/app.js:384-397 | Only the first intersection sets data-animated and parses the digits and dots. A number resets the text to '0', starts the counter and keeps the text for the restore. NaN leaves the text unchanged. |
| GoldPlay.MetricValue.Write | docs/Chinas_Strategic_Gold_Play_HQLA_Reserves_amp_Game_Theory/app.js:280 | A counter write replaces the text and keeps the text saved for the restore. |
| GoldPlay.MetricValue.Restore | docs/Chinas_Strategic_Gold_Play_HQLA_Reserves_amp_Game_Theory/app.js:393-395 | After 1600 ms the original text comes back verbatim. |
| GoldPlay.Bar.constructor | docs/Chinas_Strategic_Gold_Play_HQLA_Reserves_amp_Game_Theory/app.js:256 | A bar starts at its inline width with no pending timeout. |
| GoldPlay.Bar.OnIntersect | docs/Chinas_Strategic_Gold_Play_HQLA_Reserves_amp_Game_Theory/app.js:245-252 | Every intersection, with no guard, sets 0% and queues the width it read. |
| GoldPlay.Bar.Restore | docs/Chinas_Strategic_Gold_Play_HQLA_Reserves_amp_Game_Theory/app.js:249-251 | The oldest 500 ms timeout writes the width it was given. |
| GoldPlay.IntersectOnce | docs/Chinas_Strategic_Gold_Play_HQLA_Reserves_amp_Game_Theory/app.js:243-252 | One intersection and its timeout give back the bar's width. |
| GoldPlay.IntersectTwiceQuickly | docs/Chinas_Strategic_Gold_Play_HQLA_Reserves_amp_Game_Theory/app.js:243-252 | A second intersection within 500 ms reads back 0%, so the bar ends at 0%. |
| ChinaDebt.Perspective.constructor | docs/Is_Chinas_Debt_Out_of_Control__Interactive_Infographic/app.js:35-37 | Optimist content starts shown and pessimist content hidden. The colours are set exactly when a button starts active (line 173). |
| ChinaDebt.Perspective.ShowGroups | docs/Is_Chinas_Debt_Out_of_Control__Interactive_Infographic/app.js:25-31 | Optimist content is shown iff the view is 'optimist', and pessimist content is shown iff it is not. |
| ChinaDebt.Perspective.UpdateColors | docs/Is_Chinas_Debt_Out_of_Control__Interactive_Infographic/app.js:150-166 | With an active button, the side it chooses gets opacity 1 and the other 0.7. Without one, nothing changes. |
| ChinaDebt.Perspective.Click | docs/Is_Chinas_Debt_Out_of_Control__Interactive_Infographic/app.js:16-33 | After a click, exactly that button is active and the content groups are complementary for its view. Its side is emphasised (second listener, lines 169-171). |
| ChinaDebt.EmphasisExclusive | docs/Is_Chinas_Debt_Out_of_Control__Interactive_Infographic/app.js:155-164 | Exactly one of the two sections has opacity 1, the strengths side exactly for the optimist view. |
| ChinaDebt.BarWidth | docs/Is_Chinas_Debt_Out_of_Control__Interactive_Infographic/app.js:56 | The width is p / 256 · 100, clamped at 100. It is exactly 100 iff p ≥ 256, and nonnegative for p ≥ 0. |
| ChinaDebt.BarWidthMonotone | docs/Is_Chinas_Debt_Out_of_Control__Interactive_Infographic/app.js:56 | A larger percentage never gives a narrower bar. |
| ChinaDebt.CircleOffset | docs/Is_Chinas_Debt_Out_of_Control__Interactive_Infographic/app.js:69-71 | Below 100 the offset is (100 - p) / 100 of the 314 circumference. It lies in [0, 314] for p ≥ 0 and is 0 exactly when p ≥ 100. |
| ChinaDebt.CircleOffsetAntitone | docs/Is_Chinas_Debt_Out_of_Control__Interactive_Infographic/app.js:69-71 | A larger percentage never gives a larger offset. |
| ChinaDebt.TopicOf | docs/Is_Chinas_Debt_Out_of_Control__Interactive_Infographic/app.js:89 | A `data-target` names a topic exactly when it is one of the four keys. |
| ChinaDebt.TextLengths | docs/Is_Chinas_Debt_Out_of_Control__Interactive_Infographic/app.js:93-110 | Every long text has at least 200 characters and every short text fewer. |
| ChinaDebt.LearnMore.constructor | docs/Is_Chinas_Debt_Out_of_Control__Interactive_Infographic/app.js:86-91 | The card starts with its written description and caption. |
| ChinaDebt.LearnMore.Click | docs/Is_Chinas_Debt_Out_of_Control__Interactive_Infographic/app.js:100-113 | A short text becomes the long one with 'Show Less', and a long text becomes the short one with 'Learn More'. Once the card shows one of its own texts, clicks alternate between them with the caption following. |
| HarshTruths.AfterToggle | docs/Harsh_Truths_About_Learning_AI_in_2025/app.js:40-61 | After the handler body, the card has flipped and every other card is closed, so at most one card is expanded. |
| HarshTruths.ToggleOutcome | docs/Harsh_Truths_About_Learning_AI_in_2025/app.js:40-61 | Clicking the expanded card leaves none expanded; clicking any other card leaves exactly that one expanded. |
| HarshTruths.ToggleTwice | docs/Harsh_Truths_About_Learning_AI_in_2025/app.js:40-61 | A second click on the same card gives it back its state, with all others closed. |
| HarshTruths.Accordion.constructor | docs/Harsh_Truths_About_Learning_AI_in_2025/app.js:32 | No card starts expanded. |
| HarshTruths.Accordion.CloseOthersAndToggle | docs/Harsh_Truths_About_Learning_AI_in_2025/app.js:53-61 | The `forEach` loop closes the other expanded cards, then the card toggles. |
| HarshTruths.Accordion.Click | docs/Harsh_Truths_About_Learning_AI_in_2025/app.js:37-62 | A button click stops propagation, so the card handler does not also run. Either target toggles the card exactly once and keeps at most one expanded. |
| HarshTruths.Accordion.KeyPress | docs/Harsh_Truths_About_Learning_AI_in_2025/app.js:104-113 | Enter or Space on the button acts exactly as a click; any other key changes nothing. |
| ShortSelling.FirstWithId | docs/Short_Selling_Betting_Against_the_Market/app.js:36 | `getElementById` finds the first popup with that id, or none when no popup has it. |
| ShortSelling.Popups.constructor | docs/Short_Selling_Betting_Against_the_Market/app.js:31 | No popup starts active. |
| ShortSelling.Popups.BadgeClick | docs/Short_Selling_Betting_Against_the_Market/app.js:33-55 | Every popup with another id closes, then `details-<id>` toggles, so at most one popup is active. When that popup does not exist, the others are still closed and nothing else changes. |
| ShortSelling.Popups.DocumentClick | docs/Short_Selling_Betting_Against_the_Market/app.js:123-131 | A click outside every badge and popup closes all popups. A click inside a badge or popup changes nothing here. |
| ShortSelling.ClickTwice | docs/Short_Selling_Betting_Against_the_Market/app.js:46-47 | The first click on a badge opens its popup and a second click closes it. |
| ShortSelling.OnScroll | docs/Short_Selling_Betting_Against_the_Market/app.js:112-120 | The hero styles change exactly while scrolled < offsetHeight. The hero then moves 0.3 of the scroll, and its opacity stays in (0, 1], being 1 only at the top. |
| ShortSelling.FadeMonotone | docs/Short_Selling_Betting_Against_the_Market/app.js:118 | Scrolling further never makes the hero more opaque. |
| ShortSelling.PageDelays | docs/Short_Selling_Betting_Against_the_Market/app.js:14-16 | Process step i gets animationDelay i·0.1 s, and Bessent card i is revealed after i·100 ms (lines 155-160). |
| Schwa.HighlightKeepsText | docs/What_is_the_SCHWA_SJWA_in_Dutch/app.js:205-207 | The highlighted markup keeps everything before the final 'e', and its text, with the tags removed, is the original. |
| Schwa.RuleExample.constructor | docs/What_is_the_SCHWA_SJWA_in_Dutch/app.js:200-203 | A rule example starts as its plain text. |
| Schwa.RuleExample.Click | docs/What_is_the_SCHWA_SJWA_in_Dutch/app.js:203-233 | A text ending in 'e' gets its final 'e' wrapped in the highlight span and schedules a reset. Any other text is untouched. |
| Schwa.RuleExample.Reset | docs/What_is_the_SCHWA_SJWA_in_Dutch/app.js:230-232 | The 2 s reset writes back exactly the original text. |
| Schwa.ClickAndReset | docs/What_is_the_SCHWA_SJWA_in_Dutch/app.js:203-232 | After one or two clicks and their resets, the example is its original plain text. It was highlighted exactly when the text ends in 'e'. |
| Schwa.BackToTop.constructor | docs/What_is_the_SCHWA_SJWA_in_Dutch/app.js:247 | There is no button at first. |
| Schwa.BackToTop.OnScroll | docs/What_is_the_SCHWA_SJWA_in_Dutch/app.js:249-291 | A button exists exactly when scrollY > 500, and at most one is in the body. A new one is created only when none existed. |
| Schwa.ScrollThrough | docs/What_is_the_SCHWA_SJWA_in_Dutch/app.js:249-291 | After any scroll sequence there is at most one button, and one exactly when the latest position was above 500. |
| Schwa.ReplaceWithoutMatch | docs/What_is_the_SCHWA_SJWA_in_Dutch/app.js:307-310 | A text with no case-insensitive occurrence of the term is left as it is by the global replace. |
| Schwa.ContainsIffMatches | docs/What_is_the_SCHWA_SJWA_in_Dutch/app.js:306-308 | For a lower-case term, the `includes` condition on the lower-cased text holds exactly when the `gi` regex has a match. |
| Schwa.TooltipsKeepText | docs/What_is_the_SCHWA_SJWA_in_Dutch/app.js:306-310 | Wrapping every match in a tooltip span keeps the element's text up to case: each match is respelled as the key term. |
| Schwa.UpperCaseTermNeverMatches | docs/What_is_the_SCHWA_SJWA_in_Dutch/app.js:299-306 | No lower-cased text contains 'IPA', so that key term never marks anything. |
| Schwa.TooltipPage.constructor | docs/What_is_the_SCHWA_SJWA_in_Dutch/app.js:304 | The elements start with their texts and leaf flags. |
| Schwa.TooltipPage.MarkTerm | docs/What_is_the_SCHWA_SJWA_in_Dutch/app.js:304-312 | Exactly the childless elements whose lower-cased text contains the term get the replaced markup, and stop being childless. Every other element is unchanged. |
| Schwa.TooltipPage.MarkAll | docs/What_is_the_SCHWA_SJWA_in_Dutch/app.js:303-313 | A leaf containing 'unstressed' is marked for it; otherwise a leaf containing 'syllable' for that. 'IPA' marks nothing, and every other element is unchanged. |
| Schwa.ProgressWidth | docs/What_is_the_SCHWA_SJWA_in_Dutch/app.js:381-382 | The value is rejected exactly when there is nothing to scroll and the scroll is not positive, or when the scroll and the scrollable range have opposite signs, which gives a negative percentage. Any width set lies in [0, 100]. For a scrollable page and a nonnegative scroll it is 100 exactly at or past the bottom. |
| Schwa.CardDelays | docs/What_is_the_SCHWA_SJWA_in_Dutch/app.js:24-33 | Card i's entrance runs after i·100 ms. |

## Left out

- IntersectionObserver geometry (thresholds, root margins). "Became visible" is an input event to a method.
- Timer, animation-frame and debounce scheduling. Ticks are explicit calls, and delays are recorded numbers only.
- IEEE-754 arithmetic. All arithmetic is on exact reals, so the tick counts proved (125, 94, 60, 50, 40) are those of exact arithmetic, and a float sum could stop one tick later or earlier.
- Number-to-text rendering assumes no exponent form and no negative zero: whole numbers render as their decimal digits.
- `toLocaleString`, `Intl.NumberFormat` and `toFixed` are foreign formatting. They are function parameters.
- `data-target` and `data-count` attributes are taken as already-parsed whole numbers. The NaN and negative cases of those `parseInt` calls are not modelled.
- CSS and inline styles: transforms, transitions, shadows, glow, particles, pulse, hover and tilt effects, the entry fade-ins and the body's loading opacity.
- Smooth scrolling, `scrollIntoView`, focus movement beyond the index chosen, clipboard, print, alerts and console logging.
- Unicode case folding. `toLowerCase` is modelled on ASCII letters only.
- String lengths count Unicode code points, while JavaScript's `.length` counts UTF-16 code units. The two agree only on text without characters above U+FFFF. So `ChinaDebt.LearnMore.Click`'s `textContent.length < 200` test is exact only for such text; the page's own long and short texts are ASCII.
- RareEarth.Intersect: the class list is a set, so the order in which classes were added is not modelled.
- `innerHTML` parsing and escaping: a childless element's markup is taken to be its text. The regex of the tooltip marking is modelled only for the literal key terms.
- Spans created by the tooltip marking are not examined again by the later terms. `querySelectorAll` runs again for each term, so the 'IPA' and 'syllable' passes do see the new spans, but a span's text is 'unstressed', which contains neither term. An element already marked has a child, so it fails `children.length === 0`.
- Singapore: `animateValue` is defined but never called, and is modelled for its arithmetic only. The progress bars (lines 40-63) and parallax are not modelled.
- Singapore section navigation returns the index it scrolls to; the scrolling itself is left out.
- Singapore.CounterAnimation.Run: proves the end state of one counter on its element. Repeated visibility is modelled by `Singapore.ScrollBackIn` for one re-entry during a run towards a positive target. Further re-entries, and re-entry after the counter has finished, are not modelled; after it has finished the text already shows the target, so a new run counts up to it again.
- Jensen Huang: the `cloneNode` listener replacement is modelled only for its effects on navigation indices and on the cards' initial `aria-expanded`. The `tabindex` and `role` writes that miss the live cards, the announcement element and its timeout are not modelled.
- AiGeopolitics.NumberElement.OnIntersect: handles one entry per call. `unobserve` does not drop entries already queued in the same batch, so two intersecting entries for one element in one batch would each call `animateNumber`. The model ignores the second entry, as it ignores later intersections.
- AiGeopolitics.NumberAnimation.constructor: requires start ≤ end, since the page only calls `animateNumber(element, 0, target, …)`; a falling range is not modelled. The hero parallax (lines 86-94) is not modelled.
- Rare earth: the hero parallax and scroll indicator (lines 46-65), the card click effects, and hover effects are not modelled.
- Make100: the copy button (lines 29-65) and the hero parallax (lines 92-102) are not modelled. Entries of the same batch after the `unobserve` are treated like later intersections.
- Bessent: the sections' opacity and transform writes and the tilt effect are not modelled.
- US-China: the number of timeline points is a parameter. `animateStats` and `animateProgressBars` schedule new timers on every intersection, and each run is modelled separately. The hero parallax is not modelled.
- UsChina.Timeline.ShowDetail: keeps one pending content update. Two clicks within 200 ms queue two timeouts in the source, and both run in order; the model keeps only the last. The final content is the same, but the moment between the two timeouts, when the first event's content is shown while the second point is active, is not modelled.
- GoldPlay.TimelineHighlight.HighlightItem: takes the hovered item itself. The script passes `e.target`, which could be a child of the item.
- Gold: the staggered observation of cards (lines 35-42), the network pulse, the parallax, the scroll indicator and the particle effect are not modelled.
- China debt: the progress bar (lines 2-7) is not modelled. The bar width and circle offset are computed, but their 200 ms delayed writes are not modelled.
- Harsh truths: the progress bar, the stat pulse and the stats-scroll indicator are not modelled.
- ShortSelling.OnScroll: requires a nonnegative scroll offset, since `pageYOffset` is never negative.
- Schwa: the practice cards, the pronunciation effects and the schwa-symbol effects are not modelled.

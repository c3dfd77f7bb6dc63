/** The China-debt page: the optimist/pessimist toggle with its content
    groups and section opacities, the debt-bar width and circle offset
    computed from a card's percentage, and the learn-more buttons that swap
    a card's description between its short and long text. */
module ChinaDebt {
  import opened Options
  import Selection

  /** The view a toggle button's `data-view` names. */
  predicate IsOptimist(view: string) { view == "optimist" }

  /** The toggle buttons, the `display` of every element of the two content
      groups (true for 'block'), and the opacities of the strengths and
      concerns sections, unset until first written. */
  class Perspective {
    const views: seq<string>
    var active: seq<bool>
    var optimistShown: seq<bool>
    var pessimistShown: seq<bool>
    var strengthsOpacity: real
    var concernsOpacity: real
    var colorsSet: bool
    ghost var optimistView: bool

    /** The two groups are each uniform and complementary. */
    ghost predicate Valid()
      reads this
    {
      |active| == |views|
      && (forall i :: 0 <= i < |optimistShown| ==> optimistShown[i] == optimistView)
      && (forall i :: 0 <= i < |pessimistShown| ==> pessimistShown[i] == !optimistView)
    }

    /** Page load: every optimist element is shown and every pessimist one
        hidden; `updatePerspectiveColors` then runs on the buttons as the
        markup marks them. */
    constructor (views0: seq<string>, active0: seq<bool>, optimists: nat, pessimists: nat)
      requires |active0| == |views0|
      ensures Valid() && views == views0 && active == active0
      ensures |optimistShown| == optimists && |pessimistShown| == pessimists
      ensures forall i :: 0 <= i < optimists ==> optimistShown[i]
      ensures forall i :: 0 <= i < pessimists ==> !pessimistShown[i]
      ensures var k := Selection.FirstTrue(active0);
        (k == -1 ==> !colorsSet)
        && (k >= 0 ==> colorsSet && Emphasis(views0[k], strengthsOpacity, concernsOpacity))
    {
      views := views0;
      active := active0;
      optimistShown := seq(optimists, _ => true);
      pessimistShown := seq(pessimists, _ => false);
      strengthsOpacity, concernsOpacity := 1.0, 1.0;
      colorsSet := false;
      optimistView := true;
      new;
      UpdateColors();
    }

    /** Sets the `display` of every element of both groups. */
    method ShowGroups(optimist: bool)
      modifies this
      ensures active == old(active)
      ensures strengthsOpacity == old(strengthsOpacity) && concernsOpacity == old(concernsOpacity)
      ensures colorsSet == old(colorsSet) && optimistView == optimist
      ensures |optimistShown| == |old(optimistShown)| && |pessimistShown| == |old(pessimistShown)|
      ensures forall i :: 0 <= i < |optimistShown| ==> optimistShown[i] == optimist
      ensures forall i :: 0 <= i < |pessimistShown| ==> pessimistShown[i] == !optimist
    {
      optimistView := optimist;
      var i := 0;
      while i < |optimistShown|
        invariant 0 <= i <= |optimistShown| == |old(optimistShown)|
        invariant forall j :: 0 <= j < i ==> optimistShown[j] == optimist
        invariant pessimistShown == old(pessimistShown) && active == old(active) && optimistView == optimist
        invariant strengthsOpacity == old(strengthsOpacity) && concernsOpacity == old(concernsOpacity)
        invariant colorsSet == old(colorsSet)
      {
        optimistShown := optimistShown[i := optimist];
        i := i + 1;
      }
      i := 0;
      while i < |pessimistShown|
        invariant 0 <= i <= |pessimistShown| == |old(pessimistShown)|
        invariant forall j :: 0 <= j < i ==> pessimistShown[j] == !optimist
        invariant |optimistShown| == |old(optimistShown)|
        invariant forall j :: 0 <= j < |optimistShown| ==> optimistShown[j] == optimist
        invariant active == old(active) && optimistView == optimist
        invariant strengthsOpacity == old(strengthsOpacity) && concernsOpacity == old(concernsOpacity)
        invariant colorsSet == old(colorsSet)
      {
        pessimistShown := pessimistShown[i := !optimist];
        i := i + 1;
      }
    }

    /** `updatePerspectiveColors()`: with an active button, the section its
        view favours gets opacity 1 and the other 0.7; with none, nothing
        changes. */
    method UpdateColors()
      modifies this
      ensures active == old(active)
      ensures optimistShown == old(optimistShown) && pessimistShown == old(pessimistShown)
      ensures optimistView == old(optimistView)
      ensures var k := Selection.FirstTrue(active);
        (k == -1 ==> strengthsOpacity == old(strengthsOpacity) && concernsOpacity == old(concernsOpacity)
                     && colorsSet == old(colorsSet))
        && (k >= 0 ==> k < |views| ==> colorsSet && Emphasis(views[k], strengthsOpacity, concernsOpacity))
    {
      var k := Selection.FirstTrue(active);
      if k >= 0 && k < |views| {
        if IsOptimist(views[k]) {
          strengthsOpacity, concernsOpacity := 1.0, 0.7;
        } else {
          strengthsOpacity, concernsOpacity := 0.7, 1.0;
        }
        colorsSet := true;
      }
    }

    /** A click on button `b`: its two listeners in order. The first leaves
        exactly `b` active and shows the group its view names, hiding the
        other; the second sets the opacities for that view. */
    method Click(b: nat)
      requires Valid() && b < |views|
      modifies this
      ensures Valid()
      ensures Selection.Only(active, b)
      ensures |optimistShown| == |old(optimistShown)| && |pessimistShown| == |old(pessimistShown)|
      ensures forall i :: 0 <= i < |optimistShown| ==> optimistShown[i] == IsOptimist(views[b])
      ensures forall i :: 0 <= i < |pessimistShown| ==> pessimistShown[i] == !IsOptimist(views[b])
      ensures colorsSet && Emphasis(views[b], strengthsOpacity, concernsOpacity)
    {
      var i := 0;
      while i < |active|
        invariant 0 <= i <= |active| == |old(active)|
        invariant forall j :: 0 <= j < i ==> !active[j]
        invariant optimistShown == old(optimistShown) && pessimistShown == old(pessimistShown)
      {
        active := active[i := false];
        i := i + 1;
      }
      active := active[b := true];
      ShowGroups(IsOptimist(views[b]));
      Selection.FirstOfOnly(active, b);
      UpdateColors();
    }
  }

  /** The opacities `updatePerspectiveColors` writes for a view. */
  predicate Emphasis(view: string, strengths: real, concerns: real) {
    if IsOptimist(view) then strengths == 1.0 && concerns == 0.7
    else strengths == 0.7 && concerns == 1.0
  }

  /** Exactly one of the two sections is emphasised, and the favoured one
      is the strengths section iff the view is 'optimist'. */
  lemma EmphasisExclusive(view: string, strengths: real, concerns: real)
    requires Emphasis(view, strengths, concerns)
    ensures (strengths == 1.0) != (concerns == 1.0)
    ensures strengths == 1.0 <==> IsOptimist(view)
  {
  }

  /** `Math.min((percentage / 256) * 100, 100)`: Japan's 256% fills the
      bar. */
  function BarWidth(p: real): (w: real)
    ensures w <= 100.0
    ensures p >= 0.0 ==> w >= 0.0
    ensures p >= 256.0 <==> w == 100.0
    ensures p < 256.0 ==> w * 256.0 == p * 100.0
  {
    var scaled := (p / 256.0) * 100.0;
    if scaled < 100.0 then scaled else 100.0
  }

  /** A larger percentage never gives a narrower bar. */
  lemma BarWidthMonotone(p: real, q: real)
    requires p <= q
    ensures BarWidth(p) <= BarWidth(q)
  {
  }

  /** `314 - (Math.min(percentage, 100) / 100) * 314` */
  function CircleOffset(p: real): (o: real)
    ensures p >= 0.0 ==> 0.0 <= o <= 314.0
    ensures p >= 100.0 <==> o == 0.0
    ensures p <= 0.0 ==> o >= 314.0
    ensures p < 100.0 ==> o * 100.0 == (100.0 - p) * 314.0
  {
    var shown := if p < 100.0 then p else 100.0;
    314.0 - (shown / 100.0) * 314.0
  }

  /** A larger percentage closes more of the circle. */
  lemma CircleOffsetAntitone(p: real, q: real)
    requires p <= q
    ensures CircleOffset(q) <= CircleOffset(p)
  {
  }

  /** The `data-target` values of the learn-more buttons. */
  datatype Topic = Total | Government | Corporate | Household

  /** The topic a `data-target` names; the page's buttons name only these
      four. */
  function TopicOf(key: string): (t: Option<Topic>)
    ensures t.Some? <==> key in {"total", "government", "corporate", "household"}
  {
    if key == "total" then Some(Total)
    else if key == "government" then Some(Government)
    else if key == "corporate" then Some(Corporate)
    else if key == "household" then Some(Household)
    else None
  }

  /** `details[target]` */
  function LongText(t: Topic): string {
    match t
    case Total => ("Total debt includes public, private, corporate, "
      + "household, and local government debt. At 312% of GDP, "
      + "this is on the higher end globally. However, IMF "
      + "estimates tend to be bearish. This figure includes all "
      + "forms of debt across the economy, making it seem larger "
      + "than comparable government-only metrics.")
    case Government => ("Central government debt at 88% GDP is significantly "
      + "lower than the USA (124%) and Japan (256%). This is the "
      + "most commonly cited debt metric. China's government has "
      + "significant control over monetary policy, allowing "
      + "flexible management. Much of this debt funds "
      + "infrastructure with long-term ROI.")
    case Corporate => ("Corporate debt at 160% of GDP is high, but crucially, "
      + "most is loans from state-owned banks to state-owned "
      + "enterprises. This gives the government leverage to "
      + "restructure, write off, or manage these debts without "
      + "systemic risk. China can also sell state assets to "
      + "reduce this burden if needed.")
    case Household => ("Household debt at 63% of GDP is very moderate compared "
      + "to Western standards. Chinese households save "
      + "approximately $66 trillion USD - far more than they "
      + "owe. High savings rates provide a cushion against "
      + "economic shocks and reduce default risk. Unlike the US, "
      + "student loans and medical debt are minimal.")
  }

  /** `shortDescriptions[target]` */
  function ShortText(t: Topic): string {
    match t
    case Total => ("Includes public, private, local government debt. IMF "
      + "estimate, likely on higher end.")
    case Government => "Central government debt only. Much lower than US and Japan."
    case Corporate => ("Mostly state-owned enterprise loans from state banks. "
      + "Can be restructured.")
    case Household => ("Very moderate. Households save more than spend ($66 "
      + "trillion in savings).")
  }

  /** Every long text has at least 200 characters and every short one
      fewer, so the length test always tells which one is showing. */
  lemma TextLengths(t: Topic)
    ensures |LongText(t)| >= 200 && |ShortText(t)| < 200
  {
    match t
    case Total => TotalLengths();
    case Government => GovernmentLengths();
    case Corporate => CorporateLengths();
    case Household => HouseholdLengths();
  }

  lemma TotalLengths()
    ensures |LongText(Total)| >= 200 && |ShortText(Total)| < 200
  {
  }

  lemma GovernmentLengths()
    ensures |LongText(Government)| >= 200 && |ShortText(Government)| < 200
  {
  }

  lemma CorporateLengths()
    ensures |LongText(Corporate)| >= 200 && |ShortText(Corporate)| < 200
  {
  }

  lemma HouseholdLengths()
    ensures |LongText(Household)| >= 200 && |ShortText(Household)| < 200
  {
  }

  /** A debt card's description and its learn-more button. */
  class LearnMore {
    const topic: Topic
    var description: string
    var caption: string

    /** The description is the short or the long text of the card, and the
        caption tracks which. */
    ghost predicate Tracking()
      reads this
    {
      (description == ShortText(topic) && caption == "Learn More")
      || (description == LongText(topic) && caption == "Show Less")
    }

    constructor (topic0: Topic, description0: string, caption0: string)
      ensures topic == topic0 && description == description0 && caption == caption0
    {
      topic := topic0;
      description := description0;
      caption := caption0;
    }

    /** A click: a description under 200 characters is replaced by the long
        text, any other by the short one. */
    method Click()
      modifies this
      ensures Tracking()
      ensures |old(description)| < 200 ==> description == LongText(topic) && caption == "Show Less"
      ensures |old(description)| >= 200 ==> description == ShortText(topic) && caption == "Learn More"
      ensures old(Tracking()) ==> (description == LongText(topic) <==> old(description) == ShortText(topic))
    {
      TextLengths(topic);
      if |description| < 200 {
        description := LongText(topic);
        caption := "Show Less";
      } else {
        description := ShortText(topic);
        caption := "Learn More";
      }
    }
  }
}

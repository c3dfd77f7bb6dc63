/** The $550B trade-deal page: scroll reveals staggered by 0.1 s or 0.15 s
    per element, the number observer that marks one number card visible and
    starts `animateNumbers` once, and its frame loop, which writes
    `Math.floor(current)` while `current < target` and the target itself
    after that. */
module TradeDeal {
  import opened Text
  import RealMath
  import Counting
  import Schedule

  /** `duration / 16` with `duration = 2000`. */
  const Frames: real := 2000.0 / 16.0

  /** The loop writes the target on frame 125 (on the first for target 0). */
  lemma LastFrame(target: nat, k: nat)
    ensures Counting.Reached(target as real, Frames, k) <==> target == 0 || k >= 125
  {
    Counting.ReachedExactly(target as real, Frames, k);
  }

  /** One element's `updateNumber` chain for the parsed `data-target`. */
  class FrameCounter {
    const target: nat
    var current: real
    var text: string
    var running: bool
    ghost var frames: nat

    ghost predicate Valid()
      reads this
    {
      current == Counting.SumAfter(target as real, Frames, frames)
      && (running ==> frames == 0 || !Counting.Reached(target as real, Frames, frames))
      && (!running ==> frames > 0 && Counting.Reached(target as real, Frames, frames))
    }

    constructor (target0: nat, text0: string)
      ensures Valid() && running && frames == 0 && target == target0 && text == text0
    {
      target := target0;
      current := 0.0;
      text := text0;
      running := true;
      frames := 0;
    }

    /** One `updateNumber` call: `current` grows by `target / 125` and is
        never clamped; below the target the floor is written and another
        frame requested, otherwise the target is written and the chain ends. */
    method Tick()
      requires Valid() && running
      modifies this
      ensures Valid() && frames == old(frames) + 1
      ensures running <==> !Counting.Reached(target as real, Frames, frames)
      ensures text == NatToString(Counting.Shown(target as real, Frames, frames))
      ensures running ==> Counting.Shown(target as real, Frames, frames) < target
    {
      var before := current;
      assert before == Counting.SumAfter(target as real, Frames, frames);
      RealMath.SumStep(frames, Counting.Increment(target as real, Frames));
      current := current + target as real / Frames;
      frames := frames + 1;
      assert current == Counting.SumAfter(target as real, Frames, frames);
      Counting.ShownWhole(target, Frames, frames);
      if current < target as real {
        assert Counting.Shown(target as real, Frames, frames) == current.Floor;
        text := NatToString(current.Floor);
      } else {
        text := NatToString(target);
        running := false;
      }
    }

    /** The synchronous first call and the frames after it: the chain stops
        on frame 125 showing the target, or on the very first call for a
        zero target, since 0 is not below 0. */
    method Run()
      requires Valid() && running
      modifies this
      ensures Valid() && !running
      ensures frames == (if target == 0 then 1 else 125)
      ensures text == NatToString(target)
    {
      LastFrame(target, frames);
      while running
        invariant Valid()
        invariant running ==> frames < 125
        invariant running && target == 0 ==> frames == 0
        invariant !running ==> frames == (if target == 0 then 1 else 125)
        invariant !running ==> text == NatToString(target)
        decreases if running then 126 - frames else 0
      {
        Tick();
        LastFrame(target, frames);
        LastFrame(target, frames - 1);
      }
    }
  }

  /** An observer entry: the index of the number card it reports and
      whether it is intersecting. */
  datatype Entry = Entry(card: nat, intersecting: bool)

  function CountTrue(s: seq<bool>): (n: nat)
    ensures n <= |s|
    ensures n == 0 <==> forall i :: 0 <= i < |s| ==> !s[i]
  {
    if s == [] then 0 else (if s[|s| - 1] then 1 else 0) + CountTrue(s[..|s| - 1])
  }

  /** `CountTrue` of a sequence with one more element set. */
  lemma {:induction false} CountSet(s: seq<bool>, i: nat)
    requires i < |s| && !s[i]
    ensures CountTrue(s[i := true]) == CountTrue(s) + 1
    decreases |s|
  {
    var t := s[i := true];
    if i < |s| - 1 {
      assert t[..|t| - 1] == s[..|s| - 1][i := true];
      CountSet(s[..|s| - 1], i);
    } else {
      assert t[..|t| - 1] == s[..|s| - 1];
    }
  }

  /** The number cards' 'visible' classes as `numberObserver` sets them,
      with the module flag `numbersAnimated`; `runs` counts the calls of
      `animateNumbers`. */
  class NumberCards {
    var visible: seq<bool>
    var numbersAnimated: bool
    ghost var runs: nat

    /** Before the flag is set no card is visible; after, exactly one is, and
        `animateNumbers` has run exactly once. */
    ghost predicate Valid()
      reads this
    {
      runs == (if numbersAnimated then 1 else 0)
      && CountTrue(visible) == runs
    }

    constructor (count: nat)
      ensures Valid() && |visible| == count && !numbersAnimated && runs == 0
    {
      visible := seq(count, _ => false);
      numbersAnimated := false;
      runs := 0;
    }

    /** One observer callback over a batch of entries. The first
        intersecting entry while the flag is clear marks its card visible
        and starts `animateNumbers`; every later entry, even of the same
        batch, finds the flag set and changes nothing. */
    method OnEntries(entries: seq<Entry>) returns (started: bool)
      requires Valid()
      requires forall e :: e in entries ==> e.card < |visible|
      modifies this
      ensures Valid() && |visible| == |old(visible)|
      ensures started <==> !old(numbersAnimated) && exists e :: e in entries && e.intersecting
      ensures !started ==> visible == old(visible) && numbersAnimated == old(numbersAnimated)
      ensures started ==> exists k :: (0 <= k < |entries| && entries[k].intersecting
                                       && (forall j :: 0 <= j < k ==> !entries[j].intersecting)
                                       && visible == old(visible)[entries[k].card := true])
    {
      started := false;
      var i := 0;
      while i < |entries|
        invariant 0 <= i <= |entries|
        invariant Valid() && |visible| == |old(visible)|
        invariant started <==> !old(numbersAnimated) && exists e :: e in entries[..i] && e.intersecting
        invariant started ==> numbersAnimated
        invariant !started ==> visible == old(visible) && numbersAnimated == old(numbersAnimated)
        invariant started ==> exists k :: (0 <= k < i && entries[k].intersecting
                                           && (forall j :: 0 <= j < k ==> !entries[j].intersecting)
                                           && visible == old(visible)[entries[k].card := true])
      {
        var e := entries[i];
        assert entries[..i + 1] == entries[..i] + [e];
        if e.intersecting && !numbersAnimated {
          assert e in entries;
          assert !visible[e.card];
          CountSet(visible, e.card);
          visible := visible[e.card := true];
          runs := runs + 1;
          numbersAnimated := true;
          started := true;
          assert forall j :: 0 <= j < i ==> !entries[j].intersecting by {
            forall j | 0 <= j < i
              ensures !entries[j].intersecting
            {
              assert entries[j] in entries[..i];
            }
          }
        }
        i := i + 1;
      }
      assert entries[..|entries|] == entries;
    }
  }

  /** The `transitionDelay` of each group, in milliseconds. */
  datatype Delays = Delays(
    timeline: seq<nat>, players: seq<nat>, numbers: seq<nat>,
    crises: seq<nat>, markets: seq<nat>, takeaways: seq<nat>)

  /** The six `forEach` loops that set `transitionDelay`: `index * 0.1s` for
      timeline events, player, number and market cards, `index * 0.15s` for
      crisis cards and takeaway items. */
  method PageDelays(timeline: nat, players: nat, numbers: nat, crises: nat, markets: nat, takeaways: nat)
    returns (d: Delays)
    ensures |d.timeline| == timeline && |d.players| == players && |d.numbers| == numbers
    ensures |d.crises| == crises && |d.markets| == markets && |d.takeaways| == takeaways
    ensures forall i :: 0 <= i < timeline ==> d.timeline[i] == i * 100
    ensures forall i :: 0 <= i < players ==> d.players[i] == i * 100
    ensures forall i :: 0 <= i < numbers ==> d.numbers[i] == i * 100
    ensures forall i :: 0 <= i < crises ==> d.crises[i] == i * 150
    ensures forall i :: 0 <= i < markets ==> d.markets[i] == i * 100
    ensures forall i :: 0 <= i < takeaways ==> d.takeaways[i] == i * 150
  {
    var t := Schedule.Stagger(timeline, 100);
    var p := Schedule.Stagger(players, 100);
    var n := Schedule.Stagger(numbers, 100);
    var c := Schedule.Stagger(crises, 150);
    var m := Schedule.Stagger(markets, 100);
    var k := Schedule.Stagger(takeaways, 150);
    d := Delays(t, p, n, c, m, k);
  }
}

/** Staggered start times: the pages give element `i` of a group a delay of
    `i` times a fixed step (a `setTimeout(..., i * step)` or a CSS
    `transitionDelay`), so that a group appears one element after another.
    Timers themselves are not modelled; the delays are recorded as numbers. */
module Schedule {

  /** The delays, in milliseconds, that a `forEach((el, i) => ... i * stepMs)`
      over `count` elements hands out. */
  method Stagger(count: nat, stepMs: nat) returns (delays: seq<nat>)
    ensures |delays| == count
    ensures forall i :: 0 <= i < count ==> delays[i] == i * stepMs
  {
    delays := [];
    var i := 0;
    while i < count
      invariant 0 <= i <= count
      invariant |delays| == i
      invariant forall j :: 0 <= j < i ==> delays[j] == j * stepMs
    {
      delays := delays + [i * stepMs];
      i := i + 1;
    }
  }

  /** With a positive step, an element's delay is strictly later than that of
      every element before it, so the group is revealed in document order. */
  lemma StaggerIsOrdered(delays: seq<nat>, stepMs: nat, i: nat, j: nat)
    requires forall k :: 0 <= k < |delays| ==> delays[k] == k * stepMs
    requires stepMs > 0 && i < j < |delays|
    ensures delays[i] < delays[j]
    ensures delays[j] - delays[i] == (j - i) * stepMs
  {
    var d := j - i;
    assert delays[i] == i * stepMs && delays[j] == j * stepMs;
    assert j * stepMs == i * stepMs + d * stepMs by {
      assert j == i + d;
    }
    assert d * stepMs >= stepMs by {
      assert d * stepMs == (d - 1) * stepMs + stepMs;
    }
  }
}

/** Exclusive selection over a list of elements, as the pages keep it in
    their class lists: a flag per element ('active', 'highlighted',
    'expanded'), and `indexOf` of the first flagged element. */
module Selection {

  /** `Array.from(all).indexOf(document.querySelector('.x.active'))`: the
      first flagged element, or -1 when none is flagged. */
  function FirstTrue(s: seq<bool>): (r: int)
    ensures -1 <= r < |s|
    ensures r == -1 <==> forall i :: 0 <= i < |s| ==> !s[i]
    ensures r >= 0 ==> s[r] && forall i :: 0 <= i < r ==> !s[i]
  {
    if s == [] then -1
    else if s[0] then 0
    else
      var r := FirstTrue(s[1..]);
      assert forall i :: 1 <= i < |s| ==> s[i] == s[1..][i - 1];
      if r == -1 then -1 else r + 1
  }

  /** Exactly element `k` is flagged. */
  predicate Only(s: seq<bool>, k: nat) {
    k < |s| && forall i :: 0 <= i < |s| ==> (s[i] <==> i == k)
  }

  /** The flagged element of an exclusive selection is the one found. */
  lemma FirstOfOnly(s: seq<bool>, k: nat)
    requires Only(s, k)
    ensures FirstTrue(s) == k
  {
    assert s[k];
  }
}

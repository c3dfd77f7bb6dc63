/** The string operations the page scripts apply to display text: the
    character-class filters written as `replace(/[...]/g, '')`, JavaScript's
    `parseInt` and `parseFloat` on what those filters leave, the decimal
    rendering of a number written into `textContent`, and substring search.
    Strings are sequences of Unicode scalar values, so a length counts code
    points where JavaScript's `.length` counts UTF-16 code units. */
module Text {
  import opened Options

  /** `[0-9]`: the class `\d` matches and the one the filters name. */
  predicate IsDigit(c: char) { '0' <= c <= '9' }

  predicate NotDigit(c: char) { !IsDigit(c) }

  predicate IsDigitOrDot(c: char) { IsDigit(c) || c == '.' }

  predicate AllDigits(s: string) { forall i :: 0 <= i < |s| ==> IsDigit(s[i]) }

  predicate HasDigit(s: string) { exists i :: 0 <= i < |s| && IsDigit(s[i]) }

  /** The characters of `s` that `keep` accepts, in their order: the result of
      `s.replace(/[^K]/g, '')` for the class K that `keep` describes. */
  function Filter(s: string, keep: char -> bool): (r: string)
    ensures |r| <= |s|
    ensures forall i :: 0 <= i < |r| ==> keep(r[i])
    ensures r == [] <==> forall i :: 0 <= i < |s| ==> !keep(s[i])
    ensures (forall i :: 0 <= i < |s| ==> keep(s[i])) ==> r == s
    ensures forall c :: c in r <==> c in s && keep(c)
  {
    if s == [] then []
    else
      var rest := Filter(s[1..], keep);
      assert forall i :: 1 <= i < |s| ==> s[i] == s[1..][i - 1];
      if keep(s[0]) then [s[0]] + rest else rest
  }

  lemma {:induction false} FilterAppend(a: string, b: string, keep: char -> bool)
    ensures Filter(a + b, keep) == Filter(a, keep) + Filter(b, keep)
  {
    if a == [] {
      assert a + b == b;
    } else {
      assert (a + b)[1..] == a[1..] + b;
      FilterAppend(a[1..], b, keep);
    }
  }

  lemma FilterKeepsAll(s: string, keep: char -> bool)
    requires forall i :: 0 <= i < |s| ==> keep(s[i])
    ensures Filter(s, keep) == s
  {
  }

  lemma FilterDropsAll(s: string, keep: char -> bool)
    requires forall i :: 0 <= i < |s| ==> !keep(s[i])
    ensures Filter(s, keep) == []
  {
  }

  /** `s.replace(/[^0-9]/g, '')` */
  function DigitsOnly(s: string): string { Filter(s, IsDigit) }

  /** `s.replace(/[0-9]/g, '')` */
  function RemoveDigits(s: string): string { Filter(s, NotDigit) }

  /** `s.replace(/[^0-9.]/g, '')` */
  function DigitsAndDots(s: string): string { Filter(s, IsDigitOrDot) }

  predicate NotComma(c: char) { c != ',' }

  /** `s.replace(/,/g, '')` */
  function RemoveCommas(s: string): string { Filter(s, NotComma) }

  /** Two filters in a row keep what both admit. */
  lemma {:induction false} FilterTwice(s: string, first: char -> bool, second: char -> bool, both: char -> bool)
    requires forall c :: both(c) == (first(c) && second(c))
    ensures Filter(Filter(s, first), second) == Filter(s, both)
  {
    if s != [] {
      FilterTwice(s[1..], first, second, both);
      if first(s[0]) {
        assert ([s[0]] + Filter(s[1..], first))[1..] == Filter(s[1..], first);
      }
    }
  }

  function DigitValue(c: char): (d: nat)
    requires IsDigit(c)
    ensures d < 10
  {
    c as int - '0' as int
  }

  function DigitChar(d: nat): (c: char)
    requires d < 10
    ensures IsDigit(c) && DigitValue(c) == d
  {
    ('0' as int + d) as char
  }

  /** The value of a string of decimal digits, most significant first
      (leading zeros allowed, as `parseInt` allows them). */
  function DigitsValue(s: string): nat
    requires AllDigits(s)
  {
    if s == [] then 0 else 10 * DigitsValue(s[..|s| - 1]) + DigitValue(s[|s| - 1])
  }

  /** `parseInt(s)` for a string the digit filter produced: NaN (`None`) when
      nothing is left, otherwise the decimal value of the digits. */
  function ParseDigits(s: string): Option<nat>
    requires AllDigits(s)
  {
    if s == [] then None else Some(DigitsValue(s))
  }

  /** `parseInt(s.replace(/[^0-9]/g, ''))`: every character that is not a
      digit, separators and decimal points included, is dropped first. */
  function ParseIntOfDigits(s: string): (r: Option<nat>)
    ensures r.None? <==> !HasDigit(s)
  {
    ParseDigits(DigitsOnly(s))
  }

  /** `String(n)` for a natural number below 10^21: its decimal digits with no
      leading zero. */
  function NatToString(n: nat): (r: string)
    ensures |r| >= 1 && AllDigits(r)
    ensures |r| > 1 ==> r[0] != '0'
    ensures DigitsValue(r) == n
    decreases n
  {
    if n < 10 then [DigitChar(n)]
    else
      var head := NatToString(n / 10);
      var r := head + [DigitChar(n % 10)];
      assert r[..|r| - 1] == head;
      r
  }

  /** `String(i)` for an integer: a minus sign exactly for a negative number,
      then the decimal digits of |i| with no leading zero. */
  function IntToString(i: int): (r: string)
    ensures |r| >= 1 && (r[0] == '-' <==> i < 0)
    ensures var d := if i < 0 then r[1..] else r;
      |d| >= 1 && AllDigits(d) && (|d| > 1 ==> d[0] != '0')
      && DigitsValue(d) == if i < 0 then -i else i
  {
    if i < 0 then "-" + NatToString(-i) else NatToString(i)
  }

  /** Reading back what a counter wrote: the digits of `String(n)` followed by
      a digit-free tail parse to `n` again, and the tail is what the digit
      removal leaves. */
  lemma {:induction false} ShownNumberParsesBack(n: nat, tail: string)
    requires !HasDigit(tail)
    ensures ParseIntOfDigits(NatToString(n) + tail) == Some(n)
    ensures RemoveDigits(NatToString(n) + tail) == tail
  {
    var shown := NatToString(n);
    FilterAppend(shown, tail, IsDigit);
    FilterAppend(shown, tail, NotDigit);
    assert Filter(tail, IsDigit) == [];
    assert Filter(shown, NotDigit) == [];
    assert Filter(tail, NotDigit) == tail;
    assert DigitsOnly(shown + tail) == shown;
  }

  /** The characters `trim` removes: the white space of ECMAScript (tab,
      vertical tab, form feed, the byte order mark and every space separator)
      and its line terminators (line feed, carriage return, the line and
      paragraph separators). */
  predicate IsWhiteSpace(c: char) {
    c == '\t' || c == '\U{000B}' || c == '\U{000C}' || c == '\U{FEFF}'
    || c == ' ' || c == '\U{00A0}' || c == '\U{1680}' || '\U{2000}' <= c <= '\U{200A}'
    || c == '\U{202F}' || c == '\U{205F}' || c == '\U{3000}'
    || c == '\n' || c == '\r' || c == '\U{2028}' || c == '\U{2029}'
  }

  /** `s.trim()` */
  function Trim(s: string): (r: string)
    ensures |r| <= |s|
    ensures |r| > 0 ==> !IsWhiteSpace(r[0]) && !IsWhiteSpace(r[|r| - 1])
    ensures forall i :: 0 <= i < |s| && !IsWhiteSpace(s[i]) ==> s[i] in r
    decreases |s|
  {
    if s == [] then []
    else if IsWhiteSpace(s[0]) then Trim(s[1..])
    else if IsWhiteSpace(s[|s| - 1]) then Trim(s[..|s| - 1])
    else s
  }

  /** `s[a..b]` is what is left after cutting white space off both ends. */
  predicate IsTrimSlice(s: string, r: string, a: int, b: int) {
    0 <= a <= b <= |s| && r == s[a..b]
    && (forall k :: 0 <= k < a ==> IsWhiteSpace(s[k]))
    && (forall k :: b <= k < |s| ==> IsWhiteSpace(s[k]))
  }

  /** What `trim` leaves is one contiguous piece of the text, and everything
      it cut off on either side is white space. */
  lemma TrimIsSlice(s: string)
    ensures exists a, b :: IsTrimSlice(s, Trim(s), a, b)
  {
    var a, b := TrimBounds(s);
  }

  lemma {:induction false} TrimBounds(s: string) returns (a: nat, b: nat)
    ensures IsTrimSlice(s, Trim(s), a, b)
    decreases |s|
  {
    if s == [] {
      a, b := 0, 0;
    } else if IsWhiteSpace(s[0]) {
      var a1, b1 := TrimBounds(s[1..]);
      a, b := a1 + 1, b1 + 1;
      assert s[1..][a1..b1] == s[a..b];
      forall k | 0 <= k < a ensures IsWhiteSpace(s[k]) {
        if k > 0 { assert s[k] == s[1..][k - 1]; }
      }
      forall k | b <= k < |s| ensures IsWhiteSpace(s[k]) {
        assert s[k] == s[1..][k - 1];
      }
    } else if IsWhiteSpace(s[|s| - 1]) {
      var t := s[..|s| - 1];
      a, b := TrimBounds(t);
      assert t[a..b] == s[a..b];
      assert |t| > 0 ==> t[0] == s[0];
      assert a == 0;
      forall k | b <= k < |s| ensures IsWhiteSpace(s[k]) {
        if k < |t| { assert s[k] == t[k]; }
      }
    } else {
      a, b := 0, |s|;
      assert s[0..|s|] == s;
    }
  }

  function LowerChar(c: char): char {
    if 'A' <= c <= 'Z' then (c as int + 32) as char else c
  }

  /** `s.toLowerCase()` on the ASCII letters. */
  function Lower(s: string): (r: string)
    ensures |r| == |s|
    ensures forall i :: 0 <= i < |s| ==> r[i] == LowerChar(s[i])
  {
    seq(|s|, i requires 0 <= i < |s| => LowerChar(s[i]))
  }

  /** `pat` occurs in `s` starting at position `i`. */
  predicate OccursAt(s: string, pat: string, i: int) {
    0 <= i && i + |pat| <= |s| && s[i..i + |pat|] == pat
  }

  /** `s.includes(pat)` */
  predicate Contains(s: string, pat: string) {
    exists i :: 0 <= i <= |s| && OccursAt(s, pat, i)
  }

  /** `s.indexOf(pat, from)`: the first position at or after `from` where
      `pat` occurs, or -1. */
  function IndexFrom(s: string, pat: string, from: nat): (r: int)
    requires from <= |s|
    ensures r == -1 || (from <= r && OccursAt(s, pat, r))
    ensures r == -1 ==> forall j :: from <= j ==> !OccursAt(s, pat, j)
    ensures r >= 0 ==> forall j :: from <= j < r ==> !OccursAt(s, pat, j)
    decreases |s| - from
  {
    if from + |pat| > |s| then -1
    else if OccursAt(s, pat, from) then from
    else
      assert |pat| > 0;
      IndexFrom(s, pat, from + 1)
  }

  /** `s.indexOf(pat)` */
  function IndexOf(s: string, pat: string): int {
    IndexFrom(s, pat, 0)
  }

  /** `s.endsWith(c)` for a one-character string. */
  predicate EndsWith(s: string, c: char) {
    |s| > 0 && s[|s| - 1] == c
  }

  /** The length of the run of digits `s` starts with. */
  function DigitRun(s: string): (k: nat)
    ensures k <= |s| && AllDigits(s[..k])
    ensures k < |s| ==> !IsDigit(s[k])
  {
    if s == [] || !IsDigit(s[0]) then 0
    else
      var k := 1 + DigitRun(s[1..]);
      assert forall i :: 1 <= i < k ==> s[..k][i] == s[1..][..k - 1][i - 1];
      k
  }

  function Pow10(n: nat): (p: nat)
    ensures p >= 1
  {
    if n == 0 then 1 else 10 * Pow10(n - 1)
  }

  predicate DigitsAndDotsOnly(s: string) {
    forall i :: 0 <= i < |s| ==> IsDigitOrDot(s[i])
  }

  /** `parseFloat(s)` for a string made only of digits and dots, as the
      digit-and-dot filter leaves it: the longest prefix of the form
      digits [ '.' digits ] is read; NaN (`None`) when that prefix holds
      no digit (the empty string, ".", "..", ".x"). */
  function ParseFloatDigitsDots(s: string): (r: Option<real>)
    requires DigitsAndDotsOnly(s)
    ensures r.None? <==> DigitRun(s) == 0 && (|s| <= 1 || DigitRun(s[1..]) == 0)
    ensures r.Some? ==> r.value >= 0.0
  {
    var k := DigitRun(s);
    var whole := DigitsValue(s[..k]) as real;
    if k == |s| then
      if k == 0 then None else Some(whole)
    else
      var rest := s[k + 1..];
      var m := DigitRun(rest);
      if k == 0 && m == 0 then None
      else Some(whole + Fraction(rest[..m]))
  }

  /** The value of the digits after a decimal point. */
  function Fraction(digits: string): (f: real)
    requires AllDigits(digits)
    ensures 0.0 <= f
  {
    var v := DigitsValue(digits) as real;
    var p := Pow10(|digits|) as real;
    assert p > 0.0;
    v / p
  }

  /** On a string of digits alone, `parseFloat` and `parseInt` agree. */
  lemma ParseFloatOfDigits(s: string)
    requires AllDigits(s)
    ensures DigitsAndDotsOnly(s)
    ensures ParseFloatDigitsDots(s) == if s == [] then None else Some(DigitsValue(s) as real)
  {
    assert DigitRun(s) == |s| by { DigitRunOfDigits(s); }
    assert s[..|s|] == s;
  }

  /** `parseFloat` of "w.f" with a nonempty whole part reads the whole part
      and then the fraction. */
  lemma {:induction false} ParseFloatOfDecimal(w: string, f: string)
    requires |w| > 0 && AllDigits(w) && AllDigits(f)
    ensures DigitsAndDotsOnly(w + "." + f)
    ensures ParseFloatDigitsDots(w + "." + f) == Some(DigitsValue(w) as real + Fraction(f))
  {
    var s := w + "." + f;
    DecimalDigitsAndDots(w, f);
    DigitRunBeforeDot(w, "." + f);
    assert s == w + ("." + f);
    assert s[..|w|] == w;
    assert s[|w| + 1..] == f;
    DigitRunOfDigits(f);
    assert f[..|f|] == f;
    assert ParseFloatDigitsDots(s) == Some(DigitsValue(w) as real + Fraction(f));
  }

  lemma {:induction false} DecimalDigitsAndDots(w: string, f: string)
    requires AllDigits(w) && AllDigits(f)
    ensures DigitsAndDotsOnly(w + "." + f)
  {
    var s := w + "." + f;
    forall i | 0 <= i < |s| ensures IsDigitOrDot(s[i]) {
      if i < |w| { assert s[i] == w[i]; }
      else if i > |w| { assert s[i] == f[i - |w| - 1]; }
    }
  }

  lemma {:induction false} DigitRunBeforeDot(w: string, t: string)
    requires AllDigits(w) && |t| > 0 && !IsDigit(t[0])
    ensures DigitRun(w + t) == |w|
  {
    if w == [] {
      assert w + t == t;
    } else {
      assert (w + t)[1..] == w[1..] + t;
      DigitRunBeforeDot(w[1..], t);
    }
  }

  lemma {:induction false} DigitRunOfDigits(s: string)
    requires AllDigits(s)
    ensures DigitRun(s) == |s|
  {
    if s != [] {
      DigitRunOfDigits(s[1..]);
    }
  }
}

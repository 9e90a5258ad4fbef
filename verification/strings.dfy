/**
 * The string operations the cleaning rules rely on: Python's `str.strip`,
 * `str.lower` and `str.replace`, removal of a character, and the decimal
 * literals that `float()`, `int()` and `pandas.to_numeric` accept.
 */
module Strings {
  import opened Wrappers

  /** `str.isspace`: the characters Python treats as whitespace, which
      `str.strip()` with no argument removes. */
  predicate IsSpace(c: char) {
    ('\t' <= c <= '\r') || ('\U{001C}' <= c <= ' ') || c == '\U{0085}' || c == '\U{00A0}'
    || c == '\U{1680}' || ('\U{2000}' <= c <= '\U{200A}') || c == '\U{2028}' || c == '\U{2029}'
    || c == '\U{202F}' || c == '\U{205F}' || c == '\U{3000}'
  }

  /** No whitespace at either end. */
  predicate IsStripped(s: string) {
    s == [] || (!IsSpace(s[0]) && !IsSpace(s[|s| - 1]))
  }

  /** The position of the first non-whitespace character at or after `i`,
      or `|s|` when there is none. */
  function SkipSpace(s: string, i: nat): (n: nat)
    requires i <= |s|
    ensures i <= n <= |s|
    ensures n < |s| ==> !IsSpace(s[n])
    decreases |s| - i
  {
    if i < |s| && IsSpace(s[i]) then SkipSpace(s, i + 1) else i
  }

  /** Everything skipped is whitespace. */
  lemma {:induction false} SkipSpaceSkipsSpace(s: string, i: nat)
    requires i <= |s|
    ensures forall k :: i <= k < SkipSpace(s, i) ==> IsSpace(s[k])
    decreases |s| - i
  {
    if i < |s| && IsSpace(s[i]) {
      SkipSpaceSkipsSpace(s, i + 1);
    }
  }

  /** Skipping over a run of whitespace stops at the first other character. */
  lemma {:induction false} SkipSpaceAt(s: string, i: nat, j: nat)
    requires i <= j <= |s|
    requires forall k :: i <= k < j ==> IsSpace(s[k])
    requires j < |s| ==> !IsSpace(s[j])
    ensures SkipSpace(s, i) == j
    decreases j - i
  {
    if i < j {
      SkipSpaceAt(s, i + 1, j);
    }
  }

  /** The number of whitespace characters `s` starts with. */
  function LeadingSpace(s: string): (n: nat)
    ensures n <= |s|
    ensures n < |s| ==> !IsSpace(s[n])
  {
    SkipSpace(s, 0)
  }

  /** The end of `s[lo..j]` once its trailing whitespace is dropped. */
  function TrimEnd(s: string, lo: nat, j: nat): (e: nat)
    requires lo <= j <= |s|
    ensures lo <= e <= j
    ensures e > lo ==> !IsSpace(s[e - 1])
    decreases j
  {
    if j > lo && IsSpace(s[j - 1]) then TrimEnd(s, lo, j - 1) else j
  }

  /** Everything trimmed is whitespace. */
  lemma {:induction false} TrimEndTrimsSpace(s: string, lo: nat, j: nat)
    requires lo <= j <= |s|
    ensures forall k :: TrimEnd(s, lo, j) <= k < j ==> IsSpace(s[k])
    decreases j
  {
    if j > lo && IsSpace(s[j - 1]) {
      TrimEndTrimsSpace(s, lo, j - 1);
    }
  }

  /** Trimming a trailing run of whitespace stops after the last other character. */
  lemma {:induction false} TrimEndAt(s: string, lo: nat, e: nat, j: nat)
    requires lo <= e <= j <= |s|
    requires forall k :: e <= k < j ==> IsSpace(s[k])
    requires e > lo ==> !IsSpace(s[e - 1])
    ensures TrimEnd(s, lo, j) == e
    decreases j
  {
    if e < j {
      TrimEndAt(s, lo, e, j - 1);
    }
  }

  /** `s.strip()`: the contiguous piece of `s` left once the whitespace at both
      ends is removed. */
  function Strip(s: string): (r: string)
    ensures IsStripped(r)
    ensures |r| <= |s|
  {
    var i := LeadingSpace(s);
    s[i..TrimEnd(s, i, |s|)]
  }

  /** Stripping removes whitespace and nothing else: what is left is a piece
      of `s` with only whitespace before and after it. */
  lemma StripRemovesOnlySpace(s: string)
    ensures LeadingSpace(s) + |Strip(s)| <= |s|
    ensures Strip(s) == s[LeadingSpace(s)..LeadingSpace(s) + |Strip(s)|]
    ensures forall k :: 0 <= k < LeadingSpace(s) ==> IsSpace(s[k])
    ensures forall k :: LeadingSpace(s) + |Strip(s)| <= k < |s| ==> IsSpace(s[k])
  {
    SkipSpaceSkipsSpace(s, 0);
    TrimEndTrimsSpace(s, LeadingSpace(s), |s|);
  }

  /** Whitespace around a stripped string is exactly what stripping removes. */
  lemma StripPadded(pre: string, t: string, post: string)
    requires forall k :: 0 <= k < |pre| ==> IsSpace(pre[k])
    requires forall k :: 0 <= k < |post| ==> IsSpace(post[k])
    requires t != [] && IsStripped(t)
    ensures Strip(pre + t + post) == t
  {
    var s := pre + t + post;
    assert forall k :: 0 <= k < |pre| ==> s[k] == pre[k];
    assert forall k :: 0 <= k < |t| ==> s[|pre| + k] == t[k];
    assert forall k :: |pre| + |t| <= k < |s| ==> s[k] == post[k - |pre| - |t|];
    SkipSpaceAt(s, 0, |pre|);
    TrimEndAt(s, |pre|, |pre| + |t|, |s|);
    assert s[|pre|..|pre| + |t|] == t;
  }

  /** Stripping a string that has no whitespace at its ends changes nothing. */
  lemma StripOfStripped(s: string)
    requires IsStripped(s)
    ensures Strip(s) == s
  {
  }

  /** Python's `str.strip` is idempotent. */
  lemma StripIdempotent(s: string)
    ensures Strip(Strip(s)) == Strip(s)
  {
    StripOfStripped(Strip(s));
  }

  /** The whitespace pandas' numeric parser skips around a number: space
      and `\t` through `\r`, ASCII only. */
  predicate IsAsciiSpace(c: char) {
    c == ' ' || ('\t' <= c <= '\r')
  }

  /** No ASCII whitespace at either end. */
  predicate IsAsciiStripped(s: string) {
    s == [] || (!IsAsciiSpace(s[0]) && !IsAsciiSpace(s[|s| - 1]))
  }

  /** `s` holds no whitespace other than the ASCII kind. */
  predicate OnlyAsciiSpace(s: string) {
    forall k :: 0 <= k < |s| ==> IsSpace(s[k]) ==> IsAsciiSpace(s[k])
  }

  function SkipAsciiSpace(s: string, i: nat): (n: nat)
    requires i <= |s|
    ensures i <= n <= |s|
    ensures n < |s| ==> !IsAsciiSpace(s[n])
    decreases |s| - i
  {
    if i < |s| && IsAsciiSpace(s[i]) then SkipAsciiSpace(s, i + 1) else i
  }

  function TrimAsciiEnd(s: string, lo: nat, j: nat): (e: nat)
    requires lo <= j <= |s|
    ensures lo <= e <= j
    ensures e > lo ==> !IsAsciiSpace(s[e - 1])
    decreases j
  {
    if j > lo && IsAsciiSpace(s[j - 1]) then TrimAsciiEnd(s, lo, j - 1) else j
  }

  /** The trimming pandas applies before reading a number: the ASCII
      whitespace at both ends is removed, any other is kept. */
  function StripAscii(s: string): (r: string)
    ensures IsAsciiStripped(r)
    ensures |r| <= |s|
  {
    var i := SkipAsciiSpace(s, 0);
    s[i..TrimAsciiEnd(s, i, |s|)]
  }

  lemma {:induction false} SkipAsciiSpaceIsSkipSpace(s: string, i: nat)
    requires i <= |s| && OnlyAsciiSpace(s)
    ensures SkipAsciiSpace(s, i) == SkipSpace(s, i)
    decreases |s| - i
  {
    if i < |s| && IsSpace(s[i]) {
      SkipAsciiSpaceIsSkipSpace(s, i + 1);
    }
  }

  lemma {:induction false} TrimAsciiEndIsTrimEnd(s: string, lo: nat, j: nat)
    requires lo <= j <= |s| && OnlyAsciiSpace(s)
    ensures TrimAsciiEnd(s, lo, j) == TrimEnd(s, lo, j)
    decreases j
  {
    if j > lo && IsSpace(s[j - 1]) {
      TrimAsciiEndIsTrimEnd(s, lo, j - 1);
    }
  }

  /** On text whose only whitespace is ASCII, both trims agree. */
  lemma StripAsciiIsStrip(s: string)
    requires OnlyAsciiSpace(s)
    ensures StripAscii(s) == Strip(s)
  {
    SkipAsciiSpaceIsSkipSpace(s, 0);
    TrimAsciiEndIsTrimEnd(s, SkipSpace(s, 0), |s|);
  }

  /** Text already stripped the Python way has no ASCII whitespace left to trim. */
  lemma StripAsciiAfterStrip(s: string)
    ensures StripAscii(Strip(s)) == Strip(s)
  {
  }

  /** The ASCII trim keeps a no-break space that `str.strip` removes. */
  lemma StripAsciiKeepsNoBreakSpace()
    ensures StripAscii("12\U{00A0}") == "12\U{00A0}"
    ensures Strip("12\U{00A0}") == "12"
  {
    var s := "12\U{00A0}";
    assert SkipAsciiSpace(s, 0) == 0;
    assert TrimAsciiEnd(s, 0, 3) == 3;
    assert SkipSpace(s, 0) == 0;
    assert TrimEnd(s, 0, 2) == 2;
  }

  /** `c.lower()` on ASCII letters; other characters are kept. */
  function LowerChar(c: char): char {
    if 'A' <= c <= 'Z' then (c as int + 32) as char else c
  }

  predicate IsUpper(c: char) {
    'A' <= c <= 'Z'
  }

  /** `s.lower()`, ASCII letters only. */
  function Lower(s: string): (r: string)
    ensures |r| == |s|
    ensures forall k :: 0 <= k < |s| ==> r[k] == LowerChar(s[k])
  {
    seq(|s|, k requires 0 <= k < |s| => LowerChar(s[k]))
  }

  /** `s.replace(a, b)` for single characters. */
  function Replace(s: string, a: char, b: char): (r: string)
    ensures |r| == |s|
    ensures forall k :: 0 <= k < |s| ==> r[k] == if s[k] == a then b else s[k]
  {
    seq(|s|, k requires 0 <= k < |s| => if s[k] == a then b else s[k])
  }

  /** `s.replace(a, "")`: every occurrence of `a` removed, the rest kept in order. */
  function RemoveAll(s: string, a: char): (r: string)
    ensures a !in r
    ensures |r| <= |s|
  {
    if s == [] then [] else (if s[0] == a then [] else [s[0]]) + RemoveAll(s[1..], a)
  }

  lemma {:induction false} RemoveAllConcat(x: string, y: string, a: char)
    ensures RemoveAll(x + y, a) == RemoveAll(x, a) + RemoveAll(y, a)
  {
    if x == [] {
      assert x + y == y;
    } else {
      var z := x + y;
      var head: string := if x[0] == a then [] else [x[0]];
      assert z[0] == x[0] && z[1..] == x[1..] + y;
      RemoveAllConcat(x[1..], y, a);
      calc {
        RemoveAll(z, a);
        head + RemoveAll(x[1..] + y, a);
        head + (RemoveAll(x[1..], a) + RemoveAll(y, a));
        (head + RemoveAll(x[1..], a)) + RemoveAll(y, a);
        RemoveAll(x, a) + RemoveAll(y, a);
      }
    }
  }

  lemma {:induction false} RemoveAllAbsent(s: string, a: char)
    requires a !in s
    ensures RemoveAll(s, a) == s
  {
    if s != [] {
      RemoveAllAbsent(s[1..], a);
    }
  }

  // ---------------------------------------------------------------------
  // Decimal digits
  // ---------------------------------------------------------------------

  predicate IsDigit(c: char) {
    '0' <= c <= '9'
  }

  predicate AllDigits(s: string) {
    forall k :: 0 <= k < |s| ==> IsDigit(s[k])
  }

  /** The value of a string of decimal digits, most significant first. */
  function DigitsValue(s: string): nat
    requires AllDigits(s)
  {
    if s == [] then 0 else DigitsValue(s[..|s| - 1]) * 10 + (s[|s| - 1] as int - '0' as int)
  }

  function DigitChar(d: nat): (c: char)
    requires d < 10
    ensures IsDigit(c) && c as int - '0' as int == d
  {
    ('0' as int + d) as char
  }

  /** Decimal rendering of a natural number, without leading zeros. */
  function NatText(n: nat): (r: string)
    ensures |r| > 0 && AllDigits(r)
  {
    if n < 10 then [DigitChar(n)] else NatText(n / 10) + [DigitChar(n % 10)]
  }

  /** Decimal rendering of an integer, with a leading '-' when negative. */
  function IntText(n: int): (r: string)
    ensures |r| > 0
  {
    if n < 0 then "-" + NatText(-n) else NatText(n)
  }

  /** Reading back the rendering of `n` gives `n`. */
  lemma {:induction false} NatTextValue(n: nat)
    ensures DigitsValue(NatText(n)) == n
  {
    if n >= 10 {
      var s := NatText(n);
      assert s[..|s| - 1] == NatText(n / 10);
      NatTextValue(n / 10);
    }
  }

  function Pow10(k: nat): (r: nat)
    ensures r >= 1
  {
    if k == 0 then 1 else 10 * Pow10(k - 1)
  }

  /** Position of the first `c` in `s` at or after `i`, or `|s|` when there is none. */
  function IndexFrom(s: string, c: char, i: nat): (k: nat)
    requires i <= |s|
    ensures i <= k <= |s|
    ensures k < |s| ==> s[k] == c
    ensures forall j :: i <= j < k ==> s[j] != c
    decreases |s| - i
  {
    if i == |s| || s[i] == c then i else IndexFrom(s, c, i + 1)
  }

  /** Position of the first `c` in `s`, or `|s|` when there is none. */
  function IndexOf(s: string, c: char): (k: nat)
    ensures k <= |s|
    ensures k < |s| ==> s[k] == c
    ensures forall j :: 0 <= j < k ==> s[j] != c
  {
    IndexFrom(s, c, 0)
  }

  /** An unsigned decimal literal: digits, optionally a '.' followed by digits,
      with at least one digit in all ("12", "12.", ".5", "12.50"). */
  function ParseUnsigned(s: string): (r: Option<real>)
    ensures r.Some? ==> r.value >= 0.0
  {
    var k := IndexOf(s, '.');
    var whole := s[..k];
    var frac := if k < |s| then s[k + 1..] else [];
    if AllDigits(whole) && AllDigits(frac) && |whole| + |frac| > 0 then
      Some(DigitsValue(whole) as real + DigitsValue(frac) as real / Pow10(|frac|) as real)
    else
      None
  }

  /** A signed decimal literal as `float()` and `pandas.to_numeric` read it
      (exponent notation and the spellings "inf"/"nan" are not modelled). */
  function ParseDecimal(s: string): Option<real> {
    if |s| > 0 && s[0] == '-' then
      match ParseUnsigned(s[1..])
      case Some(v) => Some(-v)
      case None => None
    else if |s| > 0 && s[0] == '+' then ParseUnsigned(s[1..])
    else ParseUnsigned(s)
  }

  /** A signed integer literal as `int()` reads it from a string. */
  function ParseInteger(s: string): Option<int> {
    var neg := |s| > 0 && s[0] == '-';
    var digits := if |s| > 0 && (s[0] == '-' || s[0] == '+') then s[1..] else s;
    if |digits| > 0 && AllDigits(digits) then
      Some(if neg then -(DigitsValue(digits) as int) else DigitsValue(digits) as int)
    else
      None
  }

  /** A natural number rendered in decimal reads back as the same number. */
  lemma ParseDecimalNatText(n: nat)
    ensures ParseDecimal(NatText(n)) == Some(n as real)
  {
    var s := NatText(n);
    NatTextValue(n);
    assert !IsDigit('.') && !IsDigit('-') && !IsDigit('+');
    assert IndexOf(s, '.') == |s|;
    assert s[..|s|] == s;
  }

  /** An integer rendered in decimal reads back as the same integer. */
  lemma ParseIntegerIntText(n: int)
    ensures ParseInteger(IntText(n)) == Some(n)
  {
    var s := IntText(n);
    if n < 0 {
      var t := NatText(-n);
      NatTextValue(-n);
      assert s == "-" + t;
      assert s[0] == '-' && s[1..] == t;
    } else {
      NatTextValue(n);
      assert s == NatText(n) && IsDigit(s[0]);
      assert !IsDigit('-') && !IsDigit('+');
    }
  }
}

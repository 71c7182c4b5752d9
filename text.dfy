/**
 * The text handling applied to each line read from the serial link:
 * `str.strip()`, `str.isdigit()` and `int()` on a string of decimal digits.
 * Only ASCII characters are given meaning; Python's Unicode-wide whitespace
 * and digit classes are not modelled.
 */
module Text {

  /** The ASCII characters for which Python's `str.isspace` holds:
      tab, line feed, vertical tab, form feed, carriage return,
      the four information separators (0x1C-0x1F) and the space. */
  predicate IsSpace(c: char) {
    var k := c as int;
    (9 <= k <= 13) || (28 <= k <= 31) || k == 32
  }

  predicate AllSpace(s: string) {
    forall i :: 0 <= i < |s| ==> IsSpace(s[i])
  }

  /** `s.lstrip()`: drops the leading whitespace. */
  function TrimLeft(s: string): string {
    if s != [] && IsSpace(s[0]) then TrimLeft(s[1..]) else s
  }

  /** `s.rstrip()`: drops the trailing whitespace. */
  function TrimRight(s: string): string {
    if s != [] && IsSpace(s[|s| - 1]) then TrimRight(s[..|s| - 1]) else s
  }

  /** `s.strip()`. */
  function Strip(s: string): string {
    TrimRight(TrimLeft(s))
  }

  /** A character for which `str.isdigit` holds, restricted to ASCII. */
  predicate IsDigit(c: char) {
    '0' <= c <= '9'
  }

  /** `s.isdigit()`: true exactly for a non-empty string of digits. */
  predicate IsDigits(s: string) {
    |s| > 0 && forall i :: 0 <= i < |s| ==> IsDigit(s[i])
  }

  function DigitValue(c: char): nat
    requires IsDigit(c)
  {
    c as int - '0' as int
  }

  function DigitChar(d: nat): (c: char)
    requires d < 10
    ensures IsDigit(c) && DigitValue(c) == d
  {
    ('0' as int + d) as char
  }

  /** `int(s)` for a string of decimal digits, read most significant digit first;
      leading zeros are accepted, as `int` accepts them. */
  function DigitsValue(s: string): nat
    requires forall i :: 0 <= i < |s| ==> IsDigit(s[i])
  {
    if s == [] then 0 else DigitsValue(s[..|s| - 1]) * 10 + DigitValue(s[|s| - 1])
  }

  /** The decimal spelling of `n` without leading zeros, as `str(n)` writes it. */
  function Decimal(n: nat): string {
    if n < 10 then [DigitChar(n)] else Decimal(n / 10) + [DigitChar(n % 10)]
  }

  /** `lstrip` removes a run of leading whitespace and nothing else. */
  lemma {:induction false} TrimLeftShape(s: string)
    ensures |TrimLeft(s)| <= |s| && TrimLeft(s) == s[|s| - |TrimLeft(s)|..]
    ensures AllSpace(s[..|s| - |TrimLeft(s)|])
    ensures TrimLeft(s) != [] ==> !IsSpace(TrimLeft(s)[0])
  {
    if s != [] && IsSpace(s[0]) {
      TrimLeftShape(s[1..]);
      var k := |s| - |TrimLeft(s)|;
      assert s[..k] == [s[0]] + s[1..][..k - 1];
    }
  }

  /** `rstrip` removes a run of trailing whitespace and nothing else. */
  lemma {:induction false} TrimRightShape(s: string)
    ensures |TrimRight(s)| <= |s| && TrimRight(s) == s[..|TrimRight(s)|]
    ensures AllSpace(s[|TrimRight(s)|..])
    ensures TrimRight(s) != [] ==> !IsSpace(TrimRight(s)[|TrimRight(s)| - 1])
  {
    if s != [] && IsSpace(s[|s| - 1]) {
      var t := s[..|s| - 1];
      TrimRightShape(t);
      var k := |TrimRight(s)|;
      assert s[k..] == t[k..] + [s[|s| - 1]];
    }
  }

  /** `strip` keeps a contiguous part of the string that neither starts nor ends with
      whitespace, and everything it removes on either side is whitespace. */
  lemma StripShape(s: string)
    ensures exists a, b :: 0 <= a <= b <= |s| && Strip(s) == s[a..b] && AllSpace(s[..a]) && AllSpace(s[b..])
    ensures Strip(s) != [] ==> !IsSpace(Strip(s)[0]) && !IsSpace(Strip(s)[|Strip(s)| - 1])
  {
    var l := TrimLeft(s);
    TrimLeftShape(s);
    TrimRightShape(l);
    var a := |s| - |l|;
    var b := a + |TrimRight(l)|;
    assert Strip(s) == s[a..b];
    assert s[b..] == l[|TrimRight(l)|..];
    if Strip(s) != [] {
      assert Strip(s)[0] == l[0];
    }
  }

  /** Stripping a string that is padded with whitespace on both sides returns the
      unpadded string, provided that string neither starts nor ends with whitespace. */
  lemma {:induction false} StripPadded(a: string, s: string, b: string)
    requires AllSpace(a) && AllSpace(b)
    requires s != [] ==> !IsSpace(s[0]) && !IsSpace(s[|s| - 1])
    ensures Strip(a + s + b) == s
  {
    var l := TrimLeft(a + s + b);
    if s == [] {
      assert AllSpace(a + s + b);
      AllSpaceTrimLeft(a + s + b);
    } else {
      TrimLeftSkips(a, s + b);
      assert a + s + b == a + (s + b);
      assert l == s + b;
      TrimRightSkips(s, b);
    }
  }

  lemma {:induction false} AllSpaceTrimLeft(s: string)
    requires AllSpace(s)
    ensures TrimLeft(s) == [] && TrimRight(TrimLeft(s)) == []
  {
    if s != [] {
      AllSpaceTrimLeft(s[1..]);
    }
  }

  lemma {:induction false} TrimLeftSkips(a: string, t: string)
    requires AllSpace(a)
    requires t != [] && !IsSpace(t[0])
    ensures TrimLeft(a + t) == t
  {
    if a != [] {
      assert (a + t)[1..] == a[1..] + t;
      TrimLeftSkips(a[1..], t);
    }
  }

  lemma {:induction false} TrimRightSkips(s: string, b: string)
    requires AllSpace(b)
    requires s != [] && !IsSpace(s[|s| - 1])
    ensures TrimRight(s + b) == s
  {
    if b != [] {
      assert (s + b)[..|s + b| - 1] == s + b[..|b| - 1];
      TrimRightSkips(s, b[..|b| - 1]);
    }
  }

  /** `int(str(n)) == n`, and `str(n).isdigit()` holds. */
  lemma {:induction false} DecimalRoundTrip(n: nat)
    ensures IsDigits(Decimal(n))
    ensures DigitsValue(Decimal(n)) == n
  {
    if n >= 10 {
      DecimalRoundTrip(n / 10);
      var d := Decimal(n / 10);
      assert Decimal(n)[..|Decimal(n)| - 1] == d;
    }
  }

  /** A leading zero does not change the value `int` reads. */
  lemma {:induction false} LeadingZero(s: string)
    requires forall i :: 0 <= i < |s| ==> IsDigit(s[i])
    ensures DigitsValue(['0'] + s) == DigitsValue(s)
  {
    if s != [] {
      var t := ['0'] + s;
      assert t[..|t| - 1] == ['0'] + s[..|s| - 1];
      LeadingZero(s[..|s| - 1]);
    }
  }
}

/** Decimal rendering of naturals, as Go's `strconv.Itoa` produces it for a
    non-negative argument, together with the parser that undoes it. */
module Decimal {

  datatype Option<T> = None | Some(value: T)

  predicate IsDigit(c: char) {
    '0' <= c <= '9'
  }

  function DigitChar(d: nat): (c: char)
    requires d < 10
    ensures IsDigit(c)
  {
    ('0' as int + d) as char
  }

  function DigitValue(c: char): nat
    requires IsDigit(c)
  {
    c as int - '0' as int
  }

  /** A non-empty string of decimal digits. */
  predicate IsDecimal(s: string) {
    |s| > 0 && forall i :: 0 <= i < |s| ==> IsDigit(s[i])
  }

  /** The form `strconv.Itoa` produces: digits only, and no leading zero
      unless the whole string is "0". */
  predicate IsCanonical(s: string) {
    IsDecimal(s) && (s[0] != '0' || |s| == 1)
  }

  /** The number a digit string denotes, most significant digit first. */
  function Value(s: string): nat
    requires forall i :: 0 <= i < |s| ==> IsDigit(s[i])
  {
    if |s| == 0 then 0
    else Value(s[..|s| - 1]) * 10 + DigitValue(s[|s| - 1])
  }

  /** Parses a plain digit string; anything else (empty, a sign, a non-digit)
      is rejected. */
  function ParseDecimal(s: string): (r: Option<nat>)
    ensures r.Some? <==> IsDecimal(s)
  {
    if IsDecimal(s) then Some(Value(s)) else None
  }

  /** The decimal rendering of `n`. */
  function FormatDecimal(n: nat): (s: string)
    ensures IsCanonical(s)
    ensures Value(s) == n
    ensures |s| == 1 <==> n < 10
  {
    if n < 10 then [DigitChar(n)]
    else
      var p := FormatDecimal(n / 10);
      var s := p + [DigitChar(n % 10)];
      assert s[..|s| - 1] == p;
      s
  }

  function Pow10(k: nat): (p: nat)
    ensures p >= 1
  {
    if k == 0 then 1 else 10 * Pow10(k - 1)
  }

  /** A number below 10^k takes at most k digits (and every number at least one). */
  lemma {:induction false} FormatLength(n: nat, k: nat)
    requires k >= 1 && n < Pow10(k)
    ensures |FormatDecimal(n)| <= k
  {
    if n >= 10 {
      assert k >= 2;
      assert n / 10 < Pow10(k - 1);
      FormatLength(n / 10, k - 1);
    }
  }

  /** Rendering and then parsing gives the number back. */
  lemma ParseFormat(n: nat)
    ensures ParseDecimal(FormatDecimal(n)) == Some(n)
  {
  }

  /** A canonical digit string with a non-zero lead denotes a positive number. */
  lemma {:induction false} CanonicalPositive(s: string)
    requires IsDecimal(s) && s[0] != '0'
    ensures Value(s) > 0
  {
    if |s| > 1 {
      CanonicalPositive(s[..|s| - 1]);
    }
  }

  /** Every canonical digit string is the rendering of the number it denotes:
      rendering is onto the canonical strings, so it and parsing are mutually
      inverse there. */
  lemma {:induction false} FormatValue(s: string)
    requires IsCanonical(s)
    ensures FormatDecimal(Value(s)) == s
  {
    if |s| > 1 {
      var p := s[..|s| - 1];
      var d := DigitValue(s[|s| - 1]);
      CanonicalPositive(p);
      FormatValue(p);
      var v := Value(s);
      assert v == Value(p) * 10 + d;
      assert v / 10 == Value(p) && v % 10 == d;
      assert DigitChar(d) == s[|s| - 1];
      assert s == p + [s[|s| - 1]];
    }
  }

  /** Two numbers share a rendering only if they are equal. */
  lemma FormatInjective(m: nat, n: nat)
    requires FormatDecimal(m) == FormatDecimal(n)
    ensures m == n
  {
  }
}

/**
 * Positional numerals: hexadecimal digits (both cases), their values, the
 * minimal upper-case hex numeral Python's format spec 'X' prints, and the
 * decimal numeral `str()` prints for an integer.
 */
module Numerals {

  function Pow(b: nat, e: nat): (r: nat)
    ensures b >= 1 ==> r >= 1
  {
    if e == 0 then 1 else b * Pow(b, e - 1)
  }

  // ---------------------------------------------------------------- hex

  predicate IsHexDigit(c: char) {
    '0' <= c <= '9' || 'a' <= c <= 'f' || 'A' <= c <= 'F'
  }

  predicate IsUpperHexDigit(c: char) {
    '0' <= c <= '9' || 'A' <= c <= 'F'
  }

  predicate IsLowerHexDigit(c: char) {
    '0' <= c <= '9' || 'a' <= c <= 'f'
  }

  predicate IsHexString(s: string) {
    forall i :: 0 <= i < |s| ==> IsHexDigit(s[i])
  }

  predicate IsUpperHexString(s: string) {
    forall i :: 0 <= i < |s| ==> IsUpperHexDigit(s[i])
  }

  predicate IsLowerHexString(s: string) {
    forall i :: 0 <= i < |s| ==> IsLowerHexDigit(s[i])
  }

  /** The value of one hex digit, either case. */
  function HexDigitValue(c: char): (d: nat)
    requires IsHexDigit(c)
    ensures d < 16
  {
    if '0' <= c <= '9' then c as int - '0' as int
    else if 'a' <= c <= 'f' then c as int - 'a' as int + 10
    else c as int - 'A' as int + 10
  }

  /** The value of a string of hex digits, most significant digit first. */
  function HexValue(s: string): nat
    requires IsHexString(s)
  {
    if s == [] then 0 else HexValue(s[..|s| - 1]) * 16 + HexDigitValue(s[|s| - 1])
  }

  function UpperHexDigit(d: nat): (c: char)
    requires d < 16
    ensures IsUpperHexDigit(c) && HexDigitValue(c) == d
  {
    if d < 10 then ('0' as int + d) as char else ('A' as int + d - 10) as char
  }

  function LowerHexDigit(d: nat): (c: char)
    requires d < 16
    ensures IsLowerHexDigit(c) && HexDigitValue(c) == d
  {
    if d < 10 then ('0' as int + d) as char else ('a' as int + d - 10) as char
  }

  /** Appending one digit multiplies the value so far by 16 and adds the digit. */
  lemma HexValueSnoc(s: string, c: char)
    requires IsHexString(s) && IsHexDigit(c)
    ensures IsHexString(s + [c])
    ensures HexValue(s + [c]) == HexValue(s) * 16 + HexDigitValue(c)
  {
    assert (s + [c])[..|s|] == s;
  }

  /** A two-digit numeral, written out. */
  lemma HexValueTwo(h: string)
    requires |h| == 2 && IsHexString(h)
    ensures HexValue(h) == HexDigitValue(h[0]) * 16 + HexDigitValue(h[1])
  {
    assert h[..1][..0] == [] && h[..1][0] == h[0];
    assert HexValue(h) == HexValue(h[..1]) * 16 + HexDigitValue(h[1]);
    assert HexValue(h[..1]) == HexValue(h[..1][..0]) * 16 + HexDigitValue(h[0]);
  }

  /** The minimal upper-case hex numeral of n (Python's format(n, 'X')): "0" for zero. */
  function UpperHex(n: nat): (r: string)
    ensures 1 <= |r| && IsUpperHexString(r)
    ensures HexValue(r) == n
    ensures |r| > 1 ==> r[0] != '0'
  {
    if n < 16 then [UpperHexDigit(n)]
    else
      var p := UpperHex(n / 16);
      HexValueSnoc(p, UpperHexDigit(n % 16));
      p + [UpperHexDigit(n % 16)]
  }

  /** A number below 16^k has a minimal numeral of at most k digits (k >= 1). */
  lemma {:induction false} UpperHexLength(n: nat, k: nat)
    requires 1 <= k && n < Pow(16, k)
    ensures |UpperHex(n)| <= k
  {
    if n >= 16 {
      assert Pow(16, 1) == 16;
      assert n / 16 < Pow(16, k - 1);
      UpperHexLength(n / 16, k - 1);
    }
  }

  /** A string of zeros has value zero. */
  lemma {:induction false} HexValueOfZeros(z: string)
    requires forall i :: 0 <= i < |z| ==> z[i] == '0'
    ensures IsHexString(z) && HexValue(z) == 0
  {
    if z != [] {
      HexValueOfZeros(z[..|z| - 1]);
    }
  }

  /** Leading zeros do not change the value of a hex numeral. */
  lemma {:induction false} HexValueLeadingZeros(z: string, s: string)
    requires forall i :: 0 <= i < |z| ==> z[i] == '0'
    requires IsHexString(s)
    ensures IsHexString(z + s) && HexValue(z + s) == HexValue(s)
  {
    if s == [] {
      assert z + s == z;
      HexValueOfZeros(z);
    } else {
      var p, c := s[..|s| - 1], s[|s| - 1];
      assert s == p + [c];
      assert z + s == (z + p) + [c];
      HexValueLeadingZeros(z, p);
      HexValueSnoc(z + p, c);
      HexValueSnoc(p, c);
    }
  }

  /**
   * Two lower-case hex numerals of the same length and the same value are the
   * same string: the lower-case fixed-width numeral of a number is canonical.
   */
  lemma {:induction false} LowerHexCanonical(s: string, t: string)
    requires |s| == |t| && IsLowerHexString(s) && IsLowerHexString(t)
    requires HexValue(s) == HexValue(t)
    ensures s == t
  {
    if s != [] {
      var n := |s| - 1;
      var a, b := HexDigitValue(s[n]), HexDigitValue(t[n]);
      assert HexValue(s) == HexValue(s[..n]) * 16 + a;
      assert HexValue(t) == HexValue(t[..n]) * 16 + b;
      assert a == b && HexValue(s[..n]) == HexValue(t[..n]);
      LowerHexCanonical(s[..n], t[..n]);
      assert s == s[..n] + [s[n]] && t == t[..n] + [t[n]];
    }
  }

  // ------------------------------------------------------------ decimal

  predicate IsDecimalDigit(c: char) {
    '0' <= c <= '9'
  }

  predicate IsDecimalString(s: string) {
    forall i :: 0 <= i < |s| ==> IsDecimalDigit(s[i])
  }

  function DecimalValue(s: string): nat
    requires IsDecimalString(s)
  {
    if s == [] then 0 else DecimalValue(s[..|s| - 1]) * 10 + (s[|s| - 1] as int - '0' as int)
  }

  /** The decimal numeral of n, most significant digit first, no leading zero. */
  function Decimal(n: nat): (r: string)
    ensures 1 <= |r| && IsDecimalString(r)
    ensures DecimalValue(r) == n
    ensures r[0] == '0' <==> n == 0
    ensures |r| > 1 ==> r[0] != '0'
  {
    if n < 10 then [('0' as int + n) as char]
    else
      var p := Decimal(n / 10);
      var c := ('0' as int + n % 10) as char;
      assert (p + [c])[..|p|] == p;
      p + [c]
  }

  /** Python's str() of an int: a minus sign before the decimal numeral of a negative number. */
  function IntToString(i: int): (r: string)
    ensures i >= 0 ==> 1 <= |r| && IsDecimalString(r) && DecimalValue(r) == i
    ensures i >= 0 ==> (r[0] == '0' <==> i == 0)
    ensures i >= 0 && |r| > 1 ==> r[0] != '0'
    ensures i < 0 ==> 2 <= |r| && r[0] == '-' && IsDecimalString(r[1..]) && DecimalValue(r[1..]) == -i
    ensures i < 0 ==> r[1] != '0'
  {
    if i < 0 then
      var d := Decimal(-i);
      assert ("-" + d)[1..] == d;
      "-" + d
    else Decimal(i)
  }

  /** Distinct integers print differently. */
  lemma IntToStringInjective(a: int, b: int)
    requires IntToString(a) == IntToString(b)
    ensures a == b
  {
  }
}

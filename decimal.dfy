/**
 * Java's 32-bit int as decimal text: Integer.toString, and Integer.parseInt(s, 10)
 * restricted to ASCII digits.
 */
module Decimal {
  import opened Wrappers

  /** Integer.MIN_VALUE and Integer.MAX_VALUE. */
  const MIN_VALUE: int := -0x8000_0000
  const MAX_VALUE: int := 0x7fff_ffff

  /** The values of a Java int. */
  type Int32 = x: int | -0x8000_0000 <= x <= 0x7fff_ffff

  predicate IsDigit(c: char) {
    '0' <= c <= '9'
  }

  predicate AllDigits(s: string) {
    forall k :: 0 <= k < |s| ==> IsDigit(s[k])
  }

  function DigitChar(d: nat): (c: char)
    requires d < 10
    ensures IsDigit(c) && c as int - '0' as int == d
  {
    ('0' as int + d) as char
  }

  /** The value of a string of decimal digits, most significant digit first. */
  function DigitsValue(s: string): nat
    requires AllDigits(s)
  {
    if s == [] then 0 else 10 * DigitsValue(s[..|s| - 1]) + (s[|s| - 1] as int - '0' as int)
  }

  /** The decimal digits of a non-negative value, without leading zeros. */
  function NatToString(n: nat): (r: string)
    ensures r != [] && AllDigits(r)
    ensures r[0] == '0' ==> r == "0"
    ensures |r| == 1 <==> n < 10
  {
    if n < 10 then [DigitChar(n)] else NatToString(n / 10) + [DigitChar(n % 10)]
  }

  /** Integer.toString: the digits of the magnitude, preceded by '-' only when the value is negative. */
  function IntToString(x: int): (r: string)
    ensures r != [] && (r[0] == '-' <==> x < 0)
    ensures AllDigits(if x < 0 then r[1..] else r)
    ensures (if x < 0 then r[1..] else r) != []
  {
    if x < 0 then "-" + NatToString(-x) else NatToString(x)
  }

  /** Every character of Integer.toString is a digit or a leading '-'. */
  predicate IsSignedDigits(s: string) {
    s != [] && forall k :: 0 <= k < |s| ==> IsDigit(s[k]) || (k == 0 && s[k] == '-')
  }

  lemma IntToStringSigned(x: int)
    ensures IsSignedDigits(IntToString(x))
  {
    var r := IntToString(x);
    if x < 0 {
      assert forall k :: 0 < k < |r| ==> r[k] == r[1..][k - 1];
    }
  }

  /**
   * Integer.parseInt(s, 10) over ASCII digits: an optional '+' or '-', then at least one
   * digit, and the value must fit in an int; anything else is a NumberFormatException.
   */
  function ParseInt(s: string): (r: Option<Int32>)
    ensures r.Some? ==> s != [] && (r.value < 0 ==> s[0] == '-')
    ensures r.Some? ==> var d := if s[0] == '-' || s[0] == '+' then s[1..] else s; d != [] && AllDigits(d)
  {
    if s == [] then None
    else
      var digits := if s[0] == '-' || s[0] == '+' then s[1..] else s;
      if digits == [] || !AllDigits(digits) then None
      else
        var magnitude: int := DigitsValue(digits);
        var v := if s[0] == '-' then -magnitude else magnitude;
        if MIN_VALUE <= v <= MAX_VALUE then Some(v) else None
  }

  /** Reading back the digits of a value gives the value. */
  lemma {:induction false} DigitsValueNatToString(n: nat)
    ensures DigitsValue(NatToString(n)) == n
  {
    if n >= 10 {
      var r := NatToString(n);
      assert r[..|r| - 1] == NatToString(n / 10);
      DigitsValueNatToString(n / 10);
    }
  }

  /** Integer.parseInt inverts Integer.toString on every int. */
  lemma ParseIntToString(x: Int32)
    ensures ParseInt(IntToString(x)) == Some(x)
  {
    var m: int := x;
    if m < 0 {
      var d := NatToString(-m);
      var s := "-" + d;
      assert s[0] == '-' && s[1..] == d;
      DigitsValueNatToString(-m);
      assert ParseInt(s) == Some(x);
    } else {
      var d := NatToString(x);
      assert d[0] != '-' && d[0] != '+';
      DigitsValueNatToString(x);
      assert ParseInt(d) == Some(x);
    }
  }

  /** A '+' sign and leading zeros do not change the value read. */
  lemma ParseIntIgnoresPlusAndZeros(d: string)
    requires d != [] && AllDigits(d)
    ensures ParseInt("+" + d) == ParseInt(d)
    ensures ParseInt("0" + d) == ParseInt(d)
  {
    assert ("+" + d)[1..] == d;
    var z := "0" + d;
    assert AllDigits(z);
    DigitsValueLeadingZero(d);
  }

  lemma {:induction false} DigitsValueLeadingZero(d: string)
    requires AllDigits(d)
    ensures AllDigits("0" + d) && DigitsValue("0" + d) == DigitsValue(d)
  {
    var z := "0" + d;
    assert AllDigits(z);
    if d != [] {
      assert z[..|z| - 1] == "0" + d[..|d| - 1];
      DigitsValueLeadingZero(d[..|d| - 1]);
    }
  }

  /** Values outside the int range are rejected, not wrapped around; the range is asymmetric. */
  lemma ParseIntRange(d: string)
    requires d != [] && AllDigits(d)
    ensures ParseInt(d).None? <==> DigitsValue(d) > MAX_VALUE
    ensures ParseInt("-" + d).None? <==> DigitsValue(d) > -MIN_VALUE
  {
    assert ("-" + d)[1..] == d;
  }
}

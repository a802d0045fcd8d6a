/** Decimal text of Java's 64-bit `long`: Long.valueOf / Long.parseLong on
    a String, and Long.toString. The realtime router reads a group id with
    the first and builds the group topic with the second. */
module LongText {
  import opened Common

  const LongMin: int := -0x8000_0000_0000_0000
  const LongMax: int := 0x7FFF_FFFF_FFFF_FFFF

  predicate InLongRange(n: int) {
    LongMin <= n <= LongMax
  }

  predicate IsDigit(c: char) {
    '0' <= c <= '9'
  }

  predicate AllDigits(s: string) {
    forall i :: 0 <= i < |s| ==> IsDigit(s[i])
  }

  function DigitValue(c: char): nat
    requires IsDigit(c)
  {
    c as int - '0' as int
  }

  function DigitChar(d: nat): (c: char)
    requires d < 10
    ensures IsDigit(c) && DigitValue(c) == d
  {
    ('0' as int + d) as char
  }

  /** The value of a string of decimal digits, most significant first. */
  function DigitsValue(s: string): nat
    requires AllDigits(s)
    decreases |s|
  {
    if s == [] then 0 else DigitsValue(s[..|s| - 1]) * 10 + DigitValue(s[|s| - 1])
  }

  /** The decimal digits of n, with no leading zero unless n is zero. */
  function NatToDigits(n: nat): (r: string)
    ensures |r| >= 1 && AllDigits(r)
    ensures r[0] == '0' ==> n == 0
    decreases n
  {
    if n < 10 then [DigitChar(n)] else NatToDigits(n / 10) + [DigitChar(n % 10)]
  }

  /** Reading back the digits of n gives n. */
  lemma {:induction false} DigitsRoundTrip(n: nat)
    ensures DigitsValue(NatToDigits(n)) == n
    decreases n
  {
    if n >= 10 {
      var r := NatToDigits(n);
      assert r[..|r| - 1] == NatToDigits(n / 10);
      DigitsRoundTrip(n / 10);
    }
  }

  /** Long.toString: a minus sign for negative values, then the digits of
      the magnitude. */
  function LongToString(n: int): (r: string)
    requires InLongRange(n)
    ensures |r| >= 1
    ensures n < 0 <==> r[0] == '-'
    ensures n >= 0 ==> AllDigits(r)
    ensures n < 0 ==> |r| >= 2 && AllDigits(r[1..])
  {
    if n < 0 then "-" + NatToDigits(-n) else NatToDigits(n)
  }

  /** Long.parseLong on ASCII text: an optional '+' or '-', then at least
      one digit, whose value must fit in 64 bits; anything else is a
      NumberFormatException, here None. Leading zeros are accepted. */
  function ParseLong(s: string): (r: Option<int>)
    ensures r.Some? ==> InLongRange(r.value)
    ensures s == [] ==> r.None?
  {
    if s == [] then None
    else
      var negative := s[0] == '-';
      var body := if s[0] == '-' || s[0] == '+' then s[1..] else s;
      if body == [] || !AllDigits(body) then None
      else
        var v: int := DigitsValue(body);
        var n: int := if negative then -v else v;
        if InLongRange(n) then Some(n) else None
  }

  /** Parsing what Long.toString printed gives the number back. */
  lemma ParseLongToString(n: int)
    requires InLongRange(n)
    ensures ParseLong(LongToString(n)) == Some(n)
  {
    var s := LongToString(n);
    if n < 0 {
      assert s[1..] == NatToDigits(-n);
      DigitsRoundTrip(-n);
    } else {
      DigitsRoundTrip(n);
    }
  }

  /** Different longs print differently. */
  lemma LongToStringInjective(a: int, b: int)
    requires InLongRange(a) && InLongRange(b)
    requires LongToString(a) == LongToString(b)
    ensures a == b
  {
    ParseLongToString(a);
    ParseLongToString(b);
  }

  /** Parsing and printing again normalises the text: "+007" comes out
      as "7". */
  lemma ParseLongNormalises()
    ensures ParseLong("+007") == Some(7) && LongToString(7) == "7"
    ensures ParseLong("-12") == Some(-12)
  {
    assert "+007"[1..] == "007";
    assert "007"[..2] == "00" && "00"[..1] == "0" && "0"[..0] == [];
    assert DigitsValue("007") == 7;
    assert DigitChar(7) == '7';
    assert "-12"[1..] == "12";
    assert "12"[..1] == "1";
  }

  /** A bare sign, a stray letter and the empty string are rejected. */
  lemma ParseLongRejects()
    ensures ParseLong("-").None? && ParseLong("12a").None? && ParseLong("").None?
  {
    assert "-"[1..] == [];
    assert !IsDigit("12a"[2]);
  }
}

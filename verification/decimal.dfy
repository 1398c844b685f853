/**
  Decimal text for integers: Python's `str(n)` (and `format`) on the way out, and a
  reader for exactly the numerals written here. The round-trip lemmas show that every
  number the handlers print is read back as the same number. The reader is stricter
  than a general integer parser: it rejects a leading `+` or surrounding spaces.
 */
module Decimal {
  import opened Wrappers

  predicate IsDigit(c: char) {
    '0' <= c <= '9'
  }

  predicate AllDigits(s: string) {
    forall i :: 0 <= i < |s| ==> IsDigit(s[i])
  }

  function DigitValue(c: char): (d: nat)
    requires IsDigit(c)
    ensures d < 10
  {
    (c as int) - ('0' as int)
  }

  function DigitChar(d: nat): (c: char)
    requires d < 10
    ensures IsDigit(c) && DigitValue(c) == d
  {
    (('0' as int) + d) as char
  }

  /** The shortest decimal numeral of `n`, as Python's `str` writes it. */
  function NatToString(n: nat): (s: string)
    ensures 1 <= |s|
    ensures AllDigits(s)
    ensures (s[0] == '0') == (n == 0)
  {
    if n < 10 then [DigitChar(n)]
    else NatToString(n / 10) + [DigitChar(n % 10)]
  }

  /** A numeral with an optional leading minus sign. */
  function IntToString(i: int): (s: string)
    ensures 1 <= |s|
    ensures (s[0] == '-') == (i < 0)
  {
    if i < 0 then "-" + NatToString(-i) else NatToString(i)
  }

  /** The value of a string of digits, most significant first. */
  function DigitsValue(s: string): nat
    requires AllDigits(s)
  {
    if s == [] then 0
    else DigitsValue(s[..|s| - 1]) * 10 + DigitValue(s[|s| - 1])
  }

  /** Reads a non-empty string of digits; anything else is rejected. */
  function ParseNat(s: string): (r: Option<nat>)
    ensures r.Some? <==> 1 <= |s| && AllDigits(s)
  {
    if 1 <= |s| && AllDigits(s) then Some(DigitsValue(s)) else None
  }

  /** Reads a numeral with an optional leading minus sign. */
  function ParseInt(s: string): (r: Option<int>)
    ensures r.Some? && r.value < 0 ==> 2 <= |s| && s[0] == '-'
  {
    if 1 <= |s| && s[0] == '-' then
      match ParseNat(s[1..])
      case Some(n) => Some(-(n as int))
      case None => None
    else
      match ParseNat(s)
      case Some(n) => Some(n)
      case None => None
  }

  lemma {:induction false} NatToStringRoundTrip(n: nat)
    ensures ParseNat(NatToString(n)) == Some(n)
  {
    var s := NatToString(n);
    if n >= 10 {
      NatToStringRoundTrip(n / 10);
      assert s[..|s| - 1] == NatToString(n / 10);
      assert s[|s| - 1] == DigitChar(n % 10);
      assert DigitsValue(s) == (n / 10) * 10 + n % 10;
    }
  }

  lemma IntToStringRoundTrip(i: int)
    ensures ParseInt(IntToString(i)) == Some(i)
  {
    if i < 0 {
      NatToStringRoundTrip(-i);
      assert IntToString(i)[1..] == NatToString(-i);
    } else {
      NatToStringRoundTrip(i);
    }
  }
}

/** `Number.prototype.toString()` on integral numbers: the text that template literals
    and `toString` produce for the attempt counters, the delays and numeric hash values. */
module Decimal {

  /** The character of a decimal digit. */
  function DigitChar(d: nat): (c: char)
    requires d < 10
    ensures '0' <= c <= '9'
  {
    ('0' as int + d) as char
  }

  /** The value of a decimal digit character. */
  function DigitValue(c: char): int {
    c as int - '0' as int
  }

  /** Decimal text of a natural number: only digits, and no leading zero. */
  function NatToText(n: nat): (s: string)
    ensures |s| > 0
    ensures forall i :: 0 <= i < |s| ==> '0' <= s[i] <= '9'
    ensures s[0] == '0' <==> n == 0
    ensures s[0] == '0' ==> |s| == 1
  {
    if n < 10 then [DigitChar(n)] else NatToText(n / 10) + [DigitChar(n % 10)]
  }

  /** The number a string of digits denotes. */
  function ParseNat(s: string): int {
    if s == [] then 0 else ParseNat(s[..|s| - 1]) * 10 + DigitValue(s[|s| - 1])
  }

  /** Decimal text of an integer: a minus sign before the digits of a negative number. */
  function IntToText(n: int): (s: string)
    ensures |s| > 0
    ensures s[0] == '-' <==> n < 0
  {
    if n < 0 then "-" + NatToText(-n) else NatToText(n)
  }

  /** The number an optionally signed string of digits denotes. */
  function ParseInt(s: string): int {
    if s != [] && s[0] == '-' then -ParseNat(s[1..]) else ParseNat(s)
  }

  /** Reading the digits back gives the number that was formatted. */
  lemma {:induction false} NatRoundTrip(n: nat)
    ensures ParseNat(NatToText(n)) == n
  {
    var s := NatToText(n);
    if n < 10 {
      assert s[..|s| - 1] == [];
    } else {
      assert s[..|s| - 1] == NatToText(n / 10);
      NatRoundTrip(n / 10);
    }
  }

  /** Reading the text back gives the integer that was formatted. */
  lemma IntRoundTrip(n: int)
    ensures ParseInt(IntToText(n)) == n
  {
    var s := IntToText(n);
    if n < 0 {
      var digits := NatToText(-n);
      assert s == "-" + digits;
      assert s[1..] == digits;
      NatRoundTrip(-n);
      assert ParseInt(s) == -ParseNat(digits);
    } else {
      assert s == NatToText(n);
      assert '0' <= s[0] <= '9';
      NatRoundTrip(n);
      assert ParseInt(s) == ParseNat(s);
    }
  }
}

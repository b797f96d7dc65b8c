/** Decimal text of the small non-negative integers the rasteriser prints
    (colour channels), as JavaScript's number-to-string conversion writes
    them, together with the parser that reads them back. */
module Decimal {

  predicate IsDigit(c: char) {
    '0' <= c <= '9'
  }

  predicate AllDigits(s: string) {
    forall i :: 0 <= i < |s| ==> IsDigit(s[i])
  }

  function DigitValue(c: char): (d: nat)
    requires IsDigit(c)
    ensures d < 10
  {
    c as int - '0' as int
  }

  function DigitChar(d: nat): (c: char)
    requires d < 10
    ensures IsDigit(c) && DigitValue(c) == d
  {
    ('0' as int + d) as char
  }

  /** The decimal numeral of `n`: digits only, and no leading zero except in
      the numeral of zero itself. */
  function NatText(n: nat): (s: string)
    ensures 1 <= |s|
    ensures AllDigits(s)
    ensures s[0] == '0' <==> n == 0
    ensures s[0] == '0' ==> |s| == 1
    decreases n
  {
    if n < 10 then [DigitChar(n)] else NatText(n / 10) + [DigitChar(n % 10)]
  }

  /** The value of a numeral, most significant digit first. */
  function ParseDigits(s: string): nat
    requires AllDigits(s)
  {
    if |s| == 0 then 0 else ParseDigits(s[..|s| - 1]) * 10 + DigitValue(s[|s| - 1])
  }

  lemma {:induction false} ParseNatText(n: nat)
    ensures ParseDigits(NatText(n)) == n
    decreases n
  {
    var s := NatText(n);
    if n >= 10 {
      assert s[..|s| - 1] == NatText(n / 10);
      ParseNatText(n / 10);
    }
  }

}

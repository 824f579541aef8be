/**
  Decimal numerals.

  `Digits` is the canonical decimal form Go's `fmt.Sprintf("%v", v)` prints
  for an unsigned number: no sign and no leading zero.  `Number` reads a
  string of digits back, most significant digit first; leading zeros are
  allowed there, as in the prefix length of a CIDR string.
*/
module Decimal {

  predicate IsDigit(c: char)
  {
    '0' <= c <= '9'
  }

  predicate AllDigits(s: string)
  {
    forall i | 0 <= i < |s| :: IsDigit(s[i])
  }

  /** A decimal numeral without leading zeros: "0", or digits starting with
      a nonzero digit. */
  predicate Canonical(s: string)
  {
    |s| >= 1 && AllDigits(s) && (s[0] == '0' ==> |s| == 1)
  }

  function DigitChar(d: nat): (c: char)
    requires d < 10
    ensures IsDigit(c) && c as int - '0' as int == d
  {
    ('0' as int + d) as char
  }

  /** The canonical decimal numeral of n. */
  function Digits(n: nat): (s: string)
    ensures Canonical(s)
  {
    if n < 10 then [DigitChar(n)] else Digits(n / 10) + [DigitChar(n % 10)]
  }

  /** The number a string of decimal digits spells. */
  function Number(s: string): nat
    requires AllDigits(s)
  {
    if |s| == 0 then 0 else Number(s[..|s| - 1]) * 10 + (s[|s| - 1] as int - '0' as int)
  }

  /** The numeral of n reads back as n. */
  lemma {:induction false} NumberOfDigits(n: nat)
    ensures Number(Digits(n)) == n
  {
    if n >= 10 {
      NumberOfDigits(n / 10);
      assert Digits(n)[..|Digits(n)| - 1] == Digits(n / 10);
    }
  }

  /** Digits that do not start with zero spell a positive number. */
  lemma {:induction false} NumberPositive(s: string)
    requires |s| >= 1 && AllDigits(s) && s[0] != '0'
    ensures Number(s) >= 1
  {
    if |s| > 1 {
      NumberPositive(s[..|s| - 1]);
    }
  }

  /** A canonical numeral is the numeral of the number it spells. */
  lemma {:induction false} DigitsOfNumber(s: string)
    requires Canonical(s)
    ensures Digits(Number(s)) == s
  {
    if |s| > 1 {
      var init := s[..|s| - 1];
      NumberPositive(init);
      DigitsOfNumber(init);
      assert s == init + [s[|s| - 1]];
    }
  }
}

/**
 * Integer <-> decimal text, as JavaScript renders a number in a template
 * literal (`${n}`) or an object key, and as `Number(text)` reads it back.
 */
module Decimal {

  function DigitChar(d: nat): (c: char)
    requires d < 10
    ensures '0' <= c <= '9'
  {
    "0123456789"[d]
  }

  function DigitValue(c: char): (d: nat)
    requires '0' <= c <= '9'
    ensures d < 10 && DigitChar(d) == c
  {
    (c as int - '0' as int) as nat
  }

  predicate IsDigits(s: string) {
    forall k :: 0 <= k < |s| ==> '0' <= s[k] <= '9'
  }

  /** Decimal rendering of a natural number, without leading zeros. */
  function NatToDecimal(n: nat): (s: string)
    ensures |s| > 0 && IsDigits(s)
    ensures s[0] == '0' <==> n == 0
    ensures n == 0 ==> s == "0"
    decreases n
  {
    if n < 10 then [DigitChar(n)] else NatToDecimal(n / 10) + [DigitChar(n % 10)]
  }

  /** `${n}` for an integer n. */
  function IntToDecimal(n: int): (s: string)
    ensures |s| > 0
    ensures forall k :: 0 <= k < |s| ==> s[k] == '-' || '0' <= s[k] <= '9'
    // the canonical form: a sign only for negatives, then digits without leading zeros
    ensures n < 0 <==> s[0] == '-'
    ensures var digits := if n < 0 then s[1..] else s;
            |digits| > 0 && IsDigits(digits) && (digits[0] == '0' <==> n == 0)
    ensures n == 0 ==> s == "0"
  {
    if n < 0 then "-" + NatToDecimal(-n) else NatToDecimal(n)
  }

  /** Value of a string of decimal digits (leading zeros allowed). */
  function DigitsValue(s: string): nat
    requires IsDigits(s)
  {
    if |s| == 0 then 0 else DigitsValue(s[..|s| - 1]) * 10 + DigitValue(s[|s| - 1])
  }

  /** A JavaScript number as far as this model evaluates `Number(text)`. */
  datatype JsNumber =
    | Int(i: int)              // an integral result
    | NaN                      // `Number(undefined)`, or a lone sign
    | Unevaluated(text: string) // any other text (fractions, exponents, hex, blanks): not computed here

  /**
   * `Number(text)`: the empty string is 0; an optional sign followed by
   * decimal digits is that integer.
   */
  function ToNumber(text: string): (r: JsNumber)
    ensures IsDigits(text) ==> r == Int(DigitsValue(text))
  {
    if |text| == 0 then Int(0)
    else if IsDigits(text) then Int(DigitsValue(text))
    else if text[0] == '-' && IsDigits(text[1..]) then
      (if |text| == 1 then NaN else Int(-(DigitsValue(text[1..]) as int)))
    else if text[0] == '+' && IsDigits(text[1..]) then
      (if |text| == 1 then NaN else Int(DigitsValue(text[1..])))
    else Unevaluated(text)
  }

  lemma {:induction false} NatDecimalRoundTrip(n: nat)
    ensures DigitsValue(NatToDecimal(n)) == n
    decreases n
  {
    var s := NatToDecimal(n);
    if n >= 10 {
      NatDecimalRoundTrip(n / 10);
      assert s == NatToDecimal(n / 10) + [DigitChar(n % 10)];
      assert s[..|s| - 1] == NatToDecimal(n / 10);
      assert DigitValue(s[|s| - 1]) == n % 10;
    }
  }

  /** A minus sign before the digits of m reads back as -m. */
  lemma NegativeRoundTrip(m: nat)
    ensures ToNumber("-" + NatToDecimal(m)) == Int(-(m as int))
  {
    var t := NatToDecimal(m);
    var s := "-" + t;
    assert s[1..] == t;
    assert !IsDigits(s) by {
      assert s[0] == '-';
    }
    NatDecimalRoundTrip(m);
  }

  /** The digits of n read back as n. */
  lemma NonNegativeRoundTrip(n: nat)
    ensures ToNumber(NatToDecimal(n)) == Int(n)
  {
    NatDecimalRoundTrip(n);
  }

  /** `Number(`${n}`) === n` for every integer n. */
  lemma DecimalRoundTrip(n: int)
    ensures ToNumber(IntToDecimal(n)) == Int(n)
  {
    if n < 0 {
      NegativeRoundTrip(-n);
    } else {
      NonNegativeRoundTrip(n);
    }
  }

  /** Two integers render to the same text only if they are equal. */
  lemma DecimalInjective(m: int, n: int)
    requires IntToDecimal(m) == IntToDecimal(n)
    ensures m == n
  {
    DecimalRoundTrip(m);
    DecimalRoundTrip(n);
  }
}

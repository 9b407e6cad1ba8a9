/**
 * Decimal rendering of integers, as Java's `Long.toString` (and so `String.format("%s", long)`)
 * writes them, together with an independent decimal reader that serves as its inverse.
 */
module Decimal {
  import opened Wrappers

  predicate IsDigit(c: char) {
    '0' <= c <= '9'
  }

  predicate AllDigits(s: string) {
    forall i | 0 <= i < |s| :: IsDigit(s[i])
  }

  /** The character of the decimal digit `d`. */
  function DigitChar(d: nat): (c: char)
    requires d < 10
    ensures IsDigit(c) && DigitValue(c) == d
  {
    (('0' as int) + d) as char
  }

  /** The value of a decimal digit character. */
  function DigitValue(c: char): (d: nat)
    requires IsDigit(c)
    ensures d < 10
  {
    (c as int) - ('0' as int)
  }

  /**
   * The decimal digits of `n`, most significant first, with no leading zero
   * (the single digit "0" for zero).
   */
  function NatToString(n: nat): (s: string)
    ensures |s| >= 1 && AllDigits(s)
    ensures s[0] == '0' <==> n == 0
    ensures n == 0 ==> s == "0"
    ensures n < 10 <==> |s| == 1
    decreases n
  {
    if n < 10 then [DigitChar(n)] else NatToString(n / 10) + [DigitChar(n % 10)]
  }

  /** `Long.toString(n)`: a minus sign before the digits of a negative number. */
  function IntToString(n: int): (s: string)
    ensures |s| >= 1
    ensures n < 0 <==> s[0] == '-'
    ensures n >= 0 ==> AllDigits(s)
    ensures s[0] == '0' <==> n == 0
    ensures n == 0 ==> s == "0"
    ensures n < 0 ==> |s| >= 2 && AllDigits(s[1..]) && s[1] != '0'
  {
    if n < 0 then "-" + NatToString(-n) else NatToString(n)
  }

  /** The number a string of decimal digits denotes, read most significant digit first. */
  function DigitsValue(s: string): nat
    requires AllDigits(s)
  {
    if s == [] then 0 else DigitsValue(s[..|s| - 1]) * 10 + DigitValue(s[|s| - 1])
  }

  /** Reads an optionally signed decimal numeral; `None` for anything else. */
  function ParseDecimal(s: string): (r: Option<int>)
    ensures r.Some? ==> |s| >= 1 && (r.value < 0 ==> s[0] == '-')
  {
    if |s| >= 2 && s[0] == '-' && AllDigits(s[1..]) then Some(0 - DigitsValue(s[1..]))
    else if |s| >= 1 && AllDigits(s) then Some(DigitsValue(s))
    else None
  }

  /** Reading back the digits of `n` gives `n`. */
  lemma {:induction false} NatToStringValue(n: nat)
    ensures DigitsValue(NatToString(n)) == n
    decreases n
  {
    var s := NatToString(n);
    if n >= 10 {
      NatToStringValue(n / 10);
      assert s[..|s| - 1] == NatToString(n / 10);
    }
  }

  /** `ParseDecimal` inverts `IntToString` on every integer. */
  lemma IntToStringRoundTrip(n: int)
    ensures ParseDecimal(IntToString(n)) == Some(n)
  {
    var s := IntToString(n);
    if n < 0 {
      assert s[1..] == NatToString(-n);
      NatToStringValue(-n);
    } else {
      NatToStringValue(n);
    }
  }

  /** Two integers with the same rendering are equal. */
  lemma IntToStringInjective(m: int, n: int)
    ensures IntToString(m) == IntToString(n) <==> m == n
  {
    if IntToString(m) == IntToString(n) {
      IntToStringRoundTrip(m);
      IntToStringRoundTrip(n);
    }
  }
}

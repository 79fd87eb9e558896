/**
 * How the report prints a count: Python's `str` of an integer, that is an
 * optional minus sign followed by decimal digits without leading zeros and
 * without grouping separators. Parsing the printed text back gives the count.
 */
module Decimal {
  import opened Wrappers

  predicate IsDigit(c: char) {
    '0' <= c <= '9'
  }

  predicate AllDigits(s: string) {
    forall i :: 0 <= i < |s| ==> IsDigit(s[i])
  }

  function DigitChar(d: int): (c: char)
    requires 0 <= d < 10
    ensures IsDigit(c)
  {
    ('0' as int + d) as char
  }

  /** Decimal digits of a natural number, most significant first. */
  function NatToString(n: nat): string {
    if n < 10 then [DigitChar(n)] else NatToString(n / 10) + [DigitChar(n % 10)]
  }

  /** `str(n)` for an integer `n`. */
  function IntToString(n: int): string {
    if n < 0 then "-" + NatToString(-n) else NatToString(n)
  }

  /** A natural number prints as at least one decimal digit, with no leading zero. */
  lemma {:induction false} NatToStringShape(n: nat)
    ensures var s := NatToString(n);
      |s| >= 1 && AllDigits(s) && (|s| > 1 ==> s[0] != '0')
  {
    if n >= 10 {
      var prefix := NatToString(n / 10);
      NatToStringShape(n / 10);
      var s := prefix + [DigitChar(n % 10)];
      assert s[0] == prefix[0];
      assert forall i :: 0 <= i < |prefix| ==> s[i] == prefix[i];
    }
  }

  /**
   * `str(n)` is a minus sign exactly for negative `n`, followed by the digits
   * of `|n|`; no leading zero follows the sign.
   */
  lemma IntToStringShape(n: int)
    ensures var s := IntToString(n);
      && |s| >= 1
      && (s[0] == '-' <==> n < 0)
      && (n >= 0 ==> AllDigits(s))
      && (n < 0 ==> AllDigits(s[1..]) && |s| >= 2)
      && (n < 0 ==> s[1..] == NatToString(-n))
      && (|s| > 1 && s[0] != '-' ==> s[0] != '0')
      && (n < 0 && |s| > 2 ==> s[1] != '0')
  {
    if n < 0 {
      NatToStringShape(-n);
      assert IntToString(n)[1..] == NatToString(-n);
    } else {
      NatToStringShape(n);
    }
  }

  /** The number a string of decimal digits denotes. */
  function DigitsValue(s: string): nat
    requires AllDigits(s)
  {
    if s == [] then 0
    else DigitsValue(s[..|s| - 1]) * 10 + (s[|s| - 1] as int - '0' as int)
  }

  /** Reading an integer back from its printed form: digits, or a minus sign and digits. */
  function ParseInt(s: string): Option<int> {
    if |s| >= 1 && AllDigits(s) then Some(DigitsValue(s))
    else if |s| >= 2 && s[0] == '-' && AllDigits(s[1..]) then Some(0 - DigitsValue(s[1..]) as int)
    else None
  }

  lemma {:induction false} NatDigitsRoundTrip(n: nat)
    ensures AllDigits(NatToString(n)) && DigitsValue(NatToString(n)) == n
  {
    NatToStringShape(n);
    if n >= 10 {
      var s := NatToString(n);
      var prefix := NatToString(n / 10);
      assert s[..|s| - 1] == prefix;
      NatDigitsRoundTrip(n / 10);
    }
  }

  /** Printing a count and parsing the text back reproduces the count exactly. */
  lemma IntRoundTrip(n: int)
    ensures ParseInt(IntToString(n)) == Some(n)
  {
    IntToStringShape(n);
    if n < 0 {
      NatDigitsRoundTrip(-n);
      assert IntToString(n)[1..] == NatToString(-n);
    } else {
      NatDigitsRoundTrip(n);
    }
  }

  /** Distinct counts print differently. */
  lemma IntToStringInjective(m: int, n: int)
    requires IntToString(m) == IntToString(n)
    ensures m == n
  {
    IntRoundTrip(m);
    IntRoundTrip(n);
  }
}

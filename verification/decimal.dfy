/** Decimal text of integers, as `{}` formats an `i32`, and its inverse. */
module Decimal {
  import opened Wrappers

  predicate IsDigit(c: char) {
    '0' <= c <= '9'
  }

  function DigitChar(d: nat): (c: char)
    requires d < 10
    ensures IsDigit(c)
  {
    "0123456789"[d]
  }

  function DigitValue(c: char): (d: nat)
    requires IsDigit(c)
    ensures d < 10
  {
    (c as int - '0' as int) as nat
  }

  /** Digits of `n`, most significant first, with no leading zero. */
  function NatToDigits(n: nat): (s: string)
    ensures |s| > 0 && forall k :: 0 <= k < |s| ==> IsDigit(s[k])
    ensures |s| > 1 ==> s[0] != '0'
  {
    if n < 10 then [DigitChar(n)] else NatToDigits(n / 10) + [DigitChar(n % 10)]
  }

  /** Value of a string of decimal digits. */
  function DigitsValue(s: string): nat
    requires forall k :: 0 <= k < |s| ==> IsDigit(s[k])
  {
    if |s| == 0 then 0 else 10 * DigitsValue(s[..|s| - 1]) + DigitValue(s[|s| - 1])
  }

  lemma {:induction false} DigitsRoundTrip(n: nat)
    ensures DigitsValue(NatToDigits(n)) == n
  {
    if n >= 10 {
      DigitsRoundTrip(n / 10);
      var s := NatToDigits(n);
      assert s[..|s| - 1] == NatToDigits(n / 10);
    }
  }

  /** `{}` of an integer: its digits, after a '-' when it is negative. */
  function IntToText(i: int): (s: string)
    ensures |s| > 0
    ensures s[0] == '-' <==> i < 0
    ensures forall k :: 0 < k < |s| ==> IsDigit(s[k])
    ensures var d := if i < 0 then s[1..] else s; |d| > 0 && (|d| > 1 ==> d[0] != '0')
  {
    if i < 0 then "-" + NatToDigits(-i) else NatToDigits(i)
  }

  /** Read back what `IntToText` writes; None for anything else that is not
      an optional '-' followed by digits. */
  function ParseInt(s: string): Option<int> {
    if |s| > 0 && s[0] == '-' then
      if |s| > 1 && forall k :: 1 <= k < |s| ==> IsDigit(s[k]) then Some(-(DigitsValue(s[1..]) as int)) else None
    else if |s| > 0 && forall k :: 0 <= k < |s| ==> IsDigit(s[k]) then Some(DigitsValue(s))
    else None
  }

  /** Every integer's text parses back to the integer. */
  lemma IntTextRoundTrip(i: int)
    ensures ParseInt(IntToText(i)) == Some(i)
  {
    if i < 0 {
      DigitsRoundTrip(-i);
      assert IntToText(i)[1..] == NatToDigits(-i);
    } else {
      DigitsRoundTrip(i);
    }
  }
}

/** The decimal rendering of integers that Go's `%d` verb performs, and the
    parser that reads such a rendering back. Error messages of the rule
    repository embed identifiers through this rendering. */
module Decimal {
  import opened Results

  predicate IsDigit(c: char) {
    '0' <= c <= '9'
  }

  predicate AllDigits(s: string) {
    forall i :: 0 <= i < |s| ==> IsDigit(s[i])
  }

  function DigitChar(d: int): (c: char)
    requires 0 <= d < 10
    ensures IsDigit(c)
  {
    ('0' as int + d) as char
  }

  function DigitValue(c: char): (d: nat)
    requires IsDigit(c)
    ensures d < 10
  {
    c as int - '0' as int
  }

  /** Most significant digit first, no leading zero. */
  function NatToString(n: nat): (s: string)
    ensures |s| >= 1
    ensures AllDigits(s)
    ensures s[0] == '0' <==> n == 0
    ensures n < 10 <==> |s| == 1
  {
    if n < 10 then [DigitChar(n)] else NatToString(n / 10) + [DigitChar(n % 10)]
  }

  /** The `%d` rendering: a minus sign before the magnitude of a negative value. */
  function Format(n: int): (s: string)
    ensures |s| >= 1
    ensures s[0] == '-' <==> n < 0
  {
    if n < 0 then "-" + NatToString(-n) else NatToString(n)
  }

  function ParseDigits(s: string): nat
    requires |s| >= 1 && AllDigits(s)
  {
    if |s| == 1 then DigitValue(s[0])
    else ParseDigits(s[..|s| - 1]) * 10 + DigitValue(s[|s| - 1])
  }

  /** Reads an optional minus sign followed by at least one digit; anything
      else is refused. */
  function Parse(s: string): Option<int> {
    if |s| >= 2 && s[0] == '-' && AllDigits(s[1..]) then
      var magnitude: int := ParseDigits(s[1..]);
      Some(-magnitude)
    else if |s| >= 1 && AllDigits(s) then
      var magnitude: int := ParseDigits(s);
      Some(magnitude)
    else None
  }

  lemma {:induction false} ParseDigitsNatToString(n: nat)
    ensures ParseDigits(NatToString(n)) == n
  {
    if n >= 10 {
      var s := NatToString(n);
      assert s[..|s| - 1] == NatToString(n / 10);
      ParseDigitsNatToString(n / 10);
    }
  }

  /** Every integer is recovered from its `%d` rendering. */
  lemma FormatRoundTrip(n: int)
    ensures Parse(Format(n)) == Some(n)
  {
    if n < 0 {
      assert Format(n)[1..] == NatToString(-n);
      ParseDigitsNatToString(-n);
    } else {
      ParseDigitsNatToString(n);
    }
  }

  /** Distinct integers have distinct renderings. */
  lemma FormatInjective(m: int, n: int)
    ensures Format(m) == Format(n) <==> m == n
  {
    if Format(m) == Format(n) {
      FormatRoundTrip(m);
      FormatRoundTrip(n);
    }
  }
}

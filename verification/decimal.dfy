/**
  Decimal rendering of integers as Rust's `{}` formatter prints them (an
  optional `-`, then the digits without leading zeros), and a parser that
  undoes it.
 */
module Decimal {
  import opened Optional

  predicate IsDigit(c: char) {
    '0' <= c <= '9'
  }

  predicate AllDigits(s: string) {
    forall i :: 0 <= i < |s| ==> IsDigit(s[i])
  }

  function DigitChar(d: nat): (c: char)
    requires d < 10
    ensures IsDigit(c)
  {
    "0123456789"[d]
  }

  function DigitValue(c: char): (d: nat)
    requires IsDigit(c)
    ensures d < 10
  {
    c as int - '0' as int
  }

  /** The digits of `n`, most significant first. */
  function NatDigits(n: nat): (s: string)
    ensures |s| >= 1 && AllDigits(s)
    ensures s[0] == '0' <==> n == 0
    ensures n == 0 ==> s == "0"
    decreases n
  {
    if n < 10 then [DigitChar(n)] else NatDigits(n / 10) + [DigitChar(n % 10)]
  }

  /** What `format!("{}", v)` yields for an integer `v`. */
  function ToDecimal(v: int): (s: string)
    ensures |s| >= 1
    ensures s[0] == '-' <==> v < 0
    ensures AllDigits(if v < 0 then s[1..] else s)
  {
    if v < 0 then "-" + NatDigits(-v) else NatDigits(v)
  }

  function ParseNat(s: string): nat
    requires |s| >= 1 && AllDigits(s)
    decreases |s|
  {
    if |s| == 1 then DigitValue(s[0])
    else 10 * ParseNat(s[..|s| - 1]) + DigitValue(s[|s| - 1])
  }

  /** Reads back a decimal integer; `None` for anything that is not one. */
  function ParseDecimal(s: string): Option<int> {
    if |s| == 0 then None
    else if s[0] == '-' then
      if |s| >= 2 && AllDigits(s[1..]) then Some(-(ParseNat(s[1..]) as int)) else None
    else if AllDigits(s) then Some(ParseNat(s))
    else None
  }

  lemma {:induction false} ParseNatDigits(n: nat)
    ensures ParseNat(NatDigits(n)) == n
    decreases n
  {
    if n >= 10 {
      var s := NatDigits(n);
      assert s[..|s| - 1] == NatDigits(n / 10);
      ParseNatDigits(n / 10);
    }
  }

  /** The digits of `n` parse as `n`. */
  lemma ParseNonNegative(n: nat)
    ensures ParseDecimal(NatDigits(n)) == Some(n as int)
  {
    ParseNatDigits(n);
  }

  /** A minus sign followed by the digits of `n` parses as `-n`. */
  lemma ParseNegative(n: nat)
    ensures ParseDecimal("-" + NatDigits(n)) == Some(-(n as int))
  {
    var d := NatDigits(n);
    var s := "-" + d;
    assert s[1..] == d;
    ParseNatDigits(n);
  }

  /** Parsing the rendered decimal gives back the integer. */
  lemma DecimalRoundTrip(v: int)
    ensures ParseDecimal(ToDecimal(v)) == Some(v)
  {
    if v < 0 {
      var n: nat := -v;
      assert ToDecimal(v) == "-" + NatDigits(n);
      ParseNegative(n);
    } else {
      var n: nat := v;
      assert ToDecimal(v) == NatDigits(n);
      ParseNonNegative(n);
    }
  }

  /** Distinct integers render differently. */
  lemma DecimalInjective(a: int, b: int)
    ensures ToDecimal(a) == ToDecimal(b) <==> a == b
  {
    DecimalRoundTrip(a);
    DecimalRoundTrip(b);
  }
}

/** Swift's string interpolation of an `Int` ("\(n)"): base-ten digits with
    no leading zeros, preceded by '-' for a negative value. `ParseInt` reads
    such a rendering back. */
module Decimal {
  import opened Wrappers

  predicate IsDigit(c: char) {
    '0' <= c <= '9'
  }

  predicate AllDigits(s: string) {
    forall i :: 0 <= i < |s| ==> IsDigit(s[i])
  }

  function DigitChar(d: nat): (c: char)
    requires d < 10
    ensures IsDigit(c)
    ensures DigitValue(c) == d
  {
    ('0' as int + d) as char
  }

  function DigitValue(c: char): (d: nat)
    requires IsDigit(c)
    ensures d < 10
  {
    (c as int - '0' as int) as nat
  }

  /** The decimal digits of `n`, most significant first. */
  function NatToString(n: nat): (s: string)
    ensures |s| >= 1 && AllDigits(s)
    ensures s[0] == '0' ==> n == 0 && |s| == 1
    decreases n
  {
    if n < 10 then [DigitChar(n)] else NatToString(n / 10) + [DigitChar(n % 10)]
  }

  /** The value of a string of decimal digits. */
  function DigitsValue(s: string): nat
    requires AllDigits(s)
  {
    if |s| == 0 then 0 else DigitsValue(s[..|s| - 1]) * 10 + DigitValue(s[|s| - 1])
  }

  /** The rendering of an `Int` by Swift's string interpolation. */
  function IntToString(i: int): (s: string)
    ensures |s| >= 1
    ensures i >= 0 ==> AllDigits(s)
    ensures i < 0 ==> s[0] == '-' && |s| >= 2 && AllDigits(s[1..])
  {
    if i < 0 then "-" + NatToString(-i) else NatToString(i)
  }

  /** Reads an optionally negated, non-empty run of decimal digits. */
  function ParseInt(s: string): (r: Option<int>)
    ensures r.Some? ==> |s| >= 1
  {
    if |s| >= 2 && s[0] == '-' && AllDigits(s[1..]) then Some(0 - DigitsValue(s[1..]))
    else if |s| >= 1 && AllDigits(s) then Some(DigitsValue(s))
    else None
  }

  lemma {:induction false} NatToStringValue(n: nat)
    ensures DigitsValue(NatToString(n)) == n
    decreases n
  {
    var s := NatToString(n);
    if n >= 10 {
      NatToStringValue(n / 10);
      assert s[..|s| - 1] == NatToString(n / 10);
    }
  }

  /** Rendering then parsing gives back the integer. */
  lemma IntToStringRoundTrip(i: int)
    ensures ParseInt(IntToString(i)) == Some(i)
  {
    if i < 0 {
      NegatedRoundTrip(-i);
      assert -(-i) == i;
    } else {
      var s := NatToString(i);
      NatToStringValue(i);
      assert IsDigit(s[0]);
    }
  }

  lemma NegatedRoundTrip(n: int)
    requires n > 0
    ensures ParseInt(IntToString(-n)) == Some(-n)
  {
    NegatedDigitsRoundTrip(n);
    assert IntToString(-n) == "-" + NatToString(n);
  }

  lemma NegatedDigitsRoundTrip(n: int)
    requires n > 0
    ensures ParseInt("-" + NatToString(n)) == Some(-n)
  {
    NatToStringValue(n);
    ParseNegated(NatToString(n));
  }

  /** '-' followed by digits reads back as the negated value of the digits. */
  lemma ParseNegated(t: string)
    requires |t| >= 1 && AllDigits(t)
    ensures ParseInt("-" + t) == Some(0 - DigitsValue(t))
  {
    assert ("-" + t)[1..] == t;
  }
}

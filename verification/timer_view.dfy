/** The view's duration formatter: a whole number of seconds is split into
    hours, minutes and seconds with Swift's truncating `Int` arithmetic and
    rendered as "<h>h <m>m <s>s". The session time and the day total are both
    shown through it. `ParseComponents` reads a rendering back, which shows
    that no information is lost. */
module TimerView {
  import opened Wrappers
  import SwiftInt
  import Decimal
  import TimerManager

  datatype Components = Components(hours: int, minutes: int, seconds: int)

  /** The number of seconds the components stand for. */
  function Total(c: Components): int {
    c.hours * 3600 + c.minutes * 60 + c.seconds
  }

  /** Each component has the sign of the whole, and minutes and seconds stay
      below 60 in magnitude. */
  predicate Normal(n: int, c: Components) {
    if n >= 0 then c.hours >= 0 && 0 <= c.minutes < 60 && 0 <= c.seconds < 60
    else c.hours <= 0 && -60 < c.minutes <= 0 && -60 < c.seconds <= 0
  }

  /** Hours `n / 3600`, minutes `(n % 3600) / 60` and seconds `n % 60`, with
      Swift's truncating `/` and `%`. */
  function Decompose(n: int): (c: Components)
    ensures Total(c) == n
    ensures Normal(n, c)
    ensures n >= 0 ==> c.hours == n / 3600 && c.minutes == (n % 3600) / 60 && c.seconds == n % 60
  {
    DecomposeNatural(if n >= 0 then n else -n);
    Components(
      SwiftInt.Quot(n, 3600),
      SwiftInt.Quot(SwiftInt.Rem(n, 3600), 60),
      SwiftInt.Rem(n, 60))
  }

  /** The decomposition of a non-negative count, in Dafny's arithmetic. */
  lemma DecomposeNatural(n: nat)
    ensures var h, m, s := n / 3600, (n % 3600) / 60, n % 60;
      && h * 3600 + m * 60 + s == n
      && 0 <= m < 60 && 0 <= s < 60
  {
    var h, r := n / 3600, n % 3600;
    var m, s := r / 60, r % 60;
    assert r == m * 60 + s;
    assert n == (h * 60 + m) * 60 + s;
    SwiftInt.DivModUnique(n, 60, h * 60 + m, s);
  }

  /** The decomposition is the only normal one: any components of the same
      sign, with minutes and seconds below 60, that add up to `n` are the
      ones the formatter computes. */
  lemma DecomposeUnique(n: int, c: Components)
    requires Total(c) == n && Normal(n, c)
    ensures c == Decompose(n)
  {
    if n >= 0 {
      NaturalUnique(n, c.hours, c.minutes, c.seconds);
    } else {
      NaturalUnique(-n, -c.hours, -c.minutes, -c.seconds);
    }
  }

  lemma NaturalUnique(n: nat, h: int, m: int, s: int)
    requires h * 3600 + m * 60 + s == n
    requires 0 <= m < 60 && 0 <= s < 60
    ensures h == n / 3600 && m == (n % 3600) / 60 && s == n % 60
  {
    SwiftInt.DivModUnique(n, 3600, h, m * 60 + s);
    SwiftInt.DivModUnique(n % 3600, 60, m, s);
  }

  /** "<h>h <m>m <s>s", each number as Swift interpolates an `Int`. Parsing
      the rendering recovers the components. */
  function Render(c: Components): (r: string)
    ensures ParseComponents(r) == Some(c)
  {
    var hs, ms, ss := Decimal.IntToString(c.hours), Decimal.IntToString(c.minutes),
      Decimal.IntToString(c.seconds);
    FieldsRoundTrip(c);
    Regroup(hs, ms, ss);
    hs + "h " + ms + "m " + ss + "s"
  }

  /** The formatter. Its output parses back to the decomposition of the input,
      and hence to the input itself. */
  function FormatTimeInterval(interval: int): (r: string)
    ensures ParseComponents(r) == Some(Decompose(interval))
    ensures ParseTimeInterval(r) == Some(interval)
  {
    Render(Decompose(interval))
  }

  /** The session time as displayed. */
  function FormattedElapsedTime(m: TimerManager.Manager): (r: string)
    ensures ParseTimeInterval(r) == Some(m.elapsedSeconds)
  {
    FormatTimeInterval(m.elapsedSeconds)
  }

  /** The day total as displayed. */
  function FormattedCumulativeTime(m: TimerManager.Manager): (r: string)
    ensures ParseTimeInterval(r) == Some(m.cumulativeTimeToday)
  {
    FormatTimeInterval(m.cumulativeTimeToday)
  }

  // ---------------------------------------------------------------------------
  // Reading a rendering back

  /** The text before the first `c` and the text after it. */
  function SplitOn(s: string, c: char): (r: Option<(string, string)>)
    ensures r.Some? ==> c !in r.value.0 && s == r.value.0 + [c] + r.value.1
    ensures r.None? ==> c !in s
  {
    if |s| == 0 then None
    else if s[0] == c then Some(([], s[1..]))
    else
      match SplitOn(s[1..], c)
      case None => None
      case Some(p) => Some(([s[0]] + p.0, p.1))
  }

  /** `s` without its leading space. */
  function DropSpace(s: string): Option<string> {
    if |s| >= 1 && s[0] == ' ' then Some(s[1..]) else None
  }

  /** Reads an integer terminated by `sep`, returning it and the text after `sep`. */
  function ParseField(s: string, sep: char): Option<(int, string)> {
    var p :- SplitOn(s, sep);
    var n :- Decimal.ParseInt(p.0);
    Some((n, p.1))
  }

  /** Reads "<h>h <m>m <s>s" back into its three numbers. */
  function ParseComponents(s: string): Option<Components> {
    var h :- ParseField(s, 'h');
    var afterH :- DropSpace(h.1);
    var m :- ParseField(afterH, 'm');
    var afterM :- DropSpace(m.1);
    var sec :- ParseField(afterM, 's');
    if sec.1 == "" then Some(Components(h.0, m.0, sec.0)) else None
  }

  /** Reads a rendering back into the number of seconds it shows. */
  function ParseTimeInterval(s: string): Option<int> {
    var c :- ParseComponents(s);
    Some(Total(c))
  }

  /** Splitting at a separator the prefix does not contain recovers the two parts. */
  lemma {:induction false} SplitOnJoin(a: string, c: char, b: string)
    requires c !in a
    ensures SplitOn(a + [c] + b, c) == Some((a, b))
    decreases |a|
  {
    var s := a + [c] + b;
    if |a| == 0 {
      assert s[1..] == b;
    } else {
      assert s[0] == a[0];
      assert s[1..] == a[1..] + [c] + b;
      SplitOnJoin(a[1..], c, b);
      assert [a[0]] + a[1..] == a;
    }
  }

  /** A rendered integer holds only digits and '-', so no separator. */
  lemma NoSeparator(i: int, c: char)
    requires !Decimal.IsDigit(c) && c != '-'
    ensures c !in Decimal.IntToString(i)
  {
  }

  /** An interpolated integer followed by a separator letter reads back. */
  lemma FieldRoundTrip(i: int, sep: char, rest: string)
    requires !Decimal.IsDigit(sep) && sep != '-'
    ensures ParseField(Decimal.IntToString(i) + [sep] + rest, sep) == Some((i, rest))
  {
    NoSeparator(i, sep);
    SplitOnJoin(Decimal.IntToString(i), sep, rest);
    Decimal.IntToStringRoundTrip(i);
  }

  /** The three fields, each followed by its letter and all but the last by a
      space, parse back to the components. */
  lemma FieldsRoundTrip(c: Components)
    ensures var tailS := Decimal.IntToString(c.seconds) + ['s'] + "";
      var tailM := Decimal.IntToString(c.minutes) + ['m'] + (" " + tailS);
      ParseComponents(Decimal.IntToString(c.hours) + ['h'] + (" " + tailM)) == Some(c)
  {
    var tailS := Decimal.IntToString(c.seconds) + ['s'] + "";
    var tailM := Decimal.IntToString(c.minutes) + ['m'] + (" " + tailS);
    FieldRoundTrip(c.hours, 'h', " " + tailM);
    assert DropSpace(" " + tailM) == Some(tailM);
    FieldRoundTrip(c.minutes, 'm', " " + tailS);
    assert DropSpace(" " + tailS) == Some(tailS);
    FieldRoundTrip(c.seconds, 's', "");
  }

  /** The rendering regrouped field by field. */
  lemma Regroup(hs: string, ms: string, ss: string)
    ensures hs + "h " + ms + "m " + ss + "s" == hs + ['h'] + (" " + (ms + ['m'] + (" " + (ss + ['s'] + ""))))
  {
  }

  /** Distinct counts of seconds are displayed differently. */
  lemma FormatInjective(a: int, b: int)
    ensures FormatTimeInterval(a) == FormatTimeInterval(b) ==> a == b
  {
  }
}

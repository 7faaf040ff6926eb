/** `formatDuration` of search.js: a whole number of seconds rendered as
    `H:MM:SS` when it reaches an hour and as `M:SS` below that. The partner
    of the formatter is a parser for exactly that format; formatting then
    parsing gives back the number of seconds. */
module Duration {
  import Seqs

  /** A duration split into clock fields. */
  datatype Clock = Clock(hours: nat, minutes: nat, seconds: nat)

  /** `h = Math.floor(s / 3600)`, `m = Math.floor((s % 3600) / 60)`,
      `secs = s % 60`: minutes and seconds below 60, adding back to `s`. */
  function ClockOf(s: nat): (c: Clock)
    ensures c.minutes < 60 && c.seconds < 60
    ensures c.hours * 3600 + c.minutes * 60 + c.seconds == s
  {
    Clock(s / 3600, (s % 3600) / 60, s % 60)
  }

  /** There is only one such split, so the formatter's fields are the
      clock reading of `s` and nothing else. */
  lemma ClockUnique(s: nat, c: Clock)
    requires c.minutes < 60 && c.seconds < 60
    requires c.hours * 3600 + c.minutes * 60 + c.seconds == s
    ensures c == ClockOf(s)
  {
    var below := c.minutes * 60 + c.seconds;
    assert below < 3600;
    DivModUnique(s, 3600, c.hours, below);
    DivModUnique(below, 60, c.minutes, c.seconds);
  }

  lemma DivModUnique(n: nat, d: nat, q: nat, r: nat)
    requires 0 < d && r < d && n == q * d + r
    ensures q == n / d && r == n % d
  {
    var q', r' := n / d, n % d;
    if q < q' {
      MulMonotone(q + 1, q', d);
    } else if q > q' {
      MulMonotone(q' + 1, q, d);
    }
  }

  lemma MulMonotone(a: nat, b: nat, d: nat)
    requires a <= b
    ensures a * d <= b * d
  {
    assert b * d == a * d + (b - a) * d;
  }

  predicate IsDigit(c: char)
  {
    '0' <= c <= '9'
  }

  predicate AllDigits(s: string)
  {
    forall i :: 0 <= i < |s| ==> IsDigit(s[i])
  }

  function DigitChar(d: nat): (c: char)
    requires d < 10
    ensures IsDigit(c)
  {
    "0123456789"[d]
  }

  function DigitValue(c: char): nat
    requires IsDigit(c)
  {
    c as int - '0' as int
  }

  /** `n.toString()`: the decimal numeral of `n`, without leading zeros. */
  function Decimal(n: nat): (r: string)
    ensures r != [] && AllDigits(r)
    ensures |r| > 1 ==> r[0] != '0'
    ensures n < 10 <==> |r| == 1
  {
    if n < 10 then [DigitChar(n)] else Decimal(n / 10) + [DigitChar(n % 10)]
  }

  /** The value of a decimal numeral; the empty numeral is 0. */
  function ParseDecimal(s: string): nat
    requires AllDigits(s)
  {
    if s == [] then 0 else ParseDecimal(s[..|s| - 1]) * 10 + DigitValue(s[|s| - 1])
  }

  lemma {:induction false} DecimalRoundTrip(n: nat)
    ensures ParseDecimal(Decimal(n)) == n
  {
    var r := Decimal(n);
    if n < 10 {
      assert r[..0] == [];
    } else {
      DecimalRoundTrip(n / 10);
      assert r[..|r| - 1] == Decimal(n / 10);
    }
  }

  /** `n.toString().padStart(2, '0')`. The numeral is never empty, so at most
      one zero is added. */
  function Pad2(n: nat): (r: string)
    ensures AllDigits(r)
    ensures n < 100 ==> |r| == 2
  {
    var d := Decimal(n);
    if |d| < 2 then "0" + d else d
  }

  lemma Pad2RoundTrip(n: nat)
    ensures ParseDecimal(Pad2(n)) == n
  {
    DecimalRoundTrip(n);
    var d := Decimal(n);
    if |d| < 2 {
      var r := "0" + d;
      assert r[..1] == "0";
      assert r[..1][..0] == [];
      assert r[..|r| - 1] == "0";
    }
  }

  /** The two template literals of `formatDuration`: `h:mm:ss` when there
      are hours, `m:ss` otherwise. */
  function FormatClock(c: Clock): string
  {
    if c.hours > 0 then Decimal(c.hours) + ":" + Pad2(c.minutes) + ":" + Pad2(c.seconds)
    else Decimal(c.minutes) + ":" + Pad2(c.seconds)
  }

  /** `formatDuration(sec)` for a whole, non-negative number of seconds:
      `H:MM:SS` from one hour on, `M:SS` below, with `MM` and `SS` exactly two
      digits and the leading field free of leading zeros; parsing it gives
      back the number of seconds. */
  function FormatDuration(s: nat): (r: string)
    ensures var f := Fields(r);
      && |f| == (if s >= 3600 then 3 else 2)
      && IsCanonical(f[0])
      && forall k :: 1 <= k < |f| ==> |f[k]| == 2 && AllDigits(f[k])
    ensures ParseDuration(r) == Seqs.Some(s)
  {
    FormatClockShape(s);
    FormatClockRoundTrip(s);
    FormatClock(ClockOf(s))
  }

  /** The colon-separated fields of a string. */
  function Fields(s: string): (r: seq<string>)
    ensures |r| >= 1
  {
    if s == [] then [[]]
    else if s[0] == ':' then [[]] + Fields(s[1..])
    else
      var rest := Fields(s[1..]);
      [[s[0]] + rest[0]] + rest[1..]
  }

  lemma {:induction false} FieldsOfDigits(a: string)
    requires AllDigits(a)
    ensures Fields(a) == [a]
  {
    if a != [] {
      FieldsOfDigits(a[1..]);
      assert [a[0]] + a[1..] == a;
    }
  }

  lemma {:induction false} FieldsJoin(a: string, b: string)
    requires AllDigits(a)
    ensures Fields(a + ":" + b) == [a] + Fields(b)
  {
    if a == [] {
      assert a + ":" + b == [':'] + b;
      assert ([':'] + b)[1..] == b;
    } else {
      assert (a + ":" + b)[1..] == a[1..] + ":" + b;
      FieldsJoin(a[1..], b);
      assert [a[0]] + a[1..] == a;
    }
  }

  /** A numeral without superfluous leading zeros. */
  predicate IsCanonical(s: string)
  {
    s != [] && AllDigits(s) && (|s| > 1 ==> s[0] != '0')
  }

  predicate IsTwoDigitsBelow60(s: string)
  {
    |s| == 2 && AllDigits(s) && ParseDecimal(s) < 60
  }

  /** Reads `H:MM:SS` with `H` at least 1, or `M:SS` with `M` below 60;
      anything else is rejected. */
  function ParseDuration(t: string): (r: Seqs.Option<nat>)
  {
    var f := Fields(t);
    if |f| == 3 && IsCanonical(f[0]) && ParseDecimal(f[0]) > 0
      && IsTwoDigitsBelow60(f[1]) && IsTwoDigitsBelow60(f[2])
    then Seqs.Some(ParseDecimal(f[0]) * 3600 + ParseDecimal(f[1]) * 60 + ParseDecimal(f[2]))
    else if |f| == 2 && IsCanonical(f[0]) && ParseDecimal(f[0]) < 60 && IsTwoDigitsBelow60(f[1])
    then Seqs.Some(ParseDecimal(f[0]) * 60 + ParseDecimal(f[1]))
    else Seqs.None
  }

  /** The fields of the formatted duration: three when `s` reaches an hour,
      two below that; the first a numeral without leading zeros, the others
      exactly two digits. */
  lemma FormatClockFields(s: nat)
    ensures var c := ClockOf(s);
      Fields(FormatClock(c))
        == if s >= 3600 then [Decimal(c.hours), Pad2(c.minutes), Pad2(c.seconds)]
           else [Decimal(c.minutes), Pad2(c.seconds)]
  {
    var c := ClockOf(s);
    FieldsOfDigits(Pad2(c.seconds));
    if c.hours > 0 {
      assert FormatClock(c) == Decimal(c.hours) + ":" + (Pad2(c.minutes) + ":" + Pad2(c.seconds));
      FieldsJoin(Decimal(c.hours), Pad2(c.minutes) + ":" + Pad2(c.seconds));
      FieldsJoin(Pad2(c.minutes), Pad2(c.seconds));
    } else {
      FieldsJoin(Decimal(c.minutes), Pad2(c.seconds));
    }
  }

  lemma FormatClockShape(s: nat)
    ensures var f := Fields(FormatClock(ClockOf(s)));
      && |f| == (if s >= 3600 then 3 else 2)
      && IsCanonical(f[0])
      && forall k :: 1 <= k < |f| ==> |f[k]| == 2 && AllDigits(f[k])
  {
    FormatClockFields(s);
  }

  lemma FormatClockRoundTrip(s: nat)
    ensures ParseDuration(FormatClock(ClockOf(s))) == Seqs.Some(s)
  {
    FormatClockFields(s);
    if s >= 3600 {
      RoundTripFromAnHour(s);
    } else {
      RoundTripBelowAnHour(s);
    }
  }

  lemma RoundTripFromAnHour(s: nat)
    requires s >= 3600
    requires var c := ClockOf(s); Fields(FormatClock(ClockOf(s))) == [Decimal(c.hours), Pad2(c.minutes), Pad2(c.seconds)]
    ensures ParseDuration(FormatClock(ClockOf(s))) == Seqs.Some(s)
  {
    var c := ClockOf(s);
    DecimalRoundTrip(c.hours);
    Pad2RoundTrip(c.minutes);
    Pad2RoundTrip(c.seconds);
    var f := Fields(FormatClock(ClockOf(s)));
    assert IsCanonical(f[0]) && ParseDecimal(f[0]) == c.hours;
    assert c.hours > 0;
    assert IsTwoDigitsBelow60(f[1]) && IsTwoDigitsBelow60(f[2]);
  }

  lemma RoundTripBelowAnHour(s: nat)
    requires s < 3600
    requires var c := ClockOf(s); Fields(FormatClock(ClockOf(s))) == [Decimal(c.minutes), Pad2(c.seconds)]
    ensures ParseDuration(FormatClock(ClockOf(s))) == Seqs.Some(s)
  {
    var c := ClockOf(s);
    DecimalRoundTrip(c.minutes);
    Pad2RoundTrip(c.seconds);
    var f := Fields(FormatClock(ClockOf(s)));
    assert IsCanonical(f[0]) && ParseDecimal(f[0]) == c.minutes < 60;
    assert IsTwoDigitsBelow60(f[1]);
    assert c.hours == 0;
  }

  /** Distinct durations never render alike. */
  lemma FormatDurationInjective(s: nat, t: nat)
    requires FormatDuration(s) == FormatDuration(t)
    ensures s == t
  {
    assert ParseDuration(FormatDuration(s)) == Seqs.Some(s);
  }

  lemma FormatDurationExamples()
    ensures FormatDuration(59) == "0:59"
    ensures FormatDuration(60) == "1:00"
    ensures FormatDuration(3600) == "1:00:00"
    ensures FormatDuration(3661) == "1:01:01"
  {
    Example59();
    Example60();
    Example3600();
    Example3661();
  }

  lemma Example59()
    ensures FormatClock(ClockOf(59)) == "0:59"
  {
    assert ClockOf(59) == Clock(0, 0, 59);
    assert Decimal(59) == Decimal(5) + [DigitChar(9)] == "59";
  }

  lemma Example60()
    ensures FormatClock(ClockOf(60)) == "1:00"
  {
    assert ClockOf(60) == Clock(0, 1, 0);
    assert Pad2(0) == "00";
  }

  lemma Example3600()
    ensures FormatClock(ClockOf(3600)) == "1:00:00"
  {
    assert ClockOf(3600) == Clock(1, 0, 0);
    assert Pad2(0) == "00";
  }

  lemma Example3661()
    ensures FormatClock(ClockOf(3661)) == "1:01:01"
  {
    assert ClockOf(3661) == Clock(1, 1, 1);
    assert Pad2(1) == "01";
  }
}

/**
 * `format_duration` from potoo/util.py: a number of seconds rendered as
 * `MM:SS` or `H:MM:SS`, with a `.mmm` suffix when the input was a float.
 *
 * Python decides whether to append milliseconds by the input's type
 * (`isinstance(secs, float)`), not by its value, so the input is a datatype
 * that tells a whole count of seconds from a fractional one.
 */
module Duration {

  datatype Option<T> = None | Some(value: T)

  /** Seconds given to `format_duration`.
      `Whole(n)` is the Python int `n`; `Fractional(n, ms)` is the float
      `n + ms / 1000` whose millisecond remainder is already rounded. */
  datatype Seconds = Whole(n: int) | Fractional(n: int, ms: int)
  {
    predicate Valid() {
      Fractional? ==> 0 <= ms <= 999
    }
  }

  /** Hours, minutes and seconds of a non-negative whole number of seconds. */
  datatype Hms = Hms(h: nat, m: nat, s: nat)

  /** The exact value of `x`, in milliseconds. */
  function Millis(x: Seconds): int {
    match x
    case Whole(n) => n * 1000
    case Fractional(n, ms) => n * 1000 + ms
  }

  /** Whether the seconds are below zero: for a valid input this is the
      test on the exact value. */
  predicate IsNegative(x: Seconds)
    ensures x.Valid() ==> (IsNegative(x) <==> Millis(x) < 0)
  {
    x.n < 0
  }

  function Abs(i: int): nat {
    if i < 0 then -i else i
  }

  /** The negated seconds, keeping whether the value is an int or a float. */
  function Negate(x: Seconds): (y: Seconds)
    requires x.Valid()
    ensures y.Valid() && y.Whole? == x.Whole?
    ensures Millis(y) == -Millis(x)
    ensures IsNegative(x) ==> !IsNegative(y)
  {
    match x
    case Whole(n) => Whole(-n)
    case Fractional(n, ms) =>
      if ms == 0 then Fractional(-n, 0) else Fractional(-n - 1, 1000 - ms)
  }

  // ---------------------------------------------------------------------------
  // Decimal digits

  predicate IsDigit(c: char) {
    '0' <= c <= '9'
  }

  predicate IsDigits(t: string) {
    forall i :: 0 <= i < |t| ==> IsDigit(t[i])
  }

  function Digit(d: nat): (c: char)
    requires d < 10
    ensures IsDigit(c) && c as int - '0' as int == d
  {
    ('0' as int + d) as char
  }

  /** The number a string of decimal digits denotes. */
  function DigitsValue(t: string): nat
    requires IsDigits(t)
  {
    if t == [] then 0
    else DigitsValue(t[..|t| - 1]) * 10 + (t[|t| - 1] as int - '0' as int)
  }

  /** Appending a digit multiplies by ten and adds it. */
  lemma DigitsValueSnoc(t: string, d: nat)
    requires IsDigits(t) && d < 10
    ensures IsDigits(t + [Digit(d)]) && DigitsValue(t + [Digit(d)]) == DigitsValue(t) * 10 + d
  {
    assert (t + [Digit(d)])[..|t|] == t;
  }

  function Pow10(k: nat): (p: nat)
    ensures p >= 1
  {
    if k == 0 then 1 else 10 * Pow10(k - 1)
  }

  /** `k` digits denote a number below `10^k`. */
  lemma {:induction false} DigitsValueBound(t: string)
    requires IsDigits(t)
    ensures DigitsValue(t) < Pow10(|t|)
  {
    if t != [] {
      DigitsValueBound(t[..|t| - 1]);
    }
  }

  /** The shortest decimal rendering of `k`. */
  function Decimal(k: nat): (r: string)
    ensures 1 <= |r| && IsDigits(r) && DigitsValue(r) == k
    ensures k < 10 <==> |r| == 1
    ensures k < 100 ==> |r| <= 2
    ensures r[0] == '0' <==> k == 0
    ensures |r| == 1 || r[0] != '0'
  {
    if k < 10 then [Digit(k)] else Decimal(k / 10) + [Digit(k % 10)]
  }

  /** A field printed with no decimals and a minimum width of two:
      at least two digits, zero-padded on the left. */
  function Pad2(k: nat): (r: string)
    ensures IsDigits(r) && 2 <= |r| && DigitsValue(r) == k
    ensures k < 100 ==> |r| == 2
    ensures |r| == 2 || r[0] != '0'
  {
    if k < 10 then
      DigitsValueSnoc([], 0);
      DigitsValueSnoc([Digit(0)], k);
      assert [Digit(0)] + [Digit(k)] == ['0', Digit(k)];
      ['0', Digit(k)]
    else Decimal(k)
  }

  /** The digits after the point when a fraction of a second is printed with
      three decimals: exactly three, zero-padded. */
  function Pad3(ms: nat): (r: string)
    requires ms < 1000
    ensures IsDigits(r) && |r| == 3 && DigitsValue(r) == ms
  {
    DigitsValueSnoc([], ms / 100);
    DigitsValueSnoc([Digit(ms / 100)], ms / 10 % 10);
    DigitsValueSnoc([Digit(ms / 100), Digit(ms / 10 % 10)], ms % 10);
    assert [] + [Digit(ms / 100)] == [Digit(ms / 100)];
    assert [Digit(ms / 100)] + [Digit(ms / 10 % 10)] == [Digit(ms / 100), Digit(ms / 10 % 10)];
    ThreeDigits(ms);
    [Digit(ms / 100), Digit(ms / 10 % 10)] + [Digit(ms % 10)]
  }

  lemma ThreeDigits(ms: nat)
    requires ms < 1000
    ensures ms == (ms / 100 * 10 + ms / 10 % 10) * 10 + ms % 10
  {
    assert ms / 10 == ms / 100 * 10 + ms / 10 % 10;
  }

  // ---------------------------------------------------------------------------
  // format_duration

  /** Seconds of the minute, minutes of the hour and whole hours of `n`,
      by repeated floor division and remainder by 60. */
  function Decompose(n: nat): (c: Hms)
    ensures c.s < 60 && c.m < 60
    ensures c.h * 3600 + c.m * 60 + c.s == n
    ensures c.h == 0 <==> n < 3600
  {
    var c := Hms(n / 60 / 60, n / 60 % 60, n % 60);
    assert n == (n / 60) * 60 + n % 60;
    assert n / 60 == c.h * 60 + c.m;
    c
  }

  /** The colon-joined fields: `[m, s]` when there are no hours, else `[h, m, s]`. */
  function ClockText(n: nat): (r: string)
    ensures 5 <= |r| && IsDigit(r[0])
    ensures forall i :: 0 <= i < |r| ==> IsDigit(r[i]) || r[i] == ':'
  {
    var c := Decompose(n);
    if c.h == 0 then Pad2(c.m) + ":" + Pad2(c.s)
    else Pad2(c.h) + ":" + Pad2(c.m) + ":" + Pad2(c.s)
  }

  function FormatDuration(x: Seconds): (r: string)
    requires x.Valid()
    ensures 5 <= |r|
    ensures r[0] == '-' <==> IsNegative(x)
    decreases if IsNegative(x) then 1 else 0
  {
    if IsNegative(x) then "-" + FormatDuration(Negate(x))
    else
      var clock := ClockText(x.n);
      if x.Fractional? then clock + "." + Pad3(x.ms) else clock
  }

  // ---------------------------------------------------------------------------
  // Shape of the rendering

  /** Below an hour the clock is exactly `MM:SS`; from an hour on it is
      `H:MM:SS` whose hours field has at least two digits and is not clamped. */
  lemma ClockShape(n: nat)
    ensures var r := ClockText(n);
      && (n < 3600 ==>
            && |r| == 5 && r[2] == ':'
            && IsDigits(r[..2]) && IsDigits(r[3..])
            && DigitsValue(r[..2]) == n / 60 && DigitsValue(r[3..]) == n % 60)
      && (n >= 3600 ==>
            && |r| >= 8 && r[|r| - 6] == ':' && r[|r| - 3] == ':'
            && (|r| == 8 || r[0] != '0')
            && IsDigits(r[..|r| - 6]) && IsDigits(r[|r| - 5..|r| - 3]) && IsDigits(r[|r| - 2..])
            && DigitsValue(r[..|r| - 6]) == n / 3600
            && DigitsValue(r[|r| - 5..|r| - 3]) == n / 60 % 60
            && DigitsValue(r[|r| - 2..]) == n % 60)
  {
    var c := Decompose(n);
    var r := ClockText(n);
    if c.h == 0 {
      assert r == Pad2(c.m) + ":" + Pad2(c.s);
      assert r[..2] == Pad2(c.m);
      assert r[3..] == Pad2(c.s);
    } else {
      var hs := Pad2(c.h);
      assert r == hs + ":" + Pad2(c.m) + ":" + Pad2(c.s);
      assert r[..|r| - 6] == hs;
      assert r[0] == hs[0];
      assert r[|r| - 5..|r| - 3] == Pad2(c.m);
      assert r[|r| - 2..] == Pad2(c.s);
      assert n / 3600 == c.h;
    }
  }

  /** An int never gets a millisecond suffix, so its rendering has no point. */
  lemma WholeHasNoPoint(n: int)
    ensures '.' !in FormatDuration(Whole(n))
  {
    var a := Abs(n);
    assert Negate(Whole(n)) == Whole(a) || n >= 0;
    if n < 0 {
      assert FormatDuration(Whole(n)) == "-" + ClockText(a);
    } else {
      assert FormatDuration(Whole(n)) == ClockText(a);
    }
  }

  /** A float always ends in a point and exactly three digits, `.000` included;
      the digits are the millisecond remainder of the absolute value. */
  lemma FractionalSuffix(x: Seconds)
    requires x.Valid() && x.Fractional?
    ensures var r := FormatDuration(x);
      && r[|r| - 4] == '.'
      && IsDigits(r[|r| - 3..])
      && DigitsValue(r[|r| - 3..]) == Abs(Millis(x)) % 1000
  {
    if IsNegative(x) {
      var y := Negate(x);
      FractionalTail(y);
      SignKeepsTail(FormatDuration(y), Millis(y) % 1000);
      NegativeMillis(x);
      assert FormatDuration(x) == "-" + FormatDuration(y);
    } else {
      FractionalTail(x);
    }
  }

  lemma NegativeMillis(x: Seconds)
    requires x.Valid() && IsNegative(x)
    ensures Abs(Millis(x)) % 1000 == Millis(Negate(x)) % 1000
  {
  }

  /** The suffix of a non-negative float. */
  lemma FractionalTail(y: Seconds)
    requires y.Valid() && y.Fractional? && !IsNegative(y)
    ensures var r := FormatDuration(y);
      && r[|r| - 4] == '.' && IsDigits(r[|r| - 3..])
      && DigitsValue(r[|r| - 3..]) == Millis(y) % 1000
  {
    FractionalRoundTrip(ClockText(y.n), y.ms);
    MillisRemainder(y.n, y.ms);
  }

  /** A leading sign leaves a `.mmm` suffix as it was. */
  lemma SignKeepsTail(t: string, m: nat)
    requires |t| >= 4 && t[|t| - 4] == '.' && IsDigits(t[|t| - 3..]) && DigitsValue(t[|t| - 3..]) == m
    ensures var r := "-" + t;
      && r[|r| - 4] == '.' && IsDigits(r[|r| - 3..]) && DigitsValue(r[|r| - 3..]) == m
  {
    var r := "-" + t;
    assert r[|r| - 3..] == t[|t| - 3..];
  }

  lemma MillisRemainder(n: nat, ms: nat)
    requires ms < 1000
    ensures (n * 1000 + ms) % 1000 == ms
  {
  }

  /** A negative input renders as `-` followed by the rendering of any input
      of the same kind (int or float) whose value is its absolute value. */
  lemma NegativeIsMinusAbs(x: Seconds, y: Seconds)
    requires x.Valid() && IsNegative(x)
    requires y.Valid() && y.Whole? == x.Whole? && Millis(y) == Abs(Millis(x))
    ensures FormatDuration(x) == "-" + FormatDuration(y)
  {
    MillisDetermines(y, Negate(x));
  }

  /** A valid input is determined by its kind and its value. */
  lemma MillisDetermines(a: Seconds, b: Seconds)
    requires a.Valid() && b.Valid() && a.Whole? == b.Whole? && Millis(a) == Millis(b)
    ensures a == b
  {
    if a.Fractional? {
      assert a.n == Millis(a) / 1000 && a.ms == Millis(a) % 1000;
      assert b.n == Millis(b) / 1000 && b.ms == Millis(b) % 1000;
    }
  }

  // ---------------------------------------------------------------------------
  // Reading a rendering back

  /** Reads `MM:SS` or `H:MM:SS` back into a count of seconds. */
  function ParseClock(c: string): Option<nat> {
    if |c| == 5 && c[2] == ':' && IsDigits(c[..2]) && IsDigits(c[3..]) then
      Some(DigitsValue(c[..2]) * 60 + DigitsValue(c[3..]))
    else if |c| >= 8 && c[|c| - 6] == ':' && c[|c| - 3] == ':'
            && IsDigits(c[..|c| - 6]) && IsDigits(c[|c| - 5..|c| - 3]) && IsDigits(c[|c| - 2..]) then
      Some(DigitsValue(c[..|c| - 6]) * 3600 + DigitsValue(c[|c| - 5..|c| - 3]) * 60 + DigitsValue(c[|c| - 2..]))
    else None
  }

  /** Reads an unsigned rendering, with or without a `.mmm` suffix. */
  function ParseUnsigned(t: string): (o: Option<Seconds>)
    ensures o.Some? ==> o.value.Valid() && !IsNegative(o.value)
  {
    if |t| >= 4 && t[|t| - 4] == '.' && IsDigits(t[|t| - 3..]) then
      match ParseClock(t[..|t| - 4])
      case Some(n) =>
        DigitsValueBound(t[|t| - 3..]);
        Some(Fractional(n, DigitsValue(t[|t| - 3..])))
      case None => None
    else
      match ParseClock(t)
      case Some(n) => Some(Whole(n))
      case None => None
  }

  /** The inverse of `FormatDuration`. */
  function ParseDuration(t: string): (o: Option<Seconds>)
    ensures o.Some? ==> o.value.Valid()
  {
    if |t| > 0 && t[0] == '-' then
      match ParseUnsigned(t[1..])
      case Some(y) => Some(Negate(y))
      case None => None
    else ParseUnsigned(t)
  }

  lemma {:induction false} ClockRoundTrip(n: nat)
    ensures ParseClock(ClockText(n)) == Some(n)
  {
    ClockShape(n);
    var r := ClockText(n);
    if n < 3600 {
      assert n == n / 60 * 60 + n % 60;
    } else {
      assert n == n / 3600 * 3600 + n / 60 % 60 * 60 + n % 60 by {
        var c := Decompose(n);
        assert c.h == n / 3600;
      }
    }
  }

  lemma NegateTwice(x: Seconds)
    requires x.Valid()
    ensures Negate(Negate(x)) == x
  {
  }

  /** Every rendering reads back as the value that produced it. */
  lemma {:induction false} FormatRoundTrip(x: Seconds)
    requires x.Valid()
    ensures ParseDuration(FormatDuration(x)) == Some(x)
  {
    if IsNegative(x) {
      var y := Negate(x);
      UnsignedRoundTrip(y);
      var r := FormatDuration(x);
      assert r[1..] == FormatDuration(y);
      NegateTwice(x);
    } else {
      UnsignedRoundTrip(x);
    }
  }

  lemma {:induction false} UnsignedRoundTrip(x: Seconds)
    requires x.Valid() && !IsNegative(x)
    ensures ParseUnsigned(FormatDuration(x)) == Some(x)
  {
    var clock := ClockText(x.n);
    ClockRoundTrip(x.n);
    if x.Fractional? {
      FractionalRoundTrip(clock, x.ms);
    } else {
      assert FormatDuration(x) == clock;
      WholeClockRoundTrip(x.n);
    }
  }

  lemma WholeClockRoundTrip(n: nat)
    ensures ParseUnsigned(ClockText(n)) == Some(Whole(n))
  {
    ClockRoundTrip(n);
    var c := ClockText(n);
    assert c[|c| - 4] != '.' by {
      assert IsDigit(c[|c| - 4]) || c[|c| - 4] == ':';
    }
  }

  lemma FractionalRoundTrip(clock: string, ms: nat)
    requires ms < 1000
    ensures var r := clock + "." + Pad3(ms);
      && |r| >= 4 && r[|r| - 4] == '.' && IsDigits(r[|r| - 3..])
      && r[..|r| - 4] == clock && DigitsValue(r[|r| - 3..]) == ms
  {
    var r := clock + "." + Pad3(ms);
    assert r[|r| - 3..] == Pad3(ms);
  }

  /** Distinct inputs never render alike. */
  lemma FormatInjective(x: Seconds, y: Seconds)
    requires x.Valid() && y.Valid()
    requires FormatDuration(x) == FormatDuration(y)
    ensures x == y
  {
    FormatRoundTrip(x);
    FormatRoundTrip(y);
  }

  /** The examples of the docstring, int inputs below an hour. */
  lemma MinuteExamples()
    ensures FormatDuration(Whole(0)) == "00:00"
    ensures FormatDuration(Whole(1)) == "00:01"
    ensures FormatDuration(Whole(100)) == "01:40"
  {
    assert Decompose(100) == Hms(0, 1, 40);
    assert Pad2(40) == "40" by { assert Decimal(40) == "40"; }
  }

  /** `10000` seconds gains an hours field, padded to two digits. */
  lemma HourExample()
    ensures FormatDuration(Whole(10000)) == "02:46:40"
  {
    assert Decompose(10000) == Hms(2, 46, 40);
    assert Pad2(40) == "40" by { assert Decimal(40) == "40"; }
    assert Pad2(46) == "46" by { assert Decimal(46) == "46"; }
  }

  /** The negative examples of the docstring. */
  lemma NegativeMinuteExample()
    ensures FormatDuration(Whole(-1)) == "-00:01"
  {
    assert FormatDuration(Whole(-1)) == "-" + FormatDuration(Whole(1));
    MinuteExamples();
  }

  lemma NegativeHourExample()
    ensures FormatDuration(Whole(-10000)) == "-02:46:40"
  {
    assert FormatDuration(Whole(-10000)) == "-" + FormatDuration(Whole(10000));
    HourExample();
  }

  /** `1000000` seconds: the hours field grows past two digits. */
  lemma UnclampedHoursExample()
    ensures FormatDuration(Whole(1000000)) == "277:46:40"
  {
    assert Decimal(27) == "27";
    assert Decimal(277) == "277";
    assert Pad2(40) == "40" by { assert Decimal(40) == "40"; }
    assert Pad2(46) == "46" by { assert Decimal(46) == "46"; }
    assert Decompose(1000000) == Hms(277, 46, 40);
  }

  /** The float examples of the docstring: `0.0` still gets `.000`. */
  lemma ZeroFloatExample()
    ensures FormatDuration(Fractional(0, 0)) == "00:00.000"
  {
    assert Pad3(0) == "000";
    assert ClockText(0) == "00:00";
  }

  lemma HalfSecondExample()
    ensures FormatDuration(Fractional(0, 500)) == "00:00.500"
  {
    assert Pad3(500) == "500";
    assert ClockText(0) == "00:00";
  }

  lemma FractionalHourExample()
    ensures FormatDuration(Fractional(12345, 679)) == "03:25:45.679"
  {
    assert Pad3(679) == "679";
    assert Decompose(12345) == Hms(3, 25, 45);
    assert Pad2(25) == "25" by { assert Decimal(25) == "25"; }
    assert Pad2(45) == "45" by { assert Decimal(45) == "45"; }
    assert ClockText(12345) == "03:25:45";
  }
}

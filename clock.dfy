/**
 * Elapsed-time formatting: `formatSeconds` in src/main.ts, which renders a
 * count of seconds as zero-padded `HH:MM:SS` (hours are padded to two digits
 * but never truncated), together with the decimal string conversion
 * (`String(n)`) and `padStart` it is built from, and a reader for the
 * format that shows nothing is lost.
 */
module Clock {
  import opened Base

  predicate IsDigit(c: char) { '0' <= c <= '9' }

  predicate AllDigits(s: string) { forall i :: 0 <= i < |s| ==> IsDigit(s[i]) }

  function DigitValue(c: char): nat
    requires IsDigit(c)
  {
    c as int - '0' as int
  }

  /** The decimal digit character for d. */
  function DigitChar(d: nat): (c: char)
    requires d < 10
    ensures IsDigit(c) && DigitValue(c) == d
  {
    ('0' as int + d) as char
  }

  /** The number a decimal digit string denotes; the empty string denotes 0. */
  function DigitsValue(s: string): nat
    requires AllDigits(s)
  {
    if s == [] then 0 else DigitsValue(s[..|s| - 1]) * 10 + DigitValue(s[|s| - 1])
  }

  /** `String(n)` for a non-negative integer: its decimal digits. */
  function NatToString(n: nat): (s: string)
    ensures 1 <= |s| && AllDigits(s)
    ensures DigitsValue(s) == n
  {
    if n < 10 then [DigitChar(n)]
    else
      var init := NatToString(n / 10);
      var s := init + [DigitChar(n % 10)];
      assert s[..|s| - 1] == init;
      s
  }

  /** `String(n)` has no leading zero, except "0" itself, and one digit exactly below 10. */
  lemma {:induction false} NatToStringCanonical(n: nat)
    ensures NatToString(n)[0] != '0' || NatToString(n) == "0"
    ensures n < 10 <==> |NatToString(n)| == 1
  {
    if n >= 10 {
      NatToStringCanonical(n / 10);
      assert NatToString(n) == NatToString(n / 10) + [DigitChar(n % 10)];
    }
  }

  /** `s.padStart(width, fill)` for a one-character fill string. */
  function PadStart(s: string, width: nat, fill: char): (r: string)
    ensures |r| == if |s| < width then width else |s|
    decreases width - |s|
  {
    if |s| >= width then s else PadStart([fill] + s, width, fill)
  }

  /** padStart only puts fill characters in front: s is kept whole at the end, never cut. */
  lemma {:induction false} PadStartShape(s: string, width: nat, fill: char)
    ensures var r := PadStart(s, width, fill);
      && r[|r| - |s|..] == s
      && forall i :: 0 <= i < |r| - |s| ==> r[i] == fill
    decreases width - |s|
  {
    if |s| < width {
      PadStartShape([fill] + s, width, fill);
    }
  }

  /** `String(n).padStart(2, '0')`. */
  function Pad2(n: nat): string
  {
    PadStart(NatToString(n), 2, '0')
  }

  /** `H:MM:SS` from the three already padded fields. */
  function ClockText(hours: string, minutes: string, seconds: string): (r: string)
    requires 2 <= |hours| && |minutes| == 2 && |seconds| == 2
    ensures 8 <= |r| && r[|r| - 3] == ':' && r[|r| - 6] == ':'
    ensures HoursField(r) == hours && MinutesField(r) == minutes && SecondsField(r) == seconds
  {
    var r := hours + ":" + minutes + ":" + seconds;
    assert r[..|r| - 6] == hours;
    assert r[|r| - 5..|r| - 3] == minutes;
    assert r[|r| - 2..] == seconds;
    r
  }

  /** `H:MM:SS` for given hours, minutes and seconds, each padded to two digits. */
  function FormatUnits(hours: nat, minutes: nat, seconds: nat): (r: string)
    requires minutes < 60 && seconds < 60
    ensures 8 <= |r| && r[|r| - 3] == ':' && r[|r| - 6] == ':'
  {
    PadKeepsValue(hours);
    PadKeepsValue(minutes);
    PadKeepsValue(seconds);
    ClockText(Pad2(hours), Pad2(minutes), Pad2(seconds))
  }

  /** `formatSeconds`: hours, minutes and seconds by floor division, then `H:MM:SS`. */
  function FormatSeconds(totalSeconds: nat): (r: string)
    ensures 8 <= |r| && r[|r| - 3] == ':' && r[|r| - 6] == ':'
  {
    SplitUnits(totalSeconds);
    FormatUnits(totalSeconds / 3600, (totalSeconds % 3600) / 60, totalSeconds % 60)
  }

  /** The hours field: everything before the last `:MM:SS`. */
  function HoursField(r: string): string
    requires 6 <= |r|
  {
    r[..|r| - 6]
  }

  function MinutesField(r: string): string
    requires 6 <= |r|
  {
    r[|r| - 5..|r| - 3]
  }

  function SecondsField(r: string): string
    requires 6 <= |r|
  {
    r[|r| - 2..]
  }

  /**
   * Reads `H:MM:SS` back as a number of seconds; None unless every field is
   * digits, the hours field has at least two digits and minutes and seconds
   * are two digits below 60.
   */
  function ParseClock(r: string): (t: Option<nat>)
    ensures t.Some? ==> 8 <= |r| && r[|r| - 3] == ':' && r[|r| - 6] == ':'
    ensures t.Some? ==> AllDigits(HoursField(r)) && AllDigits(MinutesField(r)) && AllDigits(SecondsField(r))
    ensures t.Some? ==> DigitsValue(MinutesField(r)) < 60 && DigitsValue(SecondsField(r)) < 60
  {
    if |r| < 8 || r[|r| - 6] != ':' || r[|r| - 3] != ':' then None
    else
      var h, m, s := HoursField(r), MinutesField(r), SecondsField(r);
      if !AllDigits(h) || !AllDigits(m) || !AllDigits(s) then None
      else if DigitsValue(m) >= 60 || DigitsValue(s) >= 60 then None
      else Some(DigitsValue(h) * 3600 + DigitsValue(m) * 60 + DigitsValue(s))
  }

  lemma TwoDigitsBelow100(n: nat)
    requires n < 100
    ensures |NatToString(n)| <= 2
  {
    if n >= 10 {
      assert NatToString(n) == NatToString(n / 10) + [DigitChar(n % 10)];
    }
  }

  /** A leading zero does not change the value of a digit string. */
  lemma {:induction false} LeadingZeroIgnored(s: string)
    requires AllDigits(s)
    ensures AllDigits("0" + s) && DigitsValue("0" + s) == DigitsValue(s)
  {
    if s != [] {
      var init := s[..|s| - 1];
      assert ("0" + s)[..|"0" + s| - 1] == "0" + init;
      LeadingZeroIgnored(init);
    }
  }

  /** `String(n).padStart(2, '0')` puts one '0' in front of a single digit and leaves longer strings alone. */
  lemma Pad2Shape(n: nat)
    ensures Pad2(n) == if n < 10 then "0" + NatToString(n) else NatToString(n)
  {
    NatToStringCanonical(n);
    var s := NatToString(n);
    if n < 10 {
      assert PadStart(s, 2, '0') == PadStart(['0'] + s, 2, '0');
    }
  }

  /** Padding with '0' keeps the value and the digits; below 100 the result is two digits. */
  lemma PadKeepsValue(n: nat)
    ensures AllDigits(Pad2(n)) && DigitsValue(Pad2(n)) == n
    ensures 2 <= |Pad2(n)|
    ensures n < 100 ==> |Pad2(n)| == 2
  {
    Pad2Shape(n);
    NatToStringCanonical(n);
    LeadingZeroIgnored(NatToString(n));
    if n < 100 {
      TwoDigitsBelow100(n);
    }
  }

  /** The three fields of `H:MM:SS` hold the given units, the hours in full (never truncated). */
  lemma FormatUnitsFields(h: nat, m: nat, sec: nat)
    requires m < 60 && sec < 60
    ensures HoursField(FormatUnits(h, m, sec)) == Pad2(h)
    ensures var r := FormatUnits(h, m, sec);
      && AllDigits(HoursField(r)) && 2 <= |HoursField(r)| && DigitsValue(HoursField(r)) == h
      && AllDigits(MinutesField(r)) && DigitsValue(MinutesField(r)) == m
      && AllDigits(SecondsField(r)) && DigitsValue(SecondsField(r)) == sec
  {
    PadKeepsValue(h);
    PadKeepsValue(m);
    PadKeepsValue(sec);
  }

  /**
   * The three fields of `formatSeconds(t)`: the hours field is at least two
   * digits and holds t div 3600 in full, the minutes and seconds fields hold
   * (t mod 3600) div 60 and t mod 60.
   */
  lemma FormatSecondsFields(t: nat)
    ensures var r := FormatSeconds(t);
      && AllDigits(HoursField(r)) && 2 <= |HoursField(r)| && DigitsValue(HoursField(r)) == t / 3600
      && AllDigits(MinutesField(r)) && DigitsValue(MinutesField(r)) == (t % 3600) / 60
      && AllDigits(SecondsField(r)) && DigitsValue(SecondsField(r)) == t % 60
  {
    SplitUnits(t);
    FormatUnitsFields(t / 3600, (t % 3600) / 60, t % 60);
  }

  /** Reading `H:MM:SS` back gives h * 3600 + m * 60 + s. */
  lemma FormatUnitsRoundTrip(h: nat, m: nat, sec: nat)
    requires m < 60 && sec < 60
    ensures ParseClock(FormatUnits(h, m, sec)) == Some(h * 3600 + m * 60 + sec)
  {
    FormatUnitsFields(h, m, sec);
  }

  /** The formatted time is made of digits and the two colons only. */
  lemma FormatSecondsCharset(t: nat)
    ensures forall i :: 0 <= i < |FormatSeconds(t)| ==> IsDigit(FormatSeconds(t)[i]) || FormatSeconds(t)[i] == ':'
  {
    var r := FormatSeconds(t);
    FormatSecondsFields(t);
    assert r == HoursField(r) + ":" + MinutesField(r) + ":" + SecondsField(r);
  }

  /** Floor division by 3600 and then by 60 splits t into its three units. */
  lemma SplitUnits(t: nat)
    ensures (t % 3600) / 60 < 60 && t % 60 < 60
    ensures t == (t / 3600) * 3600 + ((t % 3600) / 60) * 60 + t % 60
  {
    var q, r := t / 3600, t % 3600;
    assert t == q * 3600 + r && r < 3600;
    var m, s := r / 60, r % 60;
    assert r == m * 60 + s && s < 60;
    assert m < 60;
    assert t == (q * 60 + m) * 60 + s;
    assert t % 60 == s;
  }

  /** Reading the formatted time back gives the original number of seconds. */
  lemma FormatSecondsRoundTrip(t: nat)
    ensures ParseClock(FormatSeconds(t)) == Some(t)
  {
    SplitUnits(t);
    var h, m, sec := t / 3600, (t % 3600) / 60, t % 60;
    assert FormatSeconds(t) == FormatUnits(h, m, sec);
    FormatUnitsRoundTrip(h, m, sec);
  }

  /** Distinct second counts format differently. */
  lemma FormatSecondsInjective(a: nat, b: nat)
    requires FormatSeconds(a) == FormatSeconds(b)
    ensures a == b
  {
    FormatSecondsRoundTrip(a);
    FormatSecondsRoundTrip(b);
  }

  /** `String(d).padStart(2, '0')` for a single digit d. */
  lemma Pad2Digit(d: nat)
    requires d < 10
    ensures Pad2(d) == ['0', DigitChar(d)]
  {
    assert NatToString(d) == [DigitChar(d)];
    assert PadStart([DigitChar(d)], 2, '0') == PadStart(['0', DigitChar(d)], 2, '0');
  }

  // The examples below take their number as a parameter fixed by `requires`
  // rather than as a literal argument. This only keeps the proofs cheap: on a
  // literal argument the solver evaluates every function it reaches.

  /** `formatSeconds(0)` is "00:00:00". */
  lemma FormatZero(t: nat)
    requires t == 0
    ensures FormatSeconds(t) == "00:00:00"
  {
    SplitUnits(t);
    Pad2Digit(t);
    assert DigitChar(t) == '0';
    assert FormatSeconds(t) == FormatUnits(t, t, t);
  }

  /** `formatSeconds(3661)` is "01:01:01". */
  lemma FormatOneHourOneMinuteOneSecond(t: nat)
    requires t == 3661
    ensures FormatSeconds(t) == "01:01:01"
  {
    SplitUnits(t);
    assert t / 3600 == 1 && (t % 3600) / 60 == 1 && t % 60 == 1;
    Pad2Digit(1);
    assert DigitChar(1) == '1';
    assert FormatSeconds(t) == FormatUnits(1, 1, 1) == "01" + ":" + "01" + ":" + "01";
  }

  /** One hundred is written "100". */
  lemma HundredDigits(n: nat)
    requires n == 100
    ensures NatToString(n) == "100"
  {
    assert DigitChar(0) == '0' && DigitChar(1) == '1';
    assert NatToString(n / 100) == "1";
    assert NatToString(n / 10) == NatToString(n / 100) + [DigitChar(0)] == "10";
  }

  /** `formatSeconds(360000)` is "100:00:00": the hours are not cut to two digits. */
  lemma FormatHundredHours(t: nat)
    requires t == 360000
    ensures FormatSeconds(t) == "100:00:00"
  {
    SplitUnits(t);
    var h := t / 3600;
    assert h == 100 && (t % 3600) / 60 == 0 && t % 60 == 0;
    HundredDigits(h);
    Pad2Shape(h);
    Pad2Digit(0);
    assert Pad2(h) == "100" && Pad2(0) == "00";
    assert FormatSeconds(t) == FormatUnits(h, 0, 0);
  }

  /** At least three digits from 100 on: 100 and more hours are written in full. */
  lemma {:induction false} ThreeDigitsFrom100(n: nat)
    requires 100 <= n
    ensures 3 <= |NatToString(n)|
  {
    NatToStringCanonical(n / 10);
    assert NatToString(n) == NatToString(n / 10) + [DigitChar(n % 10)];
  }

  /** From 100 hours on the hours field is three or more digits wide: `padStart` never truncates. */
  lemma HundredHoursNotTruncated(t: nat)
    requires 360000 <= t
    ensures 3 <= |HoursField(FormatSeconds(t))|
    ensures DigitsValue(HoursField(FormatSeconds(t))) == t / 3600
  {
    SplitUnits(t);
    var h := t / 3600;
    FormatUnitsFields(h, (t % 3600) / 60, t % 60);
    assert HoursField(FormatSeconds(t)) == Pad2(h);
    Pad2Shape(h);
    ThreeDigitsFrom100(h);
  }

  /** JavaScript's `%` on non-negative numbers: x less the whole multiples of y it holds. */
  function JsRemainder(x: real, y: real): (r: real)
    requires 0.0 <= x && 0.0 < y
    ensures 0.0 <= r < y
    ensures ((x - r) / y).Floor as real == (x - r) / y
  {
    var q := (x / y).Floor;
    RemainderBounds(x, y, q);
    x - y * q as real
  }

  /** With q the floor of x / y, x less q times y lies in [0, y) and leaves a whole multiple of y. */
  lemma RemainderBounds(x: real, y: real, q: int)
    requires 0.0 < y && q as real <= x / y < q as real + 1.0
    ensures var r := x - y * q as real;
      0.0 <= r < y && ((x - r) / y).Floor as real == (x - r) / y
  {
    var k := q as real;
    RemainderInRange(x, y, k);
    assert x - (x - y * k) == y * k;
    CancelFactor(y, k);
  }

  /** Below the next multiple of y and not below this one: x less k times y lies in [0, y). */
  lemma RemainderInRange(x: real, y: real, k: real)
    requires 0.0 < y && k <= x / y < k + 1.0
    ensures 0.0 <= x - y * k < y
  {
    var v := x / y;
    var d := k + 1.0 - v;
    assert d > 0.0;
    PositiveProduct(y, d);
    assert y * d == y * k + y - y * v;
    assert y * v == x;
    assert y * v - y * k >= 0.0 by { NonNegativeProduct(y, v - k); assert y * (v - k) == y * v - y * k; }
  }

  /** Dividing a multiple of y by y gives the factor back. */
  lemma CancelFactor(y: real, q: real)
    requires y != 0.0
    ensures (y * q) / y == q
  {
  }

  lemma NonNegativeProduct(a: real, b: real)
    requires 0.0 < a && 0.0 <= b
    ensures 0.0 <= a * b
  {
  }

  lemma PositiveProduct(a: real, b: real)
    requires 0.0 < a && 0.0 < b
    ensures 0.0 < a * b
  {
  }

  /** Flooring x / y for a non-negative number x is integer division of x's floor by y. */
  lemma FloorOfQuotient(x: real, y: int)
    requires 0.0 <= x && 0 < y
    ensures (x / y as real).Floor == x.Floor / y
  {
    var q := x.Floor / y;
    assert q * y <= x.Floor < (q + 1) * y;
    assert (q * y) as real <= x < ((q + 1) * y) as real;
    assert q as real * y as real <= x;
    assert q as real <= x / y as real < (q + 1) as real;
  }

  /**
   * The source's units on a number of seconds that need not be whole:
   * `Math.floor(x / 3600)`, `Math.floor((x % 3600) / 60)` and
   * `Math.floor(x % 60)` are the units of x's floor.
   */
  lemma FloorUnits(x: real)
    requires 0.0 <= x
    ensures (x / 3600.0).Floor == x.Floor / 3600
    ensures (JsRemainder(x, 3600.0) / 60.0).Floor == (x.Floor % 3600) / 60
    ensures JsRemainder(x, 60.0).Floor == x.Floor % 60
  {
    FloorOfQuotient(x, 3600);
    FloorOfQuotient(x, 60);
    var r := JsRemainder(x, 3600.0);
    assert r == x - 3600.0 * (x.Floor / 3600) as real;
    assert r.Floor == x.Floor % 3600;
    FloorOfQuotient(r, 60);
  }

  /**
   * `formatSeconds` as the source runs it, on a non-negative number of
   * seconds that need not be whole: each unit is floored separately. The
   * fraction is dropped: the text is that of the whole seconds.
   */
  function FormatSecondsOfNumber(totalSeconds: real): (r: string)
    requires 0.0 <= totalSeconds
    ensures r == FormatSeconds(totalSeconds.Floor)
  {
    FloorUnits(totalSeconds);
    SplitUnits(totalSeconds.Floor);
    FormatUnits((totalSeconds / 3600.0).Floor,
                (JsRemainder(totalSeconds, 3600.0) / 60.0).Floor,
                JsRemainder(totalSeconds, 60.0).Floor)
  }
}

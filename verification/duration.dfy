/** `VideoPreview._format_duration`: a duration in seconds shown as
    `MM:SS`, or `HH:MM:SS` from one hour on, or "Unknown". */
module Duration {

  function DigitChar(d: nat): (c: char)
    requires d < 10
    ensures '0' <= c <= '9'
  {
    ('0' as int + d) as char
  }

  /** `str(n)` for a non-negative integer. */
  function DecimalString(n: nat): (r: string)
    ensures |r| >= 1
  {
    if n < 10 then [DigitChar(n)] else DecimalString(n / 10) + [DigitChar(n % 10)]
  }

  /** The `{n:02d}` format: at least two digits, zero-padded. */
  function Pad2(n: nat): string
  {
    if n < 10 then "0" + DecimalString(n) else DecimalString(n)
  }

  /** Reads a string of decimal digits back as a number. */
  function DigitsValue(s: string): nat
  {
    if s == [] then 0
    else
      var c := s[|s| - 1];
      10 * DigitsValue(s[..|s| - 1]) + if '0' <= c <= '9' then (c as int - '0' as int) else 0
  }

  predicate AllDigits(s: string)
  {
    forall i :: 0 <= i < |s| ==> '0' <= s[i] <= '9'
  }

  /** `str(n)` is read back as `n`; it has two digits from 10 to 99. */
  lemma {:induction false} DecimalRoundTrip(n: nat)
    ensures AllDigits(DecimalString(n)) && DigitsValue(DecimalString(n)) == n
    ensures 10 <= n < 100 ==> |DecimalString(n)| == 2
    ensures 10 <= n ==> |DecimalString(n)| >= 2
  {
    if n >= 10 {
      DecimalRoundTrip(n / 10);
      var r := DecimalString(n);
      assert r[..|r| - 1] == DecimalString(n / 10);
    } else {
      assert DigitsValue([DigitChar(n)]) == 10 * DigitsValue([]) + n;
    }
  }

  /** A padded field is read back as its value and has exactly two digits
      below 100, at least two otherwise. */
  lemma Pad2RoundTrip(n: nat)
    ensures AllDigits(Pad2(n)) && DigitsValue(Pad2(n)) == n
    ensures |Pad2(n)| >= 2 && (n < 100 ==> |Pad2(n)| == 2)
  {
    DecimalRoundTrip(n);
    if n < 10 {
      var r := Pad2(n);
      assert r == ['0', DigitChar(n)];
      assert r[..1] == "0";
      assert DigitsValue("0") == 10 * DigitsValue([]) + 0;
    }
  }

  /** `str(n)` has no leading zero for a positive `n`, and three digits or
      more from 100 on. */
  lemma {:induction false} DecimalLeading(n: nat)
    ensures 1 <= n ==> DecimalString(n)[0] != '0'
    ensures 100 <= n ==> |DecimalString(n)| >= 3
  {
    if n >= 10 {
      DecimalLeading(n / 10);
      DecimalRoundTrip(n / 10);
      assert DecimalString(n)[0] == DecimalString(n / 10)[0];
    }
  }

  /** A padded field has more than two digits exactly from 100 on, and a
      leading zero only below 10. */
  lemma Pad2Width(n: nat)
    ensures n < 100 <==> |Pad2(n)| == 2
    ensures 10 <= n ==> Pad2(n)[0] != '0'
  {
    Pad2RoundTrip(n);
    DecimalLeading(n);
  }

  /** Multiplying by a positive factor keeps the sign. */
  lemma ProductSign(a: real, k: real)
    requires k > 0.0
    ensures a * k >= 0.0 ==> a >= 0.0
    ensures a * k > 0.0 ==> a > 0.0
  {
  }

  /** Python's float `x // k` for a non-negative `x` and a positive integer
      `k` is the integer quotient of the whole part of `x`. */
  lemma FloorQuotient(x: real, k: int)
    requires x >= 0.0 && k > 0
    ensures (x / k as real).Floor == x.Floor / k
  {
    var n := x.Floor;
    var q := n / k;
    var kr := k as real;
    assert q * k <= n < (q + 1) * k;
    assert (q * k) as real == q as real * kr && ((q + 1) * k) as real == (q + 1) as real * kr;
    var y := x / kr;
    assert y * kr == x;
    assert (y - q as real) * kr == x - q as real * kr;
    assert ((q + 1) as real - y) * kr == (q + 1) as real * kr - x;
    ProductSign(y - q as real, kr);
    ProductSign((q + 1) as real - y, kr);
  }

  /** Python's float `x % k` for a non-negative `x` and a positive integer
      `k` has the integer remainder of the whole part of `x` as its whole
      part. */
  lemma FloorRemainder(x: real, k: int)
    requires x >= 0.0 && k > 0
    ensures x - k as real * (x / k as real).Floor as real >= 0.0
    ensures (x - k as real * (x / k as real).Floor as real).Floor == x.Floor % k
  {
    FloorQuotient(x, k);
    var n, q := x.Floor, x.Floor / k;
    assert n == q * k + n % k;
    assert (q * k) as real == k as real * q as real;
  }

  /** The three fields `_format_duration` computes, with Python's float
      `//` and `%`, are the hours, minutes and seconds of the whole part of
      the duration. */
  function Fields(d: real): (f: (int, int, int))
    requires d > 0.0
    ensures f.0 >= 0 && 0 <= f.1 < 60 && 0 <= f.2 < 60
    ensures f.0 * 3600 + f.1 * 60 + f.2 == d.Floor
    ensures f.0 == d.Floor / 3600
  {
    var hours := (d / 3600.0).Floor;
    var withinHour := d - 3600.0 * hours as real;
    var minutes := (withinHour / 60.0).Floor;
    var seconds := (d - 60.0 * (d / 60.0).Floor as real).Floor;
    var n := d.Floor;
    FloorQuotient(d, 3600);
    FloorRemainder(d, 3600);
    assert withinHour >= 0.0 && withinHour.Floor == n % 3600;
    FloorQuotient(withinHour, 60);
    assert minutes == n % 3600 / 60;
    FloorRemainder(d, 60);
    assert seconds == n % 60;
    FieldsArithmetic(n);
    (hours, minutes, seconds)
  }

  /** Splitting whole seconds into hours, minutes and seconds. */
  lemma FieldsArithmetic(n: int)
    requires n >= 0
    ensures n / 3600 * 3600 + n % 3600 / 60 * 60 + n % 60 == n
    ensures 0 <= n % 3600 / 60 < 60
  {
  }

  /** The text for given hours, minutes and seconds: the hours appear only
      when there is at least one. */
  function Clock(h: nat, m: nat, s: nat): string
  {
    if h > 0 then Pad2(h) + ":" + Pad2(m) + ":" + Pad2(s) else Pad2(m) + ":" + Pad2(s)
  }

  /** `_format_duration(d)`. */
  function FormatDuration(d: real): string
  {
    if d <= 0.0 then "Unknown"
    else
      var f := Fields(d);
      Clock(f.0, f.1, f.2)
  }

  /** Reads a clock string back as seconds: `MM:SS` when it has five
      characters, `H..H:MM:SS` otherwise. */
  function ClockSeconds(r: string): int
  {
    if |r| == 5 then 60 * DigitsValue(r[..2]) + DigitsValue(r[3..])
    else if |r| >= 8 then
      3600 * DigitsValue(r[..|r| - 6]) + 60 * DigitsValue(r[|r| - 5..|r| - 3]) + DigitsValue(r[|r| - 2..])
    else 0
  }

  /** The shape every clock text has: two-digit minutes and seconds fields
      after the last two separators, read back as the given values. */
  predicate MinutesSeconds(r: string, m: nat, s: nat)
  {
    && |r| >= 5 && r[|r| - 3] == ':'
    && AllDigits(r[|r| - 5..|r| - 3]) && DigitsValue(r[|r| - 5..|r| - 3]) == m
    && AllDigits(r[|r| - 2..]) && DigitsValue(r[|r| - 2..]) == s
  }

  /** A clock text has five characters, or eight or more. */
  lemma ClockLength(h: nat, m: nat, s: nat)
    requires m < 60 && s < 60
    ensures h == 0 ==> |Clock(h, m, s)| == 5
    ensures h > 0 ==> |Clock(h, m, s)| >= 8
  {
    Pad2RoundTrip(h);
    Pad2RoundTrip(m);
    Pad2RoundTrip(s);
  }

  /** Below one hour the text is `MM:SS`, five characters, read back as
      the seconds it shows. */
  lemma {:induction false} ShortClock(m: nat, s: nat)
    requires m < 60 && s < 60
    ensures |Clock(0, m, s)| == 5 && MinutesSeconds(Clock(0, m, s), m, s)
    ensures ClockSeconds(Clock(0, m, s)) == 60 * m + s
  {
    Pad2RoundTrip(m);
    Pad2RoundTrip(s);
    var mm, ss := Pad2(m), Pad2(s);
    var r := Clock(0, m, s);
    assert r == mm + ":" + ss;
    assert r[..2] == mm && r[3..] == ss;
    assert r[|r| - 5..|r| - 3] == mm && r[|r| - 2..] == ss;
  }

  /** The fields of a text with hours: at least two hour digits before the
      first of the last two separators, two-digit minutes and seconds
      after them, each read back as its value. */
  lemma {:induction false} LongClockParts(h: nat, m: nat, s: nat)
    requires h > 0 && m < 60 && s < 60
    ensures |Clock(h, m, s)| >= 8 && MinutesSeconds(Clock(h, m, s), m, s)
    ensures var r := Clock(h, m, s);
      r[|r| - 6] == ':' && AllDigits(r[..|r| - 6]) && DigitsValue(r[..|r| - 6]) == h
  {
    Pad2RoundTrip(h);
    Pad2RoundTrip(m);
    Pad2RoundTrip(s);
    var hh, mm, ss := Pad2(h), Pad2(m), Pad2(s);
    SplitLong(hh, mm, ss);
    var r := Clock(h, m, s);
    assert r == hh + ":" + mm + ":" + ss;
    assert r[..|r| - 6] == hh && r[|r| - 5..|r| - 3] == mm && r[|r| - 2..] == ss;
  }

  /** From one hour on the text is `HH:MM:SS` with at least two hour
      digits, read back as the seconds it shows. */
  lemma LongClock(h: nat, m: nat, s: nat)
    requires h > 0 && m < 60 && s < 60
    ensures |Clock(h, m, s)| >= 8 && MinutesSeconds(Clock(h, m, s), m, s)
    ensures var r := Clock(h, m, s);
      r[|r| - 6] == ':' && AllDigits(r[..|r| - 6]) && DigitsValue(r[..|r| - 6]) == h
    ensures ClockSeconds(Clock(h, m, s)) == 3600 * h + 60 * m + s
  {
    LongClockParts(h, m, s);
    var r := Clock(h, m, s);
    assert ClockSeconds(r) == 3600 * DigitsValue(r[..|r| - 6]) + 60 * DigitsValue(r[|r| - 5..|r| - 3]) + DigitsValue(r[|r| - 2..]);
  }

  /** The pieces of `a:b:c` with two-character `b` and `c`, located from
      the end of the text. */
  lemma SplitLong(a: string, b: string, c: string)
    requires |b| == 2 && |c| == 2
    ensures var r := a + ":" + b + ":" + c;
      && |r| == |a| + 6 && r[..|r| - 6] == a && r[|r| - 6] == ':' && r[|r| - 3] == ':'
      && r[|r| - 5..|r| - 3] == b && r[|r| - 2..] == c
  {
  }

  /** The hours field of `HH:MM:SS` has exactly two digits below 100
      hours and more from then on, and a leading zero only below 10 hours. */
  lemma HoursWidth(h: nat, m: nat, s: nat)
    requires h > 0 && m < 60 && s < 60
    ensures h < 100 <==> |Clock(h, m, s)| == 8
    ensures 10 <= h ==> Clock(h, m, s)[0] != '0'
  {
    Pad2Width(h);
    Pad2RoundTrip(m);
    Pad2RoundTrip(s);
    assert Clock(h, m, s)[0] == Pad2(h)[0];
  }

  /** From one hour on, the formatted text has eight characters exactly
      below 100 hours, and starts with a zero only below 10 hours. */
  lemma FormatHoursWidth(d: real)
    requires d >= 3600.0
    ensures d < 360000.0 <==> |FormatDuration(d)| == 8
    ensures d >= 36000.0 ==> FormatDuration(d)[0] != '0'
  {
    var f := Fields(d);
    assert d < 360000.0 <==> f.0 < 100;
    assert d >= 36000.0 <==> f.0 >= 10;
    HoursWidth(f.0, f.1, f.2);
  }

  /** A duration that is not positive is shown as "Unknown"; a positive one
      never is. */
  lemma UnknownIffNotPositive(d: real)
    ensures FormatDuration(d) == "Unknown" <==> d <= 0.0
  {
    if d > 0.0 {
      var f := Fields(d);
      ClockLength(f.0, f.1, f.2);
      assert |FormatDuration(d)| != |"Unknown"|;
    }
  }

  /** A positive duration is shown as `MM:SS` below one hour and as
      `HH:MM:SS` from one hour on; minutes and seconds are two digits each
      and below 60, hours at least two digits and at least 1; and reading
      the text back gives the whole seconds of the duration. */
  lemma ClockReadsBack(d: real)
    requires d > 0.0
    ensures var r := FormatDuration(d);
      && (d < 3600.0 <==> |r| == 5)
      && MinutesSeconds(r, d.Floor % 3600 / 60, d.Floor % 60)
      && (d >= 3600.0 ==> |r| >= 8 && r[|r| - 6] == ':' && AllDigits(r[..|r| - 6]) && DigitsValue(r[..|r| - 6]) >= 1)
      && ClockSeconds(r) == d.Floor
  {
    var f := Fields(d);
    FieldsArithmetic(d.Floor);
    assert d < 3600.0 <==> f.0 == 0;
    if f.0 > 0 {
      LongClock(f.0, f.1, f.2);
    } else {
      ShortClock(f.1, f.2);
    }
  }

  /** The whole shape of `_format_duration`'s text for a positive
      duration: `MM:SS` below one hour; from one hour on `HH:MM:SS` whose
      hours field is exactly two digits below 100 hours and carries a
      leading zero only below 10 hours; and reading the text back gives
      the whole seconds of the duration. */
  lemma FormatDurationShape(d: real)
    requires d > 0.0
    ensures var r := FormatDuration(d);
      && (d < 3600.0 <==> |r| == 5)
      && MinutesSeconds(r, d.Floor % 3600 / 60, d.Floor % 60)
      && (d >= 3600.0 ==> |r| >= 8 && r[|r| - 6] == ':' && AllDigits(r[..|r| - 6]) && DigitsValue(r[..|r| - 6]) >= 1)
      && ClockSeconds(r) == d.Floor
    ensures d >= 3600.0 ==> (d < 360000.0 <==> |FormatDuration(d)| == 8)
    ensures d >= 36000.0 ==> |FormatDuration(d)| >= 8 && FormatDuration(d)[0] != '0'
  {
    ClockReadsBack(d);
    if d >= 3600.0 {
      FormatHoursWidth(d);
    }
  }
}

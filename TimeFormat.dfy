/** `formatDuration` and `formatPace` (js/common.js): a number of seconds is
    put into a `Date` at the epoch and a window of its ISO-8601 text
    "YYYY-MM-DDTHH:MM:SS.sssZ" is cut out. Here the clock value is an integer
    number of milliseconds, and the text is its time-of-day part
    "HH:MM:SS.sss", which starts at index 11 of the ISO text. */
module TimeFormat {
  import opened JsValues
  import opened Decimal
  import opened Arithmetic

  /** Index of the hours field in the ISO text. */
  const IsoTimeOffset: int := 11

  /** The clock fields of a time value: hours, minutes, seconds and
      milliseconds of its day (UTC; Euclidean `%` also places an instant
      before the epoch in its day). */
  datatype Clock = Clock(hours: nat, minutes: nat, seconds: nat, millis: nat)

  function ClockOf(t: int): (c: Clock)
    ensures c.hours < 24 && c.minutes < 60 && c.seconds < 60 && c.millis < 1000
    ensures c.hours * MsPerHour + c.minutes * MsPerMinute + c.seconds * MsPerSecond + c.millis
            == t % MsPerDay
  {
    var d := t % MsPerDay;
    var r1 := d % MsPerHour;
    var r2 := r1 % MsPerMinute;
    Clock(d / MsPerHour, r1 / MsPerMinute, r2 / MsPerSecond, r2 % MsPerSecond)
  }

  /** Characters 11 to 22 of `toISOString()`: "HH:MM:SS.sss". */
  function ClockString(t: int): (s: string)
    ensures |s| == 12
  {
    var c := ClockOf(t);
    Padded(c.hours, 2) + ":" + Padded(c.minutes, 2) + ":" + Padded(c.seconds, 2)
      + "." + Padded(c.millis, 3)
  }

  /** `toISOString().substring(start, end)` for a window inside the clock. */
  function IsoSubstring(t: int, start: int, end: int): (w: string)
    requires IsoTimeOffset <= start <= end <= IsoTimeOffset + 12
    ensures |w| == end - start
  {
    ClockString(t)[start - IsoTimeOffset .. end - IsoTimeOffset]
  }

  /** n characters '0'. */
  function Zeros(n: nat): (z: string)
    ensures |z| == n
  {
    if n == 0 then "" else "0" + Zeros(n - 1)
  }

  /** `s.replace(/^0+/, '')`: every leading '0' is removed. */
  function TrimLeadingZeros(s: string): (r: string)
    ensures r == [] || r[0] != '0'
    ensures |r| <= |s| && s == Zeros(|s| - |r|) + r
  {
    if s != [] && s[0] == '0' then
      var r := TrimLeadingZeros(s[1..]);
      assert s == "0" + s[1..];
      r
    else
      assert s == Zeros(0) + s;
      s
  }

  /** The time value `new Date(0)` holds after formatDuration's
      setSeconds/setMilliseconds calls. ToIntegerOrInfinity truncates both
      arguments toward zero; `seconds % 1.0` keeps the sign of `seconds`. */
  function DurationClock(seconds: real, includeMilliseconds: bool): (t: int)
    ensures 0.0 <= seconds ==> 0 <= t
    ensures 0.0 <= seconds && !includeMilliseconds ==> t % MsPerSecond == 0
  {
    var milliseconds := Frac(seconds) * 1000.0;
    if milliseconds > 0.0 && !includeMilliseconds then
      // rounded up to the next whole second (World Athletics rule 19.24.5)
      Trunc(seconds + 1.0) * MsPerSecond
    else
      Trunc(seconds) * MsPerSecond + Trunc(milliseconds)
  }

  function FormatDuration(seconds: Number, includeHours: bool, includeMilliseconds: bool,
                          trimLeadingZeros: bool): (r: string)
    ensures !seconds.IsFinite() ==> r == ""
    ensures seconds.IsFinite() && !trimLeadingZeros ==>
              |r| == (if includeHours then 7 else 5) + (if includeMilliseconds then 2 else 0)
    ensures r == [] || !trimLeadingZeros || r[0] != '0'
  {
    if !seconds.IsFinite() then ""
    else
      var t := DurationClock(seconds.value, includeMilliseconds);
      var start := if includeHours then 14 - 2 else 14;
      var end := if includeMilliseconds then 19 + 2 else 19;
      var result := IsoSubstring(t, start, end);
      if trimLeadingZeros then TrimLeadingZeros(result) else result
  }

  /** `formatPace`: whole seconds only; "MM:SS", or "H:MM:SS" above an hour;
      leading zeros removed; then the unit. A non-finite value makes an
      invalid Date, whose `toISOString()` throws a RangeError. */
  function FormatPace(seconds: Number, unit: string): (r: Outcome<string>)
    ensures r.Ok? <==> seconds.IsFinite()
    ensures r.Ok? ==> |r.value| >= |unit| && r.value[|r.value| - |unit|..] == unit
  {
    if !seconds.IsFinite() then RangeError
    else
      var t := Trunc(seconds.value) * MsPerSecond;
      var start := if seconds.value > 3600.0 then 12 else 14;
      var pace := TrimLeadingZeros(IsoSubstring(t, start, 19));
      Ok(pace + unit)
  }

  const DefaultPaceUnit: string := " /mi"

  // --- Reading a window back ----------------------------------------------------

  /** The seconds shown by "MM:SS". */
  function ReadMinutesSeconds(w: string): nat
    requires |w| == 5 && AllDigits(w[..2]) && AllDigits(w[3..])
  {
    Parse(w[..2]) * 60 + Parse(w[3..])
  }

  /** The seconds shown by "H:MM:SS". */
  function ReadHoursMinutesSeconds(w: string): nat
    requires |w| == 7 && IsDigit(w[0]) && AllDigits(w[2..4]) && AllDigits(w[5..])
  {
    DigitValue(w[0]) * 3600 + Parse(w[2..4]) * 60 + Parse(w[5..])
  }

  /** Zero-padding on the left back to `width` characters. */
  function PadZeros(p: string, width: nat): (s: string)
    requires |p| <= width
    ensures |s| == width
  {
    Zeros(width - |p|) + p
  }

  lemma TwoDigitFields(t: int)
    ensures var c := ClockOf(t);
            && Parse(Padded(c.minutes, 2)) == c.minutes
            && Parse(Padded(c.seconds, 2)) == c.seconds
  {
    var c := ClockOf(t);
    assert Pow10(2) == 100;
    ParsePaddedSmall(c.minutes, 2);
    ParsePaddedSmall(c.seconds, 2);
  }

  /** The windows formatDuration and formatPace cut, field by field. */
  lemma MinutesSecondsText(t: int)
    ensures var c := ClockOf(t);
            IsoSubstring(t, 14, 19) == Padded(c.minutes, 2) + ":" + Padded(c.seconds, 2)
  {
    var c := ClockOf(t);
    var mm, ss := Padded(c.minutes, 2), Padded(c.seconds, 2);
    var s := ClockString(t);
    assert s == Padded(c.hours, 2) + ":" + mm + ":" + ss + "." + Padded(c.millis, 3);
    assert s[3..8] == mm + ":" + ss;
  }

  lemma HoursMinutesSecondsText(t: int)
    ensures var c := ClockOf(t);
            IsoSubstring(t, 12, 19)
            == [DigitChar(c.hours % 10)] + ":" + Padded(c.minutes, 2) + ":" + Padded(c.seconds, 2)
  {
    var c := ClockOf(t);
    var hh, mm, ss := Padded(c.hours, 2), Padded(c.minutes, 2), Padded(c.seconds, 2);
    var s := ClockString(t);
    assert s == hh + ":" + mm + ":" + ss + "." + Padded(c.millis, 3);
    LastOfTwoDigits(c.hours);
    assert s[1..8] == [hh[1]] + ":" + mm + ":" + ss;
  }

  lemma TenthsText(t: int)
    ensures IsoSubstring(t, 19, 21) == "." + [DigitChar(ClockOf(t).millis / 100)]
  {
    var c := ClockOf(t);
    var mmm := Padded(c.millis, 3);
    var s := ClockString(t);
    assert s == Padded(c.hours, 2) + ":" + Padded(c.minutes, 2) + ":" + Padded(c.seconds, 2) + "." + mmm;
    FirstOfThreeDigits(c.millis);
    assert s[8..10] == "." + [mmm[0]];
  }

  /** The "MM:SS" window shows the seconds of the clock within its hour. */
  lemma MinutesSecondsWindow(t: int)
    ensures var w := IsoSubstring(t, 14, 19);
            && AllDigits(w[..2]) && w[2] == ':' && AllDigits(w[3..])
            && ReadMinutesSeconds(w) == (t % MsPerDay) / MsPerSecond % 3600
  {
    var c := ClockOf(t);
    var w := IsoSubstring(t, 14, 19);
    MinutesSecondsText(t);
    assert w[..2] == Padded(c.minutes, 2) && w[3..] == Padded(c.seconds, 2);
    TwoDigitFields(t);
    ClockSecondsInHour(t);
  }

  lemma ClockSecondsInHour(t: int)
    ensures var c := ClockOf(t);
            && c.minutes * 60 + c.seconds == (t % MsPerDay) / MsPerSecond % 3600
            && c.hours * 3600 + c.minutes * 60 + c.seconds == (t % MsPerDay) / MsPerSecond
  {
    var c := ClockOf(t);
    SecondsOfDay(t % MsPerDay, c.hours, c.minutes, c.seconds, c.millis);
  }

  lemma SecondsOfDay(d: int, h: nat, m: nat, s: nat, ms: nat)
    requires m < 60 && s < 60 && ms < 1000
    requires d == h * 3600000 + m * 60000 + s * 1000 + ms
    ensures m * 60 + s == d / 1000 % 3600
    ensures h * 3600 + m * 60 + s == d / 1000
    ensures (h % 10) * 3600 + m * 60 + s == d / 1000 % 36000
    ensures d % 1000 == ms
  {
    var secs := h * 3600 + m * 60 + s;
    LemmaDivModUnique(d, 1000, secs, ms);
    LemmaDivModUnique(secs, 3600, h, m * 60 + s);
    LemmaDivModUnique(secs, 36000, h / 10, (h % 10) * 3600 + m * 60 + s);
  }

  /** The "H:MM:SS" window shows only the last digit of the hours: the
      seconds of the day modulo ten hours. */
  lemma HoursMinutesSecondsWindow(t: int)
    ensures var w := IsoSubstring(t, 12, 19);
            && IsDigit(w[0]) && w[1] == ':' && AllDigits(w[2..4]) && w[4] == ':' && AllDigits(w[5..])
            && ReadHoursMinutesSeconds(w) == (t % MsPerDay) / MsPerSecond % 36000
  {
    var c := ClockOf(t);
    var w := IsoSubstring(t, 12, 19);
    HoursMinutesSecondsText(t);
    assert w[0] == DigitChar(c.hours % 10);
    assert w[2..4] == Padded(c.minutes, 2) && w[5..] == Padded(c.seconds, 2);
    TwoDigitFields(t);
    SecondsOfDay(t % MsPerDay, c.hours, c.minutes, c.seconds, c.millis);
  }

  // --- Rounding ---------------------------------------------------------------

  /** Without milliseconds, a positive fractional value is recorded as the
      next longer whole second: the clock holds ceiling(seconds) seconds. */
  lemma DurationRoundsUp(x: real)
    requires Frac(x) > 0.0
    ensures var t := DurationClock(x, false);
            && t % MsPerSecond == 0
            && x * 1000.0 < t as real < x * 1000.0 + 1000.0
  {
    assert x > 0.0;
    var n := Trunc(x);
    assert Trunc(x + 1.0) == n + 1;
  }

  /** A whole number of seconds, or milliseconds shown: the clock holds the
      value truncated to a millisecond, so nothing is rounded up. */
  lemma DurationKeepsMilliseconds(x: real, includeMilliseconds: bool)
    requires 0.0 <= x
    requires includeMilliseconds || Frac(x) == 0.0
    ensures var t := DurationClock(x, includeMilliseconds);
            t as real <= x * 1000.0 < t as real + 1.0
  {
    var n := Trunc(x);
    var ms := Frac(x) * 1000.0;
    assert 0.0 <= ms < 1000.0;
    assert n as real * 1000.0 + ms == x * 1000.0;
  }

  // --- What the formatted text reads as ----------------------------------------

  /** formatDuration(x, false, false, false) (no hours, no milliseconds, no
      trimming) reads back as x rounded up to a whole second, for every x
      below an hour. */
  lemma FormatDurationReadsBack(x: real)
    requires 0.0 <= x <= 3599.0
    ensures var r := FormatDuration(Finite(x), false, false, false);
            && |r| == 5 && AllDigits(r[..2]) && r[2] == ':' && AllDigits(r[3..])
            && (ReadMinutesSeconds(r) as real - 1.0 < x <= ReadMinutesSeconds(r) as real)
  {
    var t := DurationClock(x, false);
    var r := FormatDuration(Finite(x), false, false, false);
    assert r == IsoSubstring(t, 14, 19);
    WholeSecondsRoundedUp(x);
    MinutesSecondsWindow(t);
    SecondsBelow(t, 3600);
  }

  lemma SecondsBelow(t: int, bound: int)
    requires 0 <= t && t / 1000 < bound <= 86400
    ensures t % MsPerDay == t
    ensures (t % MsPerDay) / MsPerSecond % bound == t / 1000
  {
    var secs := t / 1000;
    assert t == secs * 1000 + t % 1000;
    assert t < 86400000;
    LemmaDivModUnique(t, MsPerDay, 0, t);
    LemmaDivModUnique(secs, bound, 0, secs);
  }

  /** The clock of formatDuration without milliseconds, in whole seconds, is
      x rounded up. */
  lemma WholeSecondsRoundedUp(x: real)
    requires 0.0 <= x
    ensures var t := DurationClock(x, false);
            && t % 1000 == 0 && 0 <= t
            && (t / 1000) as real - 1.0 < x <= (t / 1000) as real
  {
    var t := DurationClock(x, false);
    var n := Trunc(x);
    if Frac(x) > 0.0 {
      DurationRoundsUp(x);
      assert t == (n + 1) * 1000;
      assert t / 1000 == n + 1;
    } else {
      assert t == n * 1000;
      assert t / 1000 == n;
    }
  }

  /** With `includeHours`, the text reads back as the rounded-up value for
      every x below ten hours; from ten hours on the tens digit is cut off. */
  lemma FormatDurationWithHoursReadsBack(x: real)
    requires 0.0 <= x <= 35999.0
    ensures var r := FormatDuration(Finite(x), true, false, false);
            && |r| == 7 && IsDigit(r[0]) && AllDigits(r[2..4]) && AllDigits(r[5..])
            && (ReadHoursMinutesSeconds(r) as real - 1.0 < x <= ReadHoursMinutesSeconds(r) as real)
  {
    var t := DurationClock(x, false);
    var r := FormatDuration(Finite(x), true, false, false);
    assert r == IsoSubstring(t, 12, 19);
    WholeSecondsRoundedUp(x);
    HoursMinutesSecondsWindow(t);
    SecondsBelow(t, 36000);
  }

  /** With `includeMilliseconds`, the "MM:SS.d" text shows x truncated to a
      tenth of a second, for x below an hour. */
  lemma FormatDurationTenthsReadsBack(x: real)
    requires 0.0 <= x < 3600.0
    ensures var r := FormatDuration(Finite(x), false, true, false);
            && |r| == 7 && AllDigits(r[..2]) && r[2] == ':' && AllDigits(r[3..5]) && r[5] == '.'
            && IsDigit(r[6])
            && var tenths := ReadMinutesSeconds(r[..5]) * 10 + DigitValue(r[6]);
               tenths as real <= x * 10.0 < tenths as real + 1.0
  {
    var t := DurationClock(x, true);
    DurationKeepsMilliseconds(x, true);
    assert 0 <= t < 3600000;
    var r := FormatDuration(Finite(x), false, true, false);
    assert r == IsoSubstring(t, 14, 21);
    TenthsWindow(t);
    TenthsOf(t, x, t % 1000);
  }

  /** The "MM:SS.d" window of a clock below an hour shows its tenths of a second. */
  lemma TenthsWindow(t: int)
    requires 0 <= t < 3600000
    ensures var w := IsoSubstring(t, 14, 21);
            && AllDigits(w[..2]) && w[2] == ':' && AllDigits(w[3..5]) && w[5] == '.' && IsDigit(w[6])
            && ReadMinutesSeconds(w[..5]) * 10 + DigitValue(w[6]) == (t / 1000) * 10 + (t % 1000) / 100
  {
    var w := IsoSubstring(t, 14, 21);
    SplitWindow(t);
    MinutesSecondsWindow(t);
    SecondsBelow(t, 3600);
    assert ReadMinutesSeconds(w[..5]) == t / 1000;
    TenthsText(t);
    var c := ClockOf(t);
    assert w[6] == w[5..][1] == DigitChar(c.millis / 100);
    SecondsOfDay(t % MsPerDay, c.hours, c.minutes, c.seconds, c.millis);
  }

  lemma SplitWindow(t: int)
    ensures IsoSubstring(t, 14, 21)[..5] == IsoSubstring(t, 14, 19)
    ensures IsoSubstring(t, 14, 21)[5..] == IsoSubstring(t, 19, 21)
  {
    var s := ClockString(t);
    assert s[3..10][..5] == s[3..8];
    assert s[3..10][5..] == s[8..10];
  }

  lemma TenthsOf(t: int, x: real, ms: nat)
    requires 0 <= t && t as real <= x * 1000.0 < t as real + 1.0
    requires t == (t / 1000) * 1000 + ms && ms < 1000
    ensures var tenths := (t / 1000) * 10 + ms / 100;
            tenths as real <= x * 10.0 < tenths as real + 1.0
  {
    var tenths := (t / 1000) * 10 + ms / 100;
    assert tenths * 100 <= t < tenths * 100 + 100;
    assert (tenths * 100) as real <= x * 1000.0;
    assert x * 1000.0 < (tenths * 100 + 100) as real;
  }

  /** Trimmed zeros can be put back: padding the trimmed text with zeros to
      its former width gives the untrimmed text. */
  lemma {:induction false} TrimThenPad(s: string)
    ensures PadZeros(TrimLeadingZeros(s), |s|) == s
  {
    var r := TrimLeadingZeros(s);
    assert s == Zeros(|s| - |r|) + r;
  }

  /** formatPace reads back as the whole seconds of its input: "MM:SS" up to an
      hour, "H:MM:SS" from just above an hour to ten hours. */
  lemma FormatPaceReadsBack(x: real, unit: string)
    requires 0.0 <= x < 36000.0
    ensures var r := FormatPace(Finite(x), unit);
            && r.Ok? && |r.value| >= |unit|
            && var pace := r.value[..|r.value| - |unit|];
               && r.value == pace + unit
               && (x <= 3600.0 ==>
                     |pace| <= 5 && var w := PadZeros(pace, 5);
                     AllDigits(w[..2]) && AllDigits(w[3..]) && ReadMinutesSeconds(w) == Trunc(x) % 3600)
               && (x > 3600.0 ==>
                     |pace| <= 7 && var w := PadZeros(pace, 7);
                     IsDigit(w[0]) && AllDigits(w[2..4]) && AllDigits(w[5..])
                     && ReadHoursMinutesSeconds(w) == Trunc(x))
  {
    var t := Trunc(x) * MsPerSecond;
    PaceClock(x);
    var r := FormatPace(Finite(x), unit);
    var start := if x > 3600.0 then 12 else 14;
    var pace := TrimLeadingZeros(IsoSubstring(t, start, 19));
    assert r.value == pace + unit;
    assert r.value[..|r.value| - |unit|] == pace;
    if x <= 3600.0 {
      PaceBelowHour(t, Trunc(x));
    } else {
      PaceAboveHour(t, Trunc(x));
    }
  }

  lemma PaceClock(x: real)
    requires 0.0 <= x < 36000.0
    ensures var t := Trunc(x) * MsPerSecond;
            0 <= t < MsPerDay && t % MsPerDay == t && t / MsPerSecond == Trunc(x)
  {
    var n := Trunc(x);
    LemmaDivModUnique(n * 1000, MsPerDay, 0, n * 1000);
    LemmaDivModUnique(n * 1000, MsPerSecond, n, 0);
  }

  lemma PaceBelowHour(t: int, n: int)
    requires 0 <= t < MsPerDay && t % MsPerDay == t && t / MsPerSecond == n
    ensures var pace := TrimLeadingZeros(IsoSubstring(t, 14, 19));
            |pace| <= 5 && var w := PadZeros(pace, 5);
            AllDigits(w[..2]) && AllDigits(w[3..]) && ReadMinutesSeconds(w) == n % 3600
  {
    var w := IsoSubstring(t, 14, 19);
    TrimThenPad(w);
    MinutesSecondsWindow(t);
  }

  lemma PaceAboveHour(t: int, n: int)
    requires 0 <= t < MsPerDay && t % MsPerDay == t && t / MsPerSecond == n && n < 36000
    ensures var pace := TrimLeadingZeros(IsoSubstring(t, 12, 19));
            |pace| <= 7 && var w := PadZeros(pace, 7);
            IsDigit(w[0]) && AllDigits(w[2..4]) && AllDigits(w[5..])
            && ReadHoursMinutesSeconds(w) == n
  {
    var w := IsoSubstring(t, 12, 19);
    TrimThenPad(w);
    HoursMinutesSecondsWindow(t);
    LemmaDivModUnique(n, 36000, 0, n);
  }

  // --- The worked examples -----------------------------------------------------

  /** A two-digit field below 100 is its tens digit and its units digit. */
  lemma TwoDigits(n: nat)
    requires n < 100
    ensures Padded(n, 2) == [DigitChar(n / 10), DigitChar(n % 10)]
  {
    assert Padded(n / 10, 1) == Padded(n / 100, 0) + [DigitChar(n / 10 % 10)];
  }

  lemma ExampleDuration()
    ensures FormatDuration(Finite(125.0), false, false, false) == "02:05"
    ensures FormatDuration(Finite(125.0), true, false, false) == "0:02:05"
  {
    assert Trunc(125.0) == 125;
    assert DurationClock(125.0, false) == 125000;
    ClockFields(125000, 0, 2, 5);
    MinutesSecondsText(125000);
    HoursMinutesSecondsText(125000);
    TwoDigits(2);
    TwoDigits(5);
  }

  /** A fraction of a second is rounded up. */
  lemma ExampleDurationRoundsUp()
    ensures FormatDuration(Finite(125.3), false, false, false) == "02:06"
  {
    assert Trunc(125.3) == 125 && Frac(125.3) > 0.0;
    assert Trunc(125.3 + 1.0) == 126;
    assert DurationClock(125.3, false) == 126000;
    ClockFields(126000, 0, 2, 6);
    MinutesSecondsText(126000);
    TwoDigits(2);
    TwoDigits(6);
  }

  /** The clock of a whole number of seconds below a day. */
  lemma ClockFields(t: int, h: nat, m: nat, s: nat)
    requires h < 24 && m < 60 && s < 60
    requires t == h * 3600000 + m * 60000 + s * 1000
    ensures ClockOf(t) == Clock(h, m, s, 0)
  {
    var c := ClockOf(t);
    LemmaDivModUnique(t, MsPerDay, 0, t);
    ClockUnique(t, c, Clock(h, m, s, 0));
  }

  lemma ClockUnique(t: int, c: Clock, e: Clock)
    requires c.minutes < 60 && c.seconds < 60 && c.millis < 1000
    requires e.minutes < 60 && e.seconds < 60 && e.millis < 1000
    requires c.hours * MsPerHour + c.minutes * MsPerMinute + c.seconds * MsPerSecond + c.millis
             == e.hours * MsPerHour + e.minutes * MsPerMinute + e.seconds * MsPerSecond + e.millis
    ensures c == e
  {
    var d := c.hours * MsPerHour + c.minutes * MsPerMinute + c.seconds * MsPerSecond + c.millis;
    SecondsOfDay(d, c.hours, c.minutes, c.seconds, c.millis);
    SecondsOfDay(d, e.hours, e.minutes, e.seconds, e.millis);
    var secs := d / 1000;
    LemmaDivModUnique(secs, 60, c.hours * 60 + c.minutes, c.seconds);
    LemmaDivModUnique(secs, 60, e.hours * 60 + e.minutes, e.seconds);
    LemmaDivModUnique(secs / 60, 60, c.hours, c.minutes);
    LemmaDivModUnique(secs / 60, 60, e.hours, e.minutes);
  }

  lemma ClockAt75s()
    ensures IsoSubstring(75000, 14, 19) == "01:15"
  {
    ClockFields(75000, 0, 1, 15);
    MinutesSecondsText(75000);
    TwoDigits(1);
    TwoDigits(15);
  }

  /** formatPace(75) is "1:15 /mi": the leading zero of "01:15" is removed. */
  lemma ExamplePace()
    ensures FormatPace(Finite(75.0), DefaultPaceUnit) == Ok("1:15 /mi")
  {
    assert Trunc(75.0) * MsPerSecond == 75000;
    assert FormatPace(Finite(75.0), DefaultPaceUnit)
        == Ok(TrimLeadingZeros(IsoSubstring(75000, 14, 19)) + DefaultPaceUnit);
    ClockAt75s();
    TrimOneZero();
    assert "1:15" + DefaultPaceUnit == "1:15 /mi";
  }

  lemma TrimOneZero()
    ensures TrimLeadingZeros("01:15") == "1:15"
  {
    assert "01:15"[1..] == "1:15";
    assert TrimLeadingZeros("1:15") == "1:15";
  }
}

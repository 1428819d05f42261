/** The arithmetic of `createCountdown` (js/common.js): the milliseconds left
    until the target instant are split into days, hours, minutes and seconds.
    The current time is a parameter. */
module Countdown {
  import opened JsValues
  import opened Arithmetic

  datatype Fields = Fields(days: int, hours: int, minutes: int, seconds: int)

  /** `Math.floor(a / b)` for integers and b > 0; Dafny's `/` rounds toward
      negative infinity when the divisor is positive. */
  function FloorDiv(a: int, b: int): (q: int)
    requires b > 0
    ensures q * b <= a < q * b + b
  {
    a / b
  }

  /** The four numbers the countdown shows for `countDownDate - now`; the
      inner `%` is JavaScript's, so a negative time left gives negative
      fields. */
  function Decompose(timeLeft: int): (f: Fields)
    ensures timeLeft >= 0 ==>
              && 0 <= f.hours < 24 && 0 <= f.minutes < 60 && 0 <= f.seconds < 60 && 0 <= f.days
              && f.days * MsPerDay + f.hours * MsPerHour + f.minutes * MsPerMinute + f.seconds * MsPerSecond
                 <= timeLeft
                 < f.days * MsPerDay + f.hours * MsPerHour + f.minutes * MsPerMinute + f.seconds * MsPerSecond
                   + MsPerSecond
    ensures timeLeft < 0 ==>
              && f.days < 0
              && -24 <= f.hours <= 0 && -60 <= f.minutes <= 0 && -60 <= f.seconds <= 0
  {
    var f := Fields(FloorDiv(timeLeft, MsPerDay),
                    FloorDiv(Rem(timeLeft, MsPerDay), MsPerHour),
                    FloorDiv(Rem(timeLeft, MsPerHour), MsPerMinute),
                    FloorDiv(Rem(timeLeft, MsPerMinute), MsPerSecond));
    if timeLeft >= 0 then
      DecomposeNonNegative(timeLeft);
      f
    else
      f
  }

  function TimeLeft(countDownDate: int, now: int): int
  {
    countDownDate - now
  }

  /** The countdown is over (the page swaps to its completion element) exactly
      once the target instant has passed. */
  predicate Finished(countDownDate: int, now: int)
  {
    TimeLeft(countDownDate, now) < 0
  }

  lemma DecomposeNonNegative(t: int)
    requires t >= 0
    ensures var hours := Rem(t, MsPerDay) / MsPerHour;
            var minutes := Rem(t, MsPerHour) / MsPerMinute;
            var seconds := Rem(t, MsPerMinute) / MsPerSecond;
            && 0 <= hours < 24 && 0 <= minutes < 60 && 0 <= seconds < 60
            && (t / MsPerDay) * MsPerDay + hours * MsPerHour + minutes * MsPerMinute + seconds * MsPerSecond
               + t % MsPerSecond == t
  {
    var d := t % MsPerDay;
    var hours := d / MsPerHour;
    ModNested(t, MsPerDay, MsPerHour, 24);
    ModNested(t, MsPerHour, MsPerMinute, 60);
    ModNested(t, MsPerMinute, MsPerSecond, 60);
    assert t == (t / MsPerDay) * MsPerDay + d;
    assert d == hours * MsPerHour + t % MsPerHour;
    assert t % MsPerHour == (t % MsPerHour / MsPerMinute) * MsPerMinute + t % MsPerMinute;
    assert t % MsPerMinute == (t % MsPerMinute / MsPerSecond) * MsPerSecond + t % MsPerSecond;
  }

  /** One millisecond after the target instant every field reads -1. */
  lemma JustAfterTarget(countDownDate: int)
    ensures Finished(countDownDate, countDownDate + 1)
    ensures Decompose(TimeLeft(countDownDate, countDownDate + 1)) == Fields(-1, -1, -1, -1)
  {
  }

  /** A whole number of days, hours, minutes and seconds before the target,
      the countdown shows exactly those numbers. */
  lemma DecomposeExact(days: nat, hours: nat, minutes: nat, seconds: nat, ms: nat)
    requires hours < 24 && minutes < 60 && seconds < 60 && ms < 1000
    ensures Decompose(days * MsPerDay + hours * MsPerHour + minutes * MsPerMinute + seconds * MsPerSecond + ms)
            == Fields(days, hours, minutes, seconds)
  {
    var t := days * MsPerDay + hours * MsPerHour + minutes * MsPerMinute + seconds * MsPerSecond + ms;
    var inDay := hours * MsPerHour + minutes * MsPerMinute + seconds * MsPerSecond + ms;
    var inHour := minutes * MsPerMinute + seconds * MsPerSecond + ms;
    var inMinute := seconds * MsPerSecond + ms;
    LemmaDivModUnique(t, MsPerDay, days, inDay);
    LemmaDivModUnique(inDay, MsPerHour, hours, inHour);
    LemmaDivModUnique(t, MsPerHour, days * 24 + hours, inHour);
    LemmaDivModUnique(inHour, MsPerMinute, minutes, inMinute);
    LemmaDivModUnique(t, MsPerMinute, (days * 24 + hours) * 60 + minutes, inMinute);
    LemmaDivModUnique(inMinute, MsPerSecond, seconds, ms);
  }
}

/** `LapTable.addResultsDetails` (js/dm24/LapTable.js): one pass over a
    runner's laps builds the table rows with running totals, paces, the
    extra-lap flag and the running direction; and the column aggregates and
    group header the table shows. */
module LapTable {
  import opened JsValues
  import opened Decimal
  import opened TimeFormat

  /** The direction label. A truthy `lapClockwise[i]` is labelled "CCW". */
  datatype Direction = CCW | CW

  /** One row of the table. `distance` is `undefined` (None) past the end of
      `lapLength`; the derived numbers are then NaN. */
  datatype LapRecord = LapRecord(
    n: int,
    time: real,
    distance: Option<real>,
    distanceElapsed: Number,
    timeElapsed: real,
    pace: Number,
    paceMi: Number,
    paceKm: Number,
    extra: bool,
    direction: Option<Direction>)

  /** Metres in a mile, as the source writes it. */
  const MetresPerMile: real := 1609.34

  function LapDistance(lapLength: seq<real>, i: nat): Option<real>
  {
    if i < |lapLength| then Some(lapLength[i]) else None
  }

  /** ToNumber: `undefined` is NaN. */
  function AsNumber(x: Option<real>): Number
  {
    if x.Some? then Finite(x.value) else NaN
  }

  /** Truthiness of `lapClockwise[i]`; past the end it is `undefined`. */
  predicate Clockwise(lapClockwise: seq<bool>, i: nat)
  {
    i < |lapClockwise| && lapClockwise[i]
  }

  function Sum(s: seq<real>): real
  {
    if s == [] then 0.0 else Sum(s[..|s| - 1]) + s[|s| - 1]
  }

  /** `distanceElapsed` after the first n laps, in the source's arithmetic. */
  function DistanceElapsed(lapLength: seq<real>, n: nat): Number
  {
    if n == 0 then Finite(0.0)
    else Add(DistanceElapsed(lapLength, n - 1), AsNumber(LapDistance(lapLength, n - 1)))
  }

  /** The row for lap i. */
  function LapAt(lapTime: seq<real>, lapLength: seq<real>, lapClockwise: seq<bool>, lapTarget: int, i: nat): LapRecord
    requires i < |lapTime|
  {
    var distance := LapDistance(lapLength, i);
    var pace := Div(AsNumber(distance), Finite(lapTime[i]));
    LapRecord(
      i + 1,
      lapTime[i],
      distance,
      DistanceElapsed(lapLength, i + 1),
      Sum(lapTime[..i + 1]),
      pace,
      Div(Finite(MetresPerMile), pace),
      Div(Finite(1000.0), pace),
      i > lapTarget,
      if i == 0 then None else Some(if Clockwise(lapClockwise, i) then CCW else CW))
  }

  function Laps(lapTime: seq<real>, lapLength: seq<real>, lapClockwise: seq<bool>, lapTarget: int): (laps: seq<LapRecord>)
    ensures |laps| == |lapTime|
  {
    seq(|lapTime|, i requires 0 <= i < |lapTime| => LapAt(lapTime, lapLength, lapClockwise, lapTarget, i))
  }

  /** The derivation loop of addResultsDetails. */
  method AddResultsDetails(lapTime: seq<real>, lapLength: seq<real>, lapClockwise: seq<bool>, lapTarget: int)
    returns (lapObjects: seq<LapRecord>)
    ensures lapObjects == Laps(lapTime, lapLength, lapClockwise, lapTarget)
  {
    lapObjects := [];
    var timeElapsed := 0.0;
    var distanceElapsed := Finite(0.0);
    for i := 0 to |lapTime|
      invariant |lapObjects| == i
      invariant forall k :: 0 <= k < i ==> lapObjects[k] == LapAt(lapTime, lapLength, lapClockwise, lapTarget, k)
      invariant timeElapsed == Sum(lapTime[..i])
      invariant distanceElapsed == DistanceElapsed(lapLength, i)
    {
      var lapDistance := LapDistance(lapLength, i);
      var pace := Div(AsNumber(lapDistance), Finite(lapTime[i]));
      SumStep(lapTime, i);
      timeElapsed := timeElapsed + lapTime[i];
      distanceElapsed := Add(distanceElapsed, AsNumber(lapDistance));
      var direction := if Clockwise(lapClockwise, i) then Some(CCW) else Some(CW);
      if i == 0 {
        direction := None;
      }
      var row := LapRecord(i + 1, lapTime[i], lapDistance, distanceElapsed, timeElapsed,
                           pace, Div(Finite(MetresPerMile), pace), Div(Finite(1000.0), pace),
                           i > lapTarget, direction);
      assert row == LapAt(lapTime, lapLength, lapClockwise, lapTarget, i);
      ghost var before := lapObjects;
      lapObjects := lapObjects + [row];
      assert forall k :: 0 <= k < i ==> lapObjects[k] == before[k];
    }
  }

  lemma SumStep(s: seq<real>, i: nat)
    requires i < |s|
    ensures Sum(s[..i + 1]) == Sum(s[..i]) + s[i]
  {
    assert s[..i + 1][..i] == s[..i];
  }

  // --- What each row holds -----------------------------------------------------

  /** The running totals: the first row's elapsed time is its lap time, and
      each later row adds exactly its own lap to the row before. */
  lemma TimeElapsedSteps(lapTime: seq<real>, lapLength: seq<real>, lapClockwise: seq<bool>, lapTarget: int, i: nat)
    requires i < |lapTime|
    ensures var laps := Laps(lapTime, lapLength, lapClockwise, lapTarget);
            && laps[i].n == i + 1 && laps[i].time == lapTime[i]
            && (i == 0 ==> laps[i].timeElapsed == lapTime[0])
            && (i > 0 ==> laps[i].timeElapsed == laps[i - 1].timeElapsed + lapTime[i])
  {
    assert lapTime[..i + 1][..i] == lapTime[..i];
    if i == 0 {
      assert lapTime[..1][..0] == [];
      assert Sum(lapTime[..1]) == Sum([]) + lapTime[0];
    }
  }

  /** Each row's flags: `extra` exactly past the lap target; no direction on
      the entrance lap, and on every later lap "CCW" exactly when its
      `lapClockwise` entry is truthy; the distance is the lap's length, or
      `undefined` past the end of `lapLength`. */
  lemma LapFlags(lapTime: seq<real>, lapLength: seq<real>, lapClockwise: seq<bool>, lapTarget: int, i: nat)
    requires i < |lapTime|
    ensures var lap := Laps(lapTime, lapLength, lapClockwise, lapTarget)[i];
            && (lap.extra <==> i > lapTarget)
            && (lap.direction.None? <==> i == 0)
            && (i > 0 ==> (lap.direction == Some(CCW) <==> i < |lapClockwise| && lapClockwise[i]))
            && (lap.distance.Some? <==> i < |lapLength|)
            && (i < |lapLength| ==> lap.distance == Some(lapLength[i]))
            && lap.distanceElapsed == DistanceElapsed(lapLength, i + 1)
  {
  }

  /** The elapsed distance is the sum of the lap lengths so far while every
      lap has a length, and NaN from the first lap without one. */
  lemma {:induction false} DistanceElapsedIsSum(lapLength: seq<real>, n: nat)
    ensures n <= |lapLength| ==> DistanceElapsed(lapLength, n) == Finite(Sum(lapLength[..n]))
    ensures n > |lapLength| ==> DistanceElapsed(lapLength, n) == NaN
  {
    if n > 0 {
      DistanceElapsedIsSum(lapLength, n - 1);
      if n <= |lapLength| {
        assert lapLength[..n][..n - 1] == lapLength[..n - 1];
      }
    }
  }

  /** Pace in metres per second, and its inverses in seconds per mile and per
      kilometre, for a lap with non-zero time and length; a lap of length zero
      has an infinite pace per mile and a lap of time zero a zero one. */
  lemma PaceIdentities(lapTime: seq<real>, lapLength: seq<real>, lapClockwise: seq<bool>, lapTarget: int, i: nat)
    requires i < |lapTime| && i < |lapLength|
    ensures var lap := Laps(lapTime, lapLength, lapClockwise, lapTarget)[i];
            var t, d := lapTime[i], lapLength[i];
            && (t != 0.0 && d != 0.0 ==>
                  && lap.pace == Finite(d / t)
                  && lap.paceMi == Finite(MetresPerMile * t / d)
                  && lap.paceKm == Finite(1000.0 * t / d))
            && (t > 0.0 && d == 0.0 ==> lap.paceMi == PosInfinity)
            && (t == 0.0 && d > 0.0 ==> lap.pace == PosInfinity && lap.paceMi == Finite(0.0))
  {
    var t, d := lapTime[i], lapLength[i];
    if t != 0.0 && d != 0.0 {
      assert MetresPerMile / (d / t) == MetresPerMile * t / d;
      assert 1000.0 / (d / t) == 1000.0 * t / d;
    }
  }

  /** The number of rows flagged `extra`. */
  function ExtraCount(laps: seq<LapRecord>): nat
  {
    if laps == [] then 0 else ExtraCount(laps[..|laps| - 1]) + (if laps[|laps| - 1].extra then 1 else 0)
  }

  function Clamp(x: int, lo: int, hi: int): int
  {
    if x < lo then lo else if x > hi then hi else x
  }

  /** Laps 0..lapTarget are the target laps; every lap after them is extra. */
  lemma {:induction false} ExtraLaps(lapTime: seq<real>, lapLength: seq<real>, lapClockwise: seq<bool>, lapTarget: int, n: nat)
    requires n <= |lapTime|
    ensures ExtraCount(Laps(lapTime, lapLength, lapClockwise, lapTarget)[..n]) == n - Clamp(lapTarget + 1, 0, n)
  {
    if n > 0 {
      var laps := Laps(lapTime, lapLength, lapClockwise, lapTarget);
      assert laps[..n][..n - 1] == laps[..n - 1];
      ExtraLaps(lapTime, lapLength, lapClockwise, lapTarget, n - 1);
    }
  }

  // --- Column aggregates -------------------------------------------------------

  function Mean(values: seq<real>): real
    requires values != []
  {
    Sum(values) / |values| as real
  }

  /** The Time column's bottom calc: nothing for no rows, else the mean lap
      time as "MM:SS.d". */
  function TimeAverage(values: seq<real>): (r: string)
    ensures r == "" <==> values == []
    ensures values != [] ==> |r| == 7
  {
    if values == [] then "" else FormatDuration(Finite(Mean(values)), false, true, false)
  }

  lemma {:induction false} SumBounds(values: seq<real>, lo: real, hi: real)
    requires forall i :: 0 <= i < |values| ==> lo <= values[i] <= hi
    ensures |values| as real * lo <= Sum(values) <= |values| as real * hi
  {
    if values != [] {
      SumBounds(values[..|values| - 1], lo, hi);
    }
  }

  /** The mean lies within the range of the lap times, and the footer shows it
      to the tenth of a second while it is under an hour. */
  lemma TimeAverageReadsBack(values: seq<real>, lo: real, hi: real)
    requires values != [] && 0.0 <= lo
    requires hi < 3600.0
    requires forall i :: 0 <= i < |values| ==> lo <= values[i] <= hi
    ensures lo <= Mean(values) <= hi
    ensures var r := TimeAverage(values);
            && |r| == 7 && AllDigits(r[..2]) && r[2] == ':' && AllDigits(r[3..5]) && r[5] == '.' && IsDigit(r[6])
            && var tenths := ReadMinutesSeconds(r[..5]) * 10 + DigitValue(r[6]);
               tenths as real <= Mean(values) * 10.0 < tenths as real + 1.0
  {
    MeanBounds(values, lo, hi);
    FormatDurationTenthsReadsBack(Mean(values));
  }

  /** `values.reduce((a, b) => a + b, 0)` over JavaScript numbers. */
  function NumberSum(values: seq<Number>): Number
  {
    if values == [] then Finite(0.0) else Add(NumberSum(values[..|values| - 1]), values[|values| - 1])
  }

  predicate AllFinite(values: seq<Number>)
  {
    forall i :: 0 <= i < |values| ==> values[i].IsFinite()
  }

  lemma {:induction false} NumberSumFinite(values: seq<Number>)
    ensures NumberSum(values).IsFinite() <==> AllFinite(values)
  {
    if values != [] {
      var init := values[..|values| - 1];
      NumberSumFinite(init);
      assert AllFinite(values) <==> AllFinite(init) && values[|values| - 1].IsFinite() by {
        if AllFinite(init) && values[|values| - 1].IsFinite() {
          forall i | 0 <= i < |values| ensures values[i].IsFinite() {
            if i < |init| {
              assert values[i] == init[i];
            }
          }
        }
      }
    }
  }

  /** The min/mi column's bottom calc: nothing for no rows, else the mean pace
      through formatPace. An infinite or NaN pace anywhere makes the mean
      non-finite, and formatPace then throws a RangeError. */
  function PaceAverage(values: seq<Number>): (r: Outcome<string>)
    ensures r.Ok? <==> AllFinite(values)
    ensures values == [] ==> r == Ok("")
  {
    if values == [] then Ok("")
    else
      var mean := Div(NumberSum(values), Finite(|values| as real));
      NumberSumFinite(values);
      FormatPace(mean, "")
  }

  /** Finite paces as the Numbers the column holds. */
  function Lift(values: seq<real>): (ns: seq<Number>)
    ensures |ns| == |values|
    ensures forall i :: 0 <= i < |values| ==> ns[i] == Finite(values[i])
  {
    if values == [] then [] else Lift(values[..|values| - 1]) + [Finite(values[|values| - 1])]
  }

  /** Summing finite Numbers in the source's order is exact real addition. */
  lemma {:induction false} NumberSumLifted(values: seq<real>)
    ensures NumberSum(Lift(values)) == Finite(Sum(values))
  {
    if values != [] {
      var init := values[..|values| - 1];
      NumberSumLifted(init);
      assert Lift(values)[..|values| - 1] == Lift(init);
    }
  }

  /** Over finite paces, the bottom calc formats their arithmetic mean. */
  lemma PaceAverageIsMean(values: seq<real>)
    requires values != []
    ensures PaceAverage(Lift(values)) == FormatPace(Finite(Mean(values)), "")
  {
    NumberSumLifted(values);
  }

  /** The mean of values within [lo, hi] lies within [lo, hi]. */
  lemma MeanBounds(values: seq<real>, lo: real, hi: real)
    requires values != []
    requires forall i :: 0 <= i < |values| ==> lo <= values[i] <= hi
    ensures lo <= Mean(values) <= hi
  {
    SumBounds(values, lo, hi);
    var n := |values| as real;
    assert n * lo <= Sum(values) <= n * hi;
  }

  /** formatPace without a unit reads back as its argument in whole seconds. */
  lemma PaceReadsBack(x: real)
    requires 0.0 <= x < 36000.0
    ensures var r := FormatPace(Finite(x), "");
            && r.Ok?
            && (x <= 3600.0 ==>
                  |r.value| <= 5 && var w := PadZeros(r.value, 5);
                  AllDigits(w[..2]) && AllDigits(w[3..]) && ReadMinutesSeconds(w) == Trunc(x) % 3600)
            && (x > 3600.0 ==>
                  |r.value| <= 7 && var w := PadZeros(r.value, 7);
                  IsDigit(w[0]) && AllDigits(w[2..4]) && AllDigits(w[5..])
                  && ReadHoursMinutesSeconds(w) == Trunc(x))
  {
    FormatPaceReadsBack(x, "");
    var r := FormatPace(Finite(x), "");
    assert r.value[..|r.value| - |""|] == r.value;
  }

  /** For paces below ten hours the bottom calc reads back as the mean,
      truncated to whole seconds ("M:SS" up to an hour, "H:MM:SS" above). */
  lemma PaceAverageReadsBack(values: seq<real>, lo: real, hi: real)
    requires values != [] && 0.0 <= lo
    requires hi < 36000.0
    requires forall i :: 0 <= i < |values| ==> lo <= values[i] <= hi
    ensures lo <= Mean(values) <= hi
    ensures var r := PaceAverage(Lift(values));
            var m := Mean(values);
            && r.Ok?
            && (m <= 3600.0 ==>
                  |r.value| <= 5 && var w := PadZeros(r.value, 5);
                  AllDigits(w[..2]) && AllDigits(w[3..]) && ReadMinutesSeconds(w) == Trunc(m) % 3600)
            && (m > 3600.0 ==>
                  |r.value| <= 7 && var w := PadZeros(r.value, 7);
                  IsDigit(w[0]) && AllDigits(w[2..4]) && AllDigits(w[5..])
                  && ReadHoursMinutesSeconds(w) == Trunc(m))
  {
    MeanBounds(values, lo, hi);
    PaceAverageIsMean(values);
    PaceReadsBack(Mean(values));
  }

  /** The Direction column's bottom calc: the rows with a direction are
      counted as [CCW, CW]; an empty column gives []. */
  function DirectionTally(values: seq<Option<Direction>>): (r: seq<nat>)
    ensures r == [] <==> values == []
    ensures r != [] ==> |r| == 2 && r[0] == Count(values, CCW) && r[1] == Count(values, CW)
  {
    if values == [] then []
    else
      var counts := Tally(Present(values), 0, 0);
      TallyCounts(Present(values), 0, 0);
      PresentCounts(values, CCW);
      PresentCounts(values, CW);
      [counts.0, counts.1]
  }

  /** `values.filter(a => a)`: the rows that have a direction. */
  function Present(values: seq<Option<Direction>>): seq<Direction>
  {
    if values == [] then []
    else (if values[0].Some? then [values[0].value] else []) + Present(values[1..])
  }

  /** The reduce from [0, 0]: "CCW" adds to the first count, anything else to
      the second. */
  function Tally(ds: seq<Direction>, ccw: nat, cw: nat): (nat, nat)
  {
    if ds == [] then (ccw, cw)
    else if ds[0] == CCW then Tally(ds[1..], ccw + 1, cw)
    else Tally(ds[1..], ccw, cw + 1)
  }

  /** The number of rows showing direction d. */
  function Count(values: seq<Option<Direction>>, d: Direction): nat
  {
    if values == [] then 0 else Count(values[..|values| - 1], d) + (if values[|values| - 1] == Some(d) then 1 else 0)
  }

  function CountIn(ds: seq<Direction>, d: Direction): nat
  {
    if ds == [] then 0 else (if ds[0] == d then 1 else 0) + CountIn(ds[1..], d)
  }

  lemma {:induction false} TallyCounts(ds: seq<Direction>, ccw: nat, cw: nat)
    ensures Tally(ds, ccw, cw) == (ccw + CountIn(ds, CCW), cw + CountIn(ds, CW))
  {
    if ds != [] {
      TallyCounts(ds[1..], if ds[0] == CCW then ccw + 1 else ccw, if ds[0] == CCW then cw else cw + 1);
    }
  }

  lemma {:induction false} PresentCounts(values: seq<Option<Direction>>, d: Direction)
    ensures CountIn(Present(values), d) == Count(values, d)
  {
    if values != [] {
      PresentCounts(values[1..], d);
      CountInAppend((if values[0].Some? then [values[0].value] else []), Present(values[1..]), d);
      CountFront(values, d);
    }
  }

  lemma {:induction false} CountInAppend(a: seq<Direction>, b: seq<Direction>, d: Direction)
    ensures CountIn(a + b, d) == CountIn(a, d) + CountIn(b, d)
  {
    if a != [] {
      assert (a + b)[1..] == a[1..] + b;
      CountInAppend(a[1..], b, d);
    } else {
      assert a + b == b;
    }
  }

  lemma {:induction false} CountFront(values: seq<Option<Direction>>, d: Direction)
    requires values != []
    ensures Count(values, d) == (if values[0] == Some(d) then 1 else 0) + Count(values[1..], d)
  {
    if |values| > 1 {
      var init := values[..|values| - 1];
      CountFront(init, d);
      assert init[1..] == values[1..][..|values[1..]| - 1];
    } else {
      assert values[1..] == [];
      assert values[..0] == [];
    }
  }

  function Directions(laps: seq<LapRecord>): (ds: seq<Option<Direction>>)
    ensures |ds| == |laps| && forall i :: 0 <= i < |laps| ==> ds[i] == laps[i].direction
  {
    seq(|laps|, i requires 0 <= i < |laps| => laps[i].direction)
  }

  /** Over the whole table, every lap after the entrance lap is counted once:
      the two counts add up to the number of laps minus one. */
  lemma DirectionTallyOfLaps(lapTime: seq<real>, lapLength: seq<real>, lapClockwise: seq<bool>, lapTarget: int)
    requires lapTime != []
    ensures var r := DirectionTally(Directions(Laps(lapTime, lapLength, lapClockwise, lapTarget)));
            |r| == 2 && r[0] + r[1] == |lapTime| - 1
  {
    var laps := Laps(lapTime, lapLength, lapClockwise, lapTarget);
    var ds := Directions(laps);
    assert ds[0] == laps[0].direction == None;
    forall i | 1 <= i < |ds| ensures ds[i].Some? {
      assert ds[i] == laps[i].direction;
    }
    CountsCoverPresent(ds, |ds|);
    assert ds[..|ds|] == ds;
  }

  /** Rows with a direction are CCW or CW: together the counts are the number
      of rows with a direction, which is all rows past the first. */
  lemma {:induction false} CountsCoverPresent(ds: seq<Option<Direction>>, n: nat)
    requires n <= |ds| && n > 0 && ds[0] == None
    requires forall i :: 1 <= i < |ds| ==> ds[i].Some?
    ensures Count(ds[..n], CCW) + Count(ds[..n], CW) == n - 1
  {
    if n > 1 {
      assert ds[..n][..n - 1] == ds[..n - 1];
      assert ds[..n][n - 1] == ds[n - 1];
      assert ds[n - 1].Some?;
      if ds[n - 1].value == CCW {
        assert ds[n - 1] == Some(CCW);
      } else {
        assert ds[n - 1] == Some(CW);
      }
      CountsCoverPresent(ds, n - 1);
      assert Count(ds[..n], CCW) == Count(ds[..n - 1], CCW) + (if ds[n - 1] == Some(CCW) then 1 else 0);
      assert Count(ds[..n], CW) == Count(ds[..n - 1], CW) + (if ds[n - 1] == Some(CW) then 1 else 0);
    } else {
      assert ds[..1][..0] == [];
    }
  }

  // --- Group header ----------------------------------------------------------

  /** The header of a group of rows grouped by `extra`. */
  function GroupHeader(value: bool, count: nat): (r: string)
    ensures !value <==> r == ""
  {
    if value then "Extra Laps (" + Show(count) + ")" else ""
  }

  /** The extra group's header names its row count, and the number reads back. */
  lemma GroupHeaderReadsBack(count: nat)
    ensures var r := GroupHeader(true, count);
            && |r| >= 14 && r[..12] == "Extra Laps (" && r[|r| - 1] == ')'
            && AllDigits(r[12..|r| - 1]) && Parse(r[12..|r| - 1]) == count
  {
    var r := GroupHeader(true, count);
    var digits := Show(count);
    assert r == "Extra Laps (" + digits + ")";
    assert r[12..|r| - 1] == digits;
    ParseShow(count);
  }
}

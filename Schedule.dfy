/** The start-time cascade and the runners' first legs of
    `createScheduleTable` (js/common.js). Schedule rows are objects: the
    function places them in an array by their `leg` number and overwrites
    their `start_time` in place. Times are integer milliseconds since the
    epoch. */
module Schedule {
  import opened JsValues
  import opened Decimal
  import opened TimeFormat

  /** One row of the schedule. Only `startTime` is written by the code. */
  class ScheduleRow {
    const leg: int
    const runners: seq<string>
    const paceMi: real      // seconds per mile
    const distanceMi: real
    var startTime: int

    constructor (leg: int, runners: seq<string>, paceMi: real, distanceMi: real, startTime: int)
      ensures this.leg == leg && this.runners == runners
      ensures this.paceMi == paceMi && this.distanceMi == distanceMi && this.startTime == startTime
    {
      this.leg := leg;
      this.runners := runners;
      this.paceMi := paceMi;
      this.distanceMi := distanceMi;
      this.startTime := startTime;
    }
  }

  /** The fixed hand-off allowance between legs: four minutes. */
  const TransitionMs: real := 4.0 * 60.0 * 1000.0

  /** Milliseconds a leg is expected to take. */
  function Duration(row: ScheduleRow): real
  {
    row.paceMi * row.distanceMi * 1000.0
  }

  function Min(a: int, b: int): int { if a <= b then a else b }

  function Max(a: int, b: int): int { if a >= b then a else b }

  // --- The first loop: slots and first legs ------------------------------------

  /** The runners' table after one row: every runner of the row keeps the
      smaller of its recorded leg and this row's leg. */
  function Record(m: map<string, int>, runners: seq<string>, leg: int): map<string, int>
  {
    if runners == [] then m
    else
      var m' := Record(m, runners[..|runners| - 1], leg);
      var runner := runners[|runners| - 1];
      m'[runner := if runner in m' then Min(m'[runner], leg) else leg]
  }

  /** `firstLeg` after the first loop over the schedule. */
  function FirstLegs(schedule: seq<ScheduleRow>): map<string, int>
  {
    if schedule == [] then map[]
    else
      var row := schedule[|schedule| - 1];
      Record(FirstLegs(schedule[..|schedule| - 1]), row.runners, row.leg)
  }

  /** The array `legs` after the first loop, as slot index to row: a row with
      a negative leg number lands on a property that is no array index and is
      never read back, and a later row with the same number replaces an
      earlier one. */
  function Placement(schedule: seq<ScheduleRow>): (slots: map<int, ScheduleRow>)
    ensures forall k :: k in slots ==> slots[k].leg == k && 0 <= k < MaxSlot(schedule) && slots[k] in schedule
  {
    if schedule == [] then map[]
    else
      var slots := Placement(schedule[..|schedule| - 1]);
      var row := schedule[|schedule| - 1];
      if row.leg >= 0 then slots[row.leg := row] else slots
  }

  /** One more than the largest non-negative leg number (0 when there is none). */
  function MaxSlot(schedule: seq<ScheduleRow>): nat
  {
    if schedule == [] then 0
    else
      var row := schedule[|schedule| - 1];
      Max(MaxSlot(schedule[..|schedule| - 1]), if row.leg >= 0 then row.leg + 1 else 0)
  }

  /** `legs.length`: `new Array(schedule.length)`, grown by every assignment
      past its end. */
  function SlotCount(schedule: seq<ScheduleRow>): nat
  {
    Max(|schedule|, MaxSlot(schedule))
  }

  predicate FilledTo(slots: map<int, ScheduleRow>, n: int)
  {
    forall k :: 0 <= k < n ==> k in slots
  }

  // --- The second loop: start times ---------------------------------------------

  /** The start time the cascade gives slot i: the event start for slot 0,
      else the previous start plus slot i's own pace times distance plus the
      hand-off allowance, made a time value by `new Date` (truncation). */
  function StartTime(t0: int, slots: map<int, ScheduleRow>, i: nat): int
    requires FilledTo(slots, i + 1)
  {
    if i == 0 then t0
    else Trunc(StartTime(t0, slots, i - 1) as real + Duration(slots[i]) + TransitionMs)
  }

  /** The row the cascade has written once it has given a start time to the
      first n slots. */
  predicate Updated(slots: map<int, ScheduleRow>, n: int, row: ScheduleRow)
  {
    0 <= row.leg < n && row.leg in slots && slots[row.leg] == row
  }

  /** The first two loops of createScheduleTable. It fails with a TypeError at
      the first empty slot (or at slot 0 of an empty array), after the slots
      before it have been given their start times; `firstLeg` is complete
      either way. */
  method CreateScheduleTable(schedule: seq<ScheduleRow>, startTime: int)
    returns (firstLeg: map<string, int>, legs: map<int, ScheduleRow>, length: nat, updated: nat,
             outcome: Outcome<()>)
    modifies set row | row in schedule
    ensures firstLeg == FirstLegs(schedule)
    ensures legs == Placement(schedule) && length == SlotCount(schedule)
    ensures updated <= length && FilledTo(legs, updated) && (updated < length ==> updated !in legs)
    ensures outcome == if 0 < length && updated == length then Ok(()) else TypeError
    ensures forall k :: 0 <= k < updated ==> legs[k].startTime == StartTime(startTime, legs, k)
    ensures forall row :: row in schedule && !Updated(legs, updated, row) ==> row.startTime == old(row.startTime)
  {
    firstLeg, legs, length := PlaceRows(schedule);
    updated := Cascade(schedule, legs, length, startTime);
    outcome := if 0 < length && updated == length then Ok(()) else TypeError;
    forall row | row in schedule && !Updated(legs, updated, row) ensures row.startTime == old(row.startTime) {
      if row.leg in legs && legs[row.leg] == row {
        assert updated <= row.leg;
      } else {
        assert forall k :: k in legs ==> legs[k] != row;
      }
    }
  }

  /** The first loop: each row is placed in its slot and its runners are
      recorded. Nothing is written to the rows. */
  method PlaceRows(schedule: seq<ScheduleRow>) returns (firstLeg: map<string, int>, legs: map<int, ScheduleRow>, length: nat)
    ensures firstLeg == FirstLegs(schedule)
    ensures legs == Placement(schedule) && length == SlotCount(schedule)
  {
    firstLeg, legs, length := map[], map[], |schedule|;
    for i := 0 to |schedule|
      invariant firstLeg == FirstLegs(schedule[..i])
      invariant legs == Placement(schedule[..i])
      invariant length == Max(|schedule|, MaxSlot(schedule[..i]))
    {
      var row := schedule[i];
      assert schedule[..i + 1][..i] == schedule[..i];
      firstLeg := RecordRunners(firstLeg, row.runners, row.leg);
      if row.leg >= 0 {
        legs := legs[row.leg := row];
        length := Max(length, row.leg + 1);
      }
    }
    assert schedule[..|schedule|] == schedule;
  }

  /** The inner loop over one row's runners. */
  method RecordRunners(firstLeg: map<string, int>, runners: seq<string>, leg: int) returns (m: map<string, int>)
    ensures m == Record(firstLeg, runners, leg)
  {
    m := firstLeg;
    for j := 0 to |runners|
      invariant m == Record(firstLeg, runners[..j], leg)
    {
      assert runners[..j + 1][..j] == runners[..j];
      var runner := runners[j];
      m := m[runner := if runner in m then Min(m[runner], leg) else leg];
    }
    assert runners[..|runners|] == runners;
  }

  /** The second loop, with the assignment to slot 0 before it: it stops at
      the first empty slot, and returns how many slots it gave a start time. */
  method Cascade(schedule: seq<ScheduleRow>, legs: map<int, ScheduleRow>, length: nat, startTime: int)
    returns (updated: nat)
    requires forall k :: k in legs ==> legs[k].leg == k && 0 <= k < length && legs[k] in schedule
    modifies set k | k in legs :: legs[k]
    ensures updated <= length && FilledTo(legs, updated) && (updated < length ==> updated !in legs)
    ensures 0 < length && 0 in legs ==> 0 < updated
    ensures forall k :: 0 <= k < updated ==> legs[k].startTime == StartTime(startTime, legs, k)
    ensures forall k :: k in legs && updated <= k ==> legs[k].startTime == old(legs[k].startTime)
  {
    if 0 !in legs {
      return 0;
    }
    ghost var original := map k | k in legs :: legs[k].startTime;
    legs[0].startTime := startTime;
    var i := 1;
    while i < length
      invariant 1 <= i <= length
      invariant FilledTo(legs, i)
      invariant forall k :: 0 <= k < i ==> legs[k].startTime == StartTime(startTime, legs, k)
      invariant forall k :: k in legs && i <= k ==> legs[k].startTime == original[k]
    {
      if i !in legs {
        return i;
      }
      CascadeStep(legs, i, startTime, original);
      i := i + 1;
    }
    return length;
  }

  /** One step of the cascade: slot i starts after slot i - 1 plus its own
      running time and the hand-off allowance; no other slot changes. */
  method CascadeStep(legs: map<int, ScheduleRow>, i: nat, startTime: int, ghost original: map<int, int>)
    requires forall k :: k in legs ==> legs[k].leg == k
    requires 1 <= i && i in legs && FilledTo(legs, i)
    requires forall k :: 0 <= k < i ==> legs[k].startTime == StartTime(startTime, legs, k)
    requires forall k :: k in legs && i <= k ==> k in original && legs[k].startTime == original[k]
    modifies legs[i]
    ensures FilledTo(legs, i + 1)
    ensures forall k :: 0 <= k < i + 1 ==> legs[k].startTime == StartTime(startTime, legs, k)
    ensures forall k :: k in legs && i + 1 <= k ==> legs[k].startTime == original[k]
  {
    var previous, row := legs[i - 1], legs[i];
    FilledStep(legs, i);
    row.startTime := Trunc(previous.startTime as real + Duration(row) + TransitionMs);
    forall k | 0 <= k < i ensures legs[k].startTime == StartTime(startTime, legs, k) {
      assert legs[k].leg != row.leg;
    }
    forall k | k in legs && i + 1 <= k ensures legs[k].startTime == original[k] {
      assert legs[k].leg != row.leg;
    }
  }

  lemma FilledStep(slots: map<int, ScheduleRow>, n: int)
    requires FilledTo(slots, n) && n in slots
    ensures FilledTo(slots, n + 1)
  {
  }

  // --- What the first loop records ----------------------------------------------

  lemma {:induction false} RecordAt(m: map<string, int>, runners: seq<string>, leg: int, x: string)
    ensures x in Record(m, runners, leg) <==> x in m || x in runners
    ensures x in Record(m, runners, leg) ==>
              Record(m, runners, leg)[x]
              == if x !in runners then m[x] else if x in m then Min(m[x], leg) else leg
  {
    if runners != [] {
      var init := runners[..|runners| - 1];
      assert runners == init + [runners[|runners| - 1]];
      RecordAt(m, init, leg, x);
    }
  }

  /** `firstLeg[runner]` is defined exactly for the runners of some row, and
      is then the smallest leg number among the rows that list the runner. */
  lemma {:induction false} FirstLegIsMinimum(schedule: seq<ScheduleRow>, runner: string)
    ensures runner in FirstLegs(schedule) <==> exists j :: 0 <= j < |schedule| && runner in schedule[j].runners
    ensures runner in FirstLegs(schedule) ==>
              && (forall j :: 0 <= j < |schedule| && runner in schedule[j].runners ==>
                    FirstLegs(schedule)[runner] <= schedule[j].leg)
              && exists j :: 0 <= j < |schedule| && runner in schedule[j].runners
                             && schedule[j].leg == FirstLegs(schedule)[runner]
  {
    if schedule != [] {
      var init, row := schedule[..|schedule| - 1], schedule[|schedule| - 1];
      assert schedule == init + [row];
      FirstLegIsMinimum(init, runner);
      RecordAt(FirstLegs(init), row.runners, row.leg, runner);
      var n := |schedule| - 1;
      if runner in FirstLegs(schedule) && runner in row.runners && runner in FirstLegs(init) {
        if FirstLegs(init)[runner] <= row.leg {
          var j :| 0 <= j < |init| && runner in init[j].runners && init[j].leg == FirstLegs(init)[runner];
          assert schedule[j] == init[j];
        } else {
          assert schedule[n] == row;
        }
      }
      if runner in FirstLegs(schedule) && runner !in row.runners {
        var j :| 0 <= j < |init| && runner in init[j].runners && init[j].leg == FirstLegs(init)[runner];
        assert schedule[j] == init[j];
      }
    }
  }

  /** Slot k holds the last row whose leg number is k. */
  lemma {:induction false} PlacementIsLastRow(schedule: seq<ScheduleRow>, k: int)
    ensures k in Placement(schedule) <==> 0 <= k && exists j :: 0 <= j < |schedule| && schedule[j].leg == k
    ensures k in Placement(schedule) ==>
              exists j :: 0 <= j < |schedule| && schedule[j] == Placement(schedule)[k]
                          && forall j' :: j < j' < |schedule| ==> schedule[j'].leg != k
  {
    if schedule != [] {
      var init, row := schedule[..|schedule| - 1], schedule[|schedule| - 1];
      assert schedule == init + [row];
      PlacementIsLastRow(init, k);
      if row.leg == k && k >= 0 {
        assert schedule[|schedule| - 1] == Placement(schedule)[k];
      } else if k in Placement(schedule) {
        var j :| 0 <= j < |init| && init[j] == Placement(init)[k]
                 && forall j' :: j < j' < |init| ==> init[j'].leg != k;
        assert schedule[j] == init[j];
      }
      if 0 <= k && exists j :: 0 <= j < |schedule| && schedule[j].leg == k {
        var j :| 0 <= j < |schedule| && schedule[j].leg == k;
        if j < |init| {
          assert init[j].leg == k;
        }
      }
    }
  }

  // --- What the cascade computes ----------------------------------------------------

  /** Slot 0's pace and distance never enter a start time: only the event
      start and the later slots' own durations do. */
  lemma {:induction false} StartTimeIgnoresFirstRow(t0: int, a: map<int, ScheduleRow>, b: map<int, ScheduleRow>, i: nat)
    requires FilledTo(a, i + 1) && FilledTo(b, i + 1)
    requires forall k :: 1 <= k <= i ==> Duration(a[k]) == Duration(b[k])
    ensures StartTime(t0, a, i) == StartTime(t0, b, i)
  {
    if i > 0 {
      StartTimeIgnoresFirstRow(t0, a, b, i - 1);
    }
  }

  /** The durations of slots 1..i. */
  function DurationSum(slots: map<int, ScheduleRow>, i: nat): real
    requires FilledTo(slots, i + 1)
  {
    if i == 0 then 0.0 else DurationSum(slots, i - 1) + Duration(slots[i])
  }

  predicate IsWhole(x: real) { x.Floor as real == x }

  lemma TruncWhole(x: real)
    requires IsWhole(x)
    ensures Trunc(x) as real == x
  {
    var n := x.Floor;
    if x < 0.0 {
      assert -x == (-n) as real;
      FloorOfWhole(-n);
    }
  }

  lemma FloorOfWhole(n: int)
    ensures (n as real).Floor == n
  {
  }

  /** With whole-millisecond durations no truncation happens, and slot i
      starts at the event start plus the durations of slots 1..i plus i
      hand-off allowances. */
  lemma {:induction false} StartTimeClosedForm(t0: int, slots: map<int, ScheduleRow>, i: nat)
    requires FilledTo(slots, i + 1)
    requires forall k :: 1 <= k <= i ==> IsWhole(Duration(slots[k]))
    ensures StartTime(t0, slots, i) as real == t0 as real + DurationSum(slots, i) + i as real * TransitionMs
  {
    if i > 0 {
      StartTimeClosedForm(t0, slots, i - 1);
      var previous := StartTime(t0, slots, i - 1);
      var d := Duration(slots[i]);
      var w := d.Floor;
      assert d == w as real;
      assert previous as real + d + TransitionMs == (previous + w + 240000) as real;
      TruncWhole(previous as real + d + TransitionMs);
    }
  }

  /** With a non-negative event start and non-negative durations, every slot
      starts at least four minutes after the one before. */
  lemma {:induction false} StartTimesAdvance(t0: int, slots: map<int, ScheduleRow>, i: nat)
    requires FilledTo(slots, i + 1) && t0 >= 0
    requires forall k :: 1 <= k <= i ==> Duration(slots[k]) >= 0.0
    ensures StartTime(t0, slots, i) >= t0 + 240000 * i
    ensures i > 0 ==> StartTime(t0, slots, i) >= StartTime(t0, slots, i - 1) + 240000
  {
    if i > 0 {
      StartTimesAdvance(t0, slots, i - 1);
      var previous := StartTime(t0, slots, i - 1);
      var x := previous as real + Duration(slots[i]) + TransitionMs;
      assert (previous + 240000) as real <= x;
      assert StartTime(t0, slots, i) == Trunc(x);
    }
  }

  /** Two rows 0 and 1, leg 1 at 8 s/mi over one mile: leg 1 starts 8 s plus
      the four-minute allowance after the event start, whatever row 0 says. */
  lemma ExampleSecondStart(t0: int, first: ScheduleRow, second: ScheduleRow)
    requires second.paceMi == 8.0 && second.distanceMi == 1.0
    ensures StartTime(t0, map[0 := first, 1 := second], 1) == t0 + 248000
  {
    var slots := map[0 := first, 1 := second];
    assert Duration(slots[1]) == 8000.0;
    assert t0 as real + 8000.0 + TransitionMs == (t0 + 248000) as real;
  }

  // --- The finish time ------------------------------------------------------------

  /** `date.toTimeString().split(" ")[0].substring(0, 5)`: "HH:MM" of the
      local time, `localOffset` milliseconds from UTC. */
  function HoursMinutes(t: int, localOffset: int): (s: string)
    ensures |s| == 5
  {
    ClockString(t + localOffset)[..5]
  }

  /** The instant a row's leg is expected to end. */
  function FinishInstant(row: ScheduleRow): int
    reads row
  {
    Trunc(row.startTime as real + Duration(row) + TransitionMs)
  }

  /** `finishTimeCalc`: nothing for an empty table, otherwise the end of the
      table's last row in table order (not the highest leg number). */
  function FinishTime(rows: seq<ScheduleRow>, localOffset: int): (r: Option<string>)
    reads rows
    ensures r.None? <==> rows == []
    ensures r.Some? ==>
              var c := ClockOf(FinishInstant(rows[|rows| - 1]) + localOffset);
              && |r.value| == 5 && AllDigits(r.value[..2]) && r.value[2] == ':' && AllDigits(r.value[3..])
              && Parse(r.value[..2]) == c.hours && Parse(r.value[3..]) == c.minutes
  {
    if rows == [] then None
    else
      var t := FinishInstant(rows[|rows| - 1]);
      HoursMinutesReadsBack(t, localOffset);
      Some(HoursMinutes(t, localOffset))
  }

  lemma HoursMinutesReadsBack(t: int, localOffset: int)
    ensures var s := HoursMinutes(t, localOffset);
            var c := ClockOf(t + localOffset);
            && AllDigits(s[..2]) && s[2] == ':' && AllDigits(s[3..])
            && Parse(s[..2]) == c.hours && Parse(s[3..]) == c.minutes
  {
    var c := ClockOf(t + localOffset);
    var hh, mm := Padded(c.hours, 2), Padded(c.minutes, 2);
    var full := ClockString(t + localOffset);
    assert full == hh + ":" + mm + ":" + Padded(c.seconds, 2) + "." + Padded(c.millis, 3);
    var s := HoursMinutes(t, localOffset);
    assert s == hh + ":" + mm;
    assert s[..2] == hh && s[3..] == mm;
    assert Pow10(2) == 100;
    ParsePaddedSmall(c.hours, 2);
    ParsePaddedSmall(c.minutes, 2);
  }

  /** After a successful cascade with whole-millisecond durations, the finish
      shown for a table whose last row is slot n-1 is the event start, plus
      the durations of slots 1..n-1, plus the last slot's duration a second
      time, plus n allowances. Row 0's duration never counts: each start adds
      its own row's duration, and the finish adds the last row's again. */
  lemma FinishAfterCascade(t0: int, slots: map<int, ScheduleRow>, n: nat)
    requires n > 0 && FilledTo(slots, n)
    requires slots[n - 1].startTime == StartTime(t0, slots, n - 1)
    requires forall k :: 1 <= k < n ==> IsWhole(Duration(slots[k]))
    requires IsWhole(Duration(slots[n - 1]))
    ensures FinishInstant(slots[n - 1]) as real
            == t0 as real + DurationSum(slots, n - 1) + Duration(slots[n - 1]) + n as real * TransitionMs
  {
    StartTimeClosedForm(t0, slots, n - 1);
    var last := slots[n - 1];
    var x := last.startTime as real + Duration(last) + TransitionMs;
    var w := Duration(last).Floor;
    assert x == (last.startTime + w + 240000) as real;
    TruncWhole(x);
  }
}

/** The schedule validator of _bin/check-schedules.py over already-loaded
    YAML data: every plan phase must name a known route by a string
    `route_id`. Warnings are printed as they are found and a global flag
    records that one was printed; a Python exception ends the run with the
    warnings printed so far. */
module CheckSchedules {

  /** A value as `yaml.safe_load` builds it. A Mapping stands for a dict and
      lists its (distinct) keys in insertion order. */
  datatype Value =
    | Str(s: string)
    | Num(n: real)
    | Flag(b: bool)
    | Null
    | List(items: seq<Value>)
    | Mapping(entries: seq<(Value, Value)>)

  datatype PyError = TypeError | KeyError

  datatype Result<T> = Ok(value: T) | Err(error: PyError)

  /** How a check ended: normally, or by an uncaught exception. */
  datatype Status = Completed | Raised(error: PyError)

  /** The lines printed and how the run ended. */
  datatype Report = Report(lines: seq<string>, status: Status)

  // --- The Python operations the validator uses ----------------------------

  function Keys(entries: seq<(Value, Value)>): (ks: seq<Value>)
    ensures |ks| == |entries| && forall i :: 0 <= i < |entries| ==> ks[i] == entries[i].0
  {
    seq(|entries|, i requires 0 <= i < |entries| => entries[i].0)
  }

  function Chars(s: string): (cs: seq<Value>)
    ensures |cs| == |s| && forall i :: 0 <= i < |s| ==> cs[i] == Str([s[i]])
  {
    seq(|s|, i requires 0 <= i < |s| => Str([s[i]]))
  }

  /** `for x in v`: a list yields its items, a dict its keys and a string
      its characters; anything else is not iterable. */
  function Iterate(v: Value): (r: Result<seq<Value>>)
    ensures r.Err? <==> !(v.List? || v.Mapping? || v.Str?)
    ensures v.List? ==> r == Ok(v.items)
  {
    match v
    case List(items) => Ok(items)
    case Mapping(entries) => Ok(Keys(entries))
    case Str(s) => Ok(Chars(s))
    case _ => Err(TypeError)
  }

  predicate HasKey(entries: seq<(Value, Value)>, key: string)
  {
    exists i :: 0 <= i < |entries| && entries[i].0 == Str(key)
  }

  /** Substring test: `key in s`. */
  predicate IsSubstring(key: string, s: string)
  {
    |key| <= |s| && (s[..|key|] == key || IsSubstring(key, s[1..]))
  }

  /** `key in v` for a string key: dict keys, list items and substrings; any
      other value raises TypeError. */
  function Contains(v: Value, key: string): (r: Result<bool>)
    ensures v.Mapping? ==> r == Ok(HasKey(v.entries, key))
    ensures r.Err? <==> !(v.List? || v.Mapping? || v.Str?)
  {
    match v
    case Mapping(entries) => Ok(HasKey(entries, key))
    case List(items) => Ok(Str(key) in items)
    case Str(s) => Ok(IsSubstring(key, s))
    case _ => Err(TypeError)
  }

  /** The value under a key of a dict. */
  function Lookup(entries: seq<(Value, Value)>, key: string): (r: Result<Value>)
    ensures r.Ok? <==> HasKey(entries, key)
    ensures r.Err? ==> r.error == KeyError
    ensures r.Ok? ==> exists i :: 0 <= i < |entries| && entries[i] == (Str(key), r.value)
  {
    if entries == [] then Err(KeyError)
    else if entries[0].0 == Str(key) then Ok(entries[0].1)
    else
      var r := Lookup(entries[1..], key);
      assert HasKey(entries, key) ==> HasKey(entries[1..], key) by {
        if HasKey(entries, key) {
          var i :| 0 <= i < |entries| && entries[i].0 == Str(key);
          assert entries[1..][i - 1] == entries[i];
        }
      }
      if r.Ok? then
        var i :| 0 <= i < |entries[1..]| && entries[1..][i] == (Str(key), r.value);
        assert entries[i + 1] == (Str(key), r.value);
        r
      else
        r
  }

  /** `v[key]` for a string key: a dict lookup (KeyError when missing); lists,
      strings and scalars raise TypeError. */
  function GetItem(v: Value, key: string): (r: Result<Value>)
    ensures r.Ok? <==> v.Mapping? && HasKey(v.entries, key)
    ensures r.Err? && v.Mapping? ==> r.error == KeyError
    ensures !v.Mapping? ==> r == Err(TypeError)
  {
    if v.Mapping? then Lookup(v.entries, key) else Err(TypeError)
  }

  /** Whether Python can put the value in a set. */
  predicate Hashable(v: Value)
  {
    !(v.List? || v.Mapping?)
  }

  // --- Messages -------------------------------------------------------------

  const MissingPlan: string := "missing plan"
  const RouteIdNotString: string := "route_id must be a string"

  function UnknownRouteId(id: string): string
  {
    "unknown route_id '" + id + "'"
  }

  /** `warn`'s line. */
  function WarningLine(msg: string): string
  {
    "WARNING! " + msg
  }

  /** `warn_sc`'s message. */
  function ScheduleMessage(path: string, msg: string): string
  {
    "schedule " + path + ": " + msg
  }

  function Line(path: string, msg: string): string
  {
    WarningLine(ScheduleMessage(path, msg))
  }

  // --- The rules as a specification -----------------------------------------

  /** One phase of a plan. */
  function PhaseReport(path: string, phase: Value, routeIds: set<Value>): Report
  {
    match Contains(phase, "route_id")
    case Err(e) => Report([], Raised(e))
    case Ok(false) => Report([], Completed)
    case Ok(true) =>
      match GetItem(phase, "route_id")
      case Err(e) => Report([], Raised(e))
      case Ok(id) =>
        if !id.Str? then Report([Line(path, RouteIdNotString)], Completed)
        else if id in routeIds then Report([], Completed)
        else Report([Line(path, UnknownRouteId(id.s))], Completed)
  }

  /** One entry of a schedule. */
  function EntryReport(path: string, entry: Value, routeIds: set<Value>): Report
  {
    match Contains(entry, "plan")
    case Err(e) => Report([], Raised(e))
    case Ok(false) => Report([Line(path, MissingPlan)], Completed)
    case Ok(true) =>
      match GetItem(entry, "plan")
      case Err(e) => Report([], Raised(e))
      case Ok(plan) =>
        match Iterate(plan)
        case Err(e) => Report([], Raised(e))
        case Ok(phases) => Sequence(phases, p => PhaseReport(path, p, routeIds))
  }

  /** Running `step` on each item in turn; an exception stops the run. */
  function Sequence<T>(items: seq<T>, step: T -> Report): Report
  {
    if items == [] then Report([], Completed)
    else
      var r := Sequence(items[..|items| - 1], step);
      if r.status.Raised? then r
      else
        var last := step(items[|items| - 1]);
        Report(r.lines + last.lines, last.status)
  }

  /** `check_schedule` on a loaded schedule. */
  function ScheduleReport(path: string, sched: Value, routeIds: set<Value>): Report
  {
    match Iterate(sched)
    case Err(e) => Report([], Raised(e))
    case Ok(entries) => Sequence(entries, e => EntryReport(path, e, routeIds))
  }

  /** `[route['id'] for route in routes]`: the first failing lookup raises. */
  function IdList(routes: seq<Value>): (r: Result<seq<Value>>)
    ensures r.Ok? <==> forall i :: 0 <= i < |routes| ==> GetItem(routes[i], "id").Ok?
    ensures r.Ok? ==> |r.value| == |routes| && forall i :: 0 <= i < |routes| ==> GetItem(routes[i], "id") == Ok(r.value[i])
    ensures r.Err? ==> exists i :: 0 <= i < |routes| && GetItem(routes[i], "id") == Err(r.error)
  {
    if routes == [] then Ok([])
    else
      match GetItem(routes[0], "id")
      case Err(e) => Err(e)
      case Ok(id) =>
        match IdList(routes[1..])
        case Err(e) =>
          var i :| 0 <= i < |routes[1..]| && GetItem(routes[1..][i], "id") == Err(e);
          assert routes[1..][i] == routes[i + 1];
          Err(e)
        case Ok(ids) =>
          assert forall i :: 1 <= i < |routes| ==> routes[i] == routes[1..][i - 1];
          Ok([id] + ids)
  }

  /** `set(...)` of those ids; an unhashable id raises TypeError. */
  function RouteIds(routes: seq<Value>): (r: Result<set<Value>>)
    ensures r.Ok? <==> forall i :: 0 <= i < |routes| ==>
                         routes[i].Mapping? && HasKey(routes[i].entries, "id") && Hashable(GetItem(routes[i], "id").value)
    ensures r.Ok? ==> forall v :: v in r.value <==> exists i :: 0 <= i < |routes| && GetItem(routes[i], "id") == Ok(v)
    ensures r == Err(KeyError) ==> exists i :: 0 <= i < |routes| && routes[i].Mapping? && !HasKey(routes[i].entries, "id")
  {
    match IdList(routes)
    case Err(e) => Err(e)
    case Ok(ids) =>
      if exists i :: 0 <= i < |ids| && !Hashable(ids[i]) then Err(TypeError)
      else Ok(set i | 0 <= i < |ids| :: ids[i])
  }

  /** `main`: build the route ids, then check each schedule in turn. */
  function RunReport(routes: seq<Value>, schedules: seq<(string, Value)>): Report
  {
    match RouteIds(routes)
    case Err(e) => Report([], Raised(e))
    case Ok(ids) => Sequence(schedules, (s: (string, Value)) => ScheduleReport(s.0, s.1, ids))
  }

  // --- The validator as the program runs it ----------------------------------

  class Checker {
    /** The global `warnings` flag. */
    var warnings: bool
    /** Everything printed so far. */
    var output: seq<string>

    /** The flag is set exactly when something has been printed. */
    predicate Consistent()
      reads this
    {
      warnings <==> output != []
    }

    constructor()
      ensures !warnings && output == []
      ensures Consistent()
    {
      warnings := false;
      output := [];
    }

    method Warn(msg: string)
      modifies this
      ensures warnings
      ensures output == old(output) + [WarningLine(msg)]
    {
      warnings := true;
      output := output + [WarningLine(msg)];
    }

    method WarnSchedule(path: string, msg: string)
      modifies this
      ensures warnings
      ensures output == old(output) + [Line(path, msg)]
    {
      Warn(ScheduleMessage(path, msg));
    }

    /** The inner loop over the phases of one plan. */
    method CheckPhases(path: string, phases: seq<Value>, routeIds: set<Value>) returns (status: Status)
      modifies this
      requires Consistent()
      ensures Consistent()
      ensures var r := Sequence(phases, p => PhaseReport(path, p, routeIds));
              output == old(output) + r.lines && status == r.status
    {
      var step := p => PhaseReport(path, p, routeIds);
      for i := 0 to |phases|
        invariant Consistent()
        invariant Sequence(phases[..i], step).status == Completed
        invariant output == old(output) + Sequence(phases[..i], step).lines
      {
        var phase := phases[i];
        assert phases[..i + 1][..i] == phases[..i];
        var has := Contains(phase, "route_id");
        if has.Err? {
          StopsAt(phases, step, i + 1);
          return Raised(has.error);
        }
        if has.value {
          var id := GetItem(phase, "route_id");
          if id.Err? {
            StopsAt(phases, step, i + 1);
            return Raised(id.error);
          }
          if !id.value.Str? {
            WarnSchedule(path, RouteIdNotString);
            continue;
          }
          if id.value !in routeIds {
            WarnSchedule(path, UnknownRouteId(id.value.s));
          }
        }
      }
      assert phases[..|phases|] == phases;
      return Completed;
    }

    /** One pass of `check_schedule`'s outer loop. */
    method CheckEntry(path: string, entry: Value, routeIds: set<Value>) returns (status: Status)
      modifies this
      requires Consistent()
      ensures Consistent()
      ensures var r := EntryReport(path, entry, routeIds);
              output == old(output) + r.lines && status == r.status
    {
      var hasPlan := Contains(entry, "plan");
      if hasPlan.Err? {
        return Raised(hasPlan.error);
      }
      if !hasPlan.value {
        WarnSchedule(path, MissingPlan);
        return Completed;
      }
      var plan := GetItem(entry, "plan");
      if plan.Err? {
        return Raised(plan.error);
      }
      var phases := Iterate(plan.value);
      if phases.Err? {
        return Raised(phases.error);
      }
      status := CheckPhases(path, phases.value, routeIds);
    }

    /** `check_schedule`, once the file is loaded. */
    method CheckSchedule(path: string, sched: Value, routeIds: set<Value>) returns (status: Status)
      modifies this
      requires Consistent()
      ensures Consistent()
      ensures var r := ScheduleReport(path, sched, routeIds);
              output == old(output) + r.lines && status == r.status
    {
      var entries := Iterate(sched);
      if entries.Err? {
        return Raised(entries.error);
      }
      status := CheckEntries(path, entries.value, routeIds);
    }

    /** `check_schedule`'s outer loop. */
    method CheckEntries(path: string, entries: seq<Value>, routeIds: set<Value>) returns (status: Status)
      modifies this
      requires Consistent()
      ensures Consistent()
      ensures var r := Sequence(entries, e => EntryReport(path, e, routeIds));
              output == old(output) + r.lines && status == r.status
    {
      var step := e => EntryReport(path, e, routeIds);
      for i := 0 to |entries|
        invariant Consistent()
        invariant Sequence(entries[..i], step).status == Completed
        invariant output == old(output) + Sequence(entries[..i], step).lines
      {
        SequenceStep(entries, step, i);
        ghost var entry := EntryReport(path, entries[i], routeIds);
        ghost var done := Sequence(entries[..i], step);
        assert Sequence(entries[..i + 1], step) == Report(done.lines + entry.lines, entry.status);
        var s := CheckEntry(path, entries[i], routeIds);
        AppendAssociates(old(output), done.lines, entry.lines);
        if s.Raised? {
          StopsAt(entries, step, i + 1);
          return s;
        }
      }
      assert entries[..|entries|] == entries;
      return Completed;
    }

    /** `main`, with the route database and the schedules already loaded. */
    method Run(routes: seq<Value>, schedules: seq<(string, Value)>) returns (status: Status)
      modifies this
      requires Consistent()
      ensures Consistent()
      ensures var r := RunReport(routes, schedules);
              output == old(output) + r.lines && status == r.status
    {
      var routeIds := RouteIds(routes);
      if routeIds.Err? {
        return Raised(routeIds.error);
      }
      status := CheckAll(schedules, routeIds.value);
    }

    /** `main`'s loop over the schedule files. */
    method CheckAll(schedules: seq<(string, Value)>, routeIds: set<Value>) returns (status: Status)
      modifies this
      requires Consistent()
      ensures Consistent()
      ensures var r := Sequence(schedules, (s: (string, Value)) => ScheduleReport(s.0, s.1, routeIds));
              output == old(output) + r.lines && status == r.status
    {
      var step := (s: (string, Value)) => ScheduleReport(s.0, s.1, routeIds);
      for i := 0 to |schedules|
        invariant Consistent()
        invariant Sequence(schedules[..i], step).status == Completed
        invariant output == old(output) + Sequence(schedules[..i], step).lines
      {
        SequenceStep(schedules, step, i);
        ghost var schedule := ScheduleReport(schedules[i].0, schedules[i].1, routeIds);
        ghost var done := Sequence(schedules[..i], step);
        assert Sequence(schedules[..i + 1], step) == Report(done.lines + schedule.lines, schedule.status);
        var s := CheckSchedule(schedules[i].0, schedules[i].1, routeIds);
        AppendAssociates(old(output), done.lines, schedule.lines);
        if s.Raised? {
          StopsAt(schedules, step, i + 1);
          return s;
        }
      }
      assert schedules[..|schedules|] == schedules;
      return Completed;
    }
  }

  // --- Properties ----------------------------------------------------------

  lemma AppendAssociates(a: seq<string>, b: seq<string>, c: seq<string>)
    ensures a + b + c == a + (b + c)
  {
  }

  /** One more step of a run that has not raised. */
  lemma SequenceStep<T>(items: seq<T>, step: T -> Report, i: nat)
    requires i < |items|
    requires Sequence(items[..i], step).status == Completed
    ensures Sequence(items[..i + 1], step)
            == Report(Sequence(items[..i], step).lines + step(items[i]).lines, step(items[i]).status)
  {
    assert items[..i + 1][..i] == items[..i];
  }

  /** Once an exception is raised, nothing after it runs. */
  lemma {:induction false} StopsAt<T>(items: seq<T>, step: T -> Report, k: nat)
    requires k <= |items|
    requires Sequence(items[..k], step).status.Raised?
    ensures Sequence(items, step) == Sequence(items[..k], step)
  {
    if k < |items| {
      var init := items[..|items| - 1];
      assert init[..k] == items[..k];
      StopsAt(init, step, k);
    } else {
      assert items[..k] == items;
    }
  }

  /** Without an exception, the lines of a run are the lines of each step in
      order. */
  lemma {:induction false} SequenceAppend<T>(a: seq<T>, b: seq<T>, step: T -> Report)
    requires Sequence(a, step).status == Completed
    ensures Sequence(a + b, step).lines == Sequence(a, step).lines + Sequence(b, step).lines
    ensures Sequence(a + b, step).status == Sequence(b, step).status
  {
    if b == [] {
      assert a + b == a;
    } else {
      var bInit := b[..|b| - 1];
      assert (a + b)[..|a + b| - 1] == a + bInit;
      SequenceAppend(a, bInit, step);
    }
  }

  /** An entry that is a dict without a 'plan' key gives exactly one "missing
      plan" warning, whatever else the entry holds. */
  lemma EntryWithoutPlan(path: string, entries: seq<(Value, Value)>, routeIds: set<Value>)
    requires !HasKey(entries, "plan")
    ensures EntryReport(path, Mapping(entries), routeIds) == Report([Line(path, MissingPlan)], Completed)
  {
  }

  /** A phase that is a dict without 'route_id' gives no warning. */
  lemma PhaseWithoutRouteId(path: string, entries: seq<(Value, Value)>, routeIds: set<Value>)
    requires !HasKey(entries, "route_id")
    ensures PhaseReport(path, Mapping(entries), routeIds) == Report([], Completed)
  {
  }

  /** A dict phase with a 'route_id' gives exactly one warning when the id is
      not a string, or is a string that is not a known route id; a known
      string id gives none. */
  lemma PhaseRouteId(path: string, entries: seq<(Value, Value)>, routeIds: set<Value>)
    requires HasKey(entries, "route_id")
    ensures var id := Lookup(entries, "route_id").value;
            var r := PhaseReport(path, Mapping(entries), routeIds);
            && r.status == Completed
            && (!id.Str? ==> r.lines == [Line(path, RouteIdNotString)])
            && (id.Str? ==> (r.lines == [] <==> id in routeIds))
            && (id.Str? && id !in routeIds ==> r.lines == [Line(path, UnknownRouteId(id.s))])
  {
  }

  /** Every line a schedule check prints is "WARNING! schedule <path>: "
      followed by one of the three messages. */
  ghost predicate IsWarning(path: string, line: string)
  {
    line == Line(path, MissingPlan) || line == Line(path, RouteIdNotString)
    || exists id :: line == Line(path, UnknownRouteId(id))
  }

  ghost predicate AllWarnings(path: string, lines: seq<string>)
  {
    forall j :: 0 <= j < |lines| ==> IsWarning(path, lines[j])
  }

  lemma {:induction false} SequenceWarnings<T>(path: string, items: seq<T>, step: T -> Report)
    requires forall i :: 0 <= i < |items| ==> AllWarnings(path, step(items[i]).lines)
    ensures AllWarnings(path, Sequence(items, step).lines)
  {
    if items != [] {
      var init := items[..|items| - 1];
      forall i | 0 <= i < |init| ensures AllWarnings(path, step(init[i]).lines) {
        assert init[i] == items[i];
      }
      SequenceWarnings(path, init, step);
      var r := Sequence(init, step);
      if r.status == Completed {
        var lines := r.lines + step(items[|items| - 1]).lines;
        assert AllWarnings(path, step(items[|items| - 1]).lines);
        forall j | 0 <= j < |lines| ensures IsWarning(path, lines[j]) {
          if j >= |r.lines| {
            assert lines[j] == step(items[|items| - 1]).lines[j - |r.lines|];
          }
        }
      }
    }
  }

  lemma PhaseWarnings(path: string, phase: Value, routeIds: set<Value>)
    ensures AllWarnings(path, PhaseReport(path, phase, routeIds).lines)
  {
    var r := PhaseReport(path, phase, routeIds);
    if r.lines != [] {
      var id := GetItem(phase, "route_id").value;
      if id.Str? {
        assert IsWarning(path, Line(path, UnknownRouteId(id.s)));
      }
    }
  }

  lemma EntryWarnings(path: string, entry: Value, routeIds: set<Value>)
    ensures AllWarnings(path, EntryReport(path, entry, routeIds).lines)
  {
    var step := p => PhaseReport(path, p, routeIds);
    if Contains(entry, "plan") == Ok(true) && GetItem(entry, "plan").Ok? && Iterate(GetItem(entry, "plan").value).Ok? {
      var phases := Iterate(GetItem(entry, "plan").value).value;
      forall i | 0 <= i < |phases| ensures AllWarnings(path, step(phases[i]).lines) {
        PhaseWarnings(path, phases[i], routeIds);
      }
      SequenceWarnings(path, phases, step);
    }
  }

  lemma ScheduleWarnings(path: string, sched: Value, routeIds: set<Value>)
    ensures AllWarnings(path, ScheduleReport(path, sched, routeIds).lines)
  {
    if Iterate(sched).Ok? {
      var entries := Iterate(sched).value;
      var step := e => EntryReport(path, e, routeIds);
      forall i | 0 <= i < |entries| ensures AllWarnings(path, step(entries[i]).lines) {
        EntryWarnings(path, entries[i], routeIds);
      }
      SequenceWarnings(path, entries, step);
    }
  }

  /** A schedule laid out as the validator expects: a list of dicts whose
      plans, where present, are lists of dicts. */
  predicate WellFormed(sched: Value)
  {
    && sched.List?
    && forall i :: 0 <= i < |sched.items| ==>
         var entry := sched.items[i];
         && entry.Mapping?
         && (HasKey(entry.entries, "plan") ==>
               var plan := Lookup(entry.entries, "plan").value;
               plan.List? && forall j :: 0 <= j < |plan.items| ==> plan.items[j].Mapping?)
  }

  /** Run to completion: no step raised. */
  lemma {:induction false} SequenceCompletes<T>(items: seq<T>, step: T -> Report)
    requires forall i :: 0 <= i < |items| ==> step(items[i]).status == Completed
    ensures Sequence(items, step).status == Completed
  {
    if items != [] {
      var init := items[..|items| - 1];
      forall i | 0 <= i < |init| ensures step(init[i]).status == Completed {
        assert init[i] == items[i];
      }
      SequenceCompletes(init, step);
    }
  }

  /** A well-formed schedule never raises, so the check reaches its end. */
  lemma WellFormedCompletes(path: string, sched: Value, routeIds: set<Value>)
    requires WellFormed(sched)
    ensures ScheduleReport(path, sched, routeIds).status == Completed
  {
    var entries := sched.items;
    var step := e => EntryReport(path, e, routeIds);
    forall i | 0 <= i < |entries| ensures step(entries[i]).status == Completed {
      var entry := entries[i];
      if HasKey(entry.entries, "plan") {
        var plan := Lookup(entry.entries, "plan").value;
        var phaseStep := p => PhaseReport(path, p, routeIds);
        forall j | 0 <= j < |plan.items| ensures phaseStep(plan.items[j]).status == Completed {
          assert plan.items[j].Mapping?;
        }
        SequenceCompletes(plan.items, phaseStep);
      }
    }
    SequenceCompletes(entries, step);
  }
}

/** The hours report. For one employee and a closed window `[start, end]` of millisecond instants, the
    aggregator walks the in-window clock logs in ascending order with an open-interval marker and a
    running total, starting open at `start` when the last log before the window is an IN, and closing
    an interval still open at `end`. The report runs it for every employee of a property. */
module Reports {
  import opened Wrappers
  import opened Db
  import opened ClockLogs

  /** One entry of the report's `clockEntries`: a log's id, type and timestamp. */
  datatype ClockEntry = ClockEntry(id: string, ctype: ClockType, timestamp: int)

  /** One employee's report line; `totalMs` is the worked time before its conversion to hours. */
  datatype EmployeeHoursSummary = EmployeeHoursSummary(
    id: string, name: Option<string>, isAdmin: bool, totalMs: int, clockEntries: seq<ClockEntry>,
    email: Option<string>, phone: Option<string>, payType: string, status: string)

  function Min(a: int, b: int): int { if a <= b then a else b }
  function Max(a: int, b: int): int { if a >= b then a else b }

  /** `clampDate`: `min(max(d, start), end)`. */
  function ClampDate(d: int, start: int, end: int): (r: int)
    ensures start <= end ==> start <= r <= end
    ensures start <= d <= end ==> r == d
    ensures start <= end && d < start ==> r == start
    ensures end < d ==> r == end
  {
    Min(Max(d, start), end)
  }

  /** The walk's variables: the running `totalMs` and the start of the open interval, if any. */
  datatype Walk = Walk(totalMs: int, openIn: Option<int>)

  /** Before the walk: nothing counted, and open at `start` exactly when the last log before the
      window is an IN (the carry-over). */
  function Initial(start: int, lastBefore: Option<ClockLog>): Walk {
    Walk(0, if lastBefore.Some? && lastBefore.value.ctype == IN then Some(start) else None)
  }

  /** One iteration of the walk, on the log's instant clamped into the window: an IN opens an interval
      unless one is open, an OUT closes the open interval and adds its length, otherwise it is ignored. */
  function Step(start: int, end: int, w: Walk, log: ClockLog): Walk {
    var t := ClampDate(log.timestamp, start, end);
    match log.ctype
    case IN => if w.openIn.None? then Walk(w.totalMs, Some(t)) else w
    case OUT => if w.openIn.Some? then Walk(w.totalMs + (t - w.openIn.value), None) else w
  }

  /** The walk's variables after the loop has run over `logs`. */
  function WalkLogs(start: int, end: int, w: Walk, logs: seq<ClockLog>): Walk
    decreases |logs|
  {
    if logs == [] then w else Step(start, end, WalkLogs(start, end, w, logs[..|logs| - 1]), logs[|logs| - 1])
  }

  /** The total once an interval still open after the walk is closed at `end`. */
  function Close(end: int, w: Walk): int {
    if w.openIn.Some? then w.totalMs + (end - w.openIn.value) else w.totalMs
  }

  /** The worked milliseconds `calculateHoursAndLogsInRange` computes from the carry-over log and the
      in-window logs; zero for a window with `end <= start`. */
  function TotalMs(start: int, end: int, lastBefore: Option<ClockLog>, logs: seq<ClockLog>): int {
    if end <= start then 0 else Close(end, WalkLogs(start, end, Initial(start, lastBefore), logs))
  }

  /** The report entries for `logs`: id, type and timestamp of each, in the same order. */
  function Entries(logs: seq<ClockLog>): (entries: seq<ClockEntry>)
    ensures |entries| == |logs|
    ensures forall i :: 0 <= i < |logs| ==>
      entries[i] == ClockEntry(logs[i].id, logs[i].ctype, logs[i].timestamp)
  {
    seq(|logs|, i requires 0 <= i < |logs| => ClockEntry(logs[i].id, logs[i].ctype, logs[i].timestamp))
  }

  /** The carry-over query: the employee's latest log strictly before `start`. */
  function LastBefore(table: seq<ClockLog>, employeeId: string, start: int): (r: Option<ClockLog>)
    ensures r.Some? ==> r.value in table && r.value.employeeId == employeeId && r.value.timestamp < start
    ensures r.Some? ==> forall l :: l in table && l.employeeId == employeeId && l.timestamp < start ==>
      l.timestamp <= r.value.timestamp
    ensures r.None? ==> forall l :: l in table ==> l.employeeId != employeeId || l.timestamp >= start
  {
    Latest(Filter(table, (l: ClockLog) => l.employeeId == employeeId && l.timestamp < start))
  }

  predicate InWindowLog(l: ClockLog, employeeId: string, start: int, end: int) {
    l.employeeId == employeeId && start <= l.timestamp <= end
  }

  /** The in-window query: the employee's logs with `start <= timestamp <= end`, ascending. */
  function InWindow(table: seq<ClockLog>, employeeId: string, start: int, end: int): (r: seq<ClockLog>)
    ensures SortedByTime(r)
    ensures forall l :: l in r <==> l in table && l.employeeId == employeeId && start <= l.timestamp <= end
    ensures forall l :: multiset(r)[l] == if InWindowLog(l, employeeId, start, end) then multiset(table)[l] else 0
  {
    var keep := (l: ClockLog) => InWindowLog(l, employeeId, start, end);
    var matching := Filter(table, keep);
    var r := SortByTime(matching);
    assert forall l :: l in r <==> l in multiset(r);
    assert forall l :: l in matching <==> l in multiset(matching);
    forall l ensures multiset(r)[l] == if keep(l) then multiset(table)[l] else 0 {
      FilterCounts(table, keep, l);
    }
    r
  }

  /** The walk reads the logs left to right, so the logs can be split anywhere. */
  lemma {:induction false} WalkLogsAppend(start: int, end: int, w: Walk, a: seq<ClockLog>, b: seq<ClockLog>)
    ensures WalkLogs(start, end, w, a + b) == WalkLogs(start, end, WalkLogs(start, end, w, a), b)
    decreases |b|
  {
    if b == [] {
      assert a + b == a;
    } else {
      assert (a + b)[..|a + b| - 1] == a + b[..|b| - 1];
      WalkLogsAppend(start, end, w, a, b[..|b| - 1]);
    }
  }

  /** What the walk keeps true over ascending logs, where `cur` is the last instant read (`start` before
      the first log): the total is non-negative, an open interval began within `[start, cur]`, and the
      total never exceeds the time from `start` to the open interval's start (or to `cur` when none is open). */
  ghost predicate WalkBounded(start: int, cur: int, w: Walk) {
    && 0 <= w.totalMs
    && start <= cur
    && (w.openIn.Some? ==> start <= w.openIn.value <= cur && w.totalMs <= w.openIn.value - start)
    && (w.openIn.None? ==> w.totalMs <= cur - start)
  }

  lemma {:induction false} WalkStaysBounded(start: int, end: int, lastBefore: Option<ClockLog>, logs: seq<ClockLog>)
    requires start < end && SortedByTime(logs)
    ensures var cur := if logs == [] then start else ClampDate(logs[|logs| - 1].timestamp, start, end);
      WalkBounded(start, cur, WalkLogs(start, end, Initial(start, lastBefore), logs)) && cur <= end
    decreases |logs|
  {
    if logs != [] {
      var p := logs[..|logs| - 1];
      assert SortedByTime(p);
      WalkStaysBounded(start, end, lastBefore, p);
      if p != [] {
        assert p[|p| - 1].timestamp <= logs[|logs| - 1].timestamp;
      }
    }
  }

  /** Over ascending logs, the worked time lies between zero and the window's length. */
  lemma TotalMsBounded(start: int, end: int, lastBefore: Option<ClockLog>, logs: seq<ClockLog>)
    requires SortedByTime(logs)
    ensures 0 <= TotalMs(start, end, lastBefore, logs) <= (if start < end then end - start else 0)
  {
    if start < end {
      WalkStaysBounded(start, end, lastBefore, logs);
    }
  }

  /** With no log inside the window, the whole window counts when the carry-over log is an IN, and
      nothing counts when it is an OUT or there is none. */
  lemma CarryOverOnly(start: int, end: int, lastBefore: Option<ClockLog>)
    requires start < end
    ensures TotalMs(start, end, lastBefore, []) ==
      if lastBefore.Some? && lastBefore.value.ctype == IN then end - start else 0
  {
  }

  /** An IN read while an interval is open changes nothing, whatever follows. */
  lemma RepeatedInIgnored(start: int, end: int, lastBefore: Option<ClockLog>, a: seq<ClockLog>, log: ClockLog, b: seq<ClockLog>)
    requires log.ctype == IN && WalkLogs(start, end, Initial(start, lastBefore), a).openIn.Some?
    ensures TotalMs(start, end, lastBefore, a + [log] + b) == TotalMs(start, end, lastBefore, a + b)
  {
    var w := Initial(start, lastBefore);
    WalkLogsAppend(start, end, w, a + [log], b);
    WalkLogsAppend(start, end, w, a, [log]);
    WalkLogsAppend(start, end, w, a, b);
    assert [log][..0] == [];
  }

  /** An OUT read while no interval is open changes nothing, whatever follows. */
  lemma UnmatchedOutIgnored(start: int, end: int, lastBefore: Option<ClockLog>, a: seq<ClockLog>, log: ClockLog, b: seq<ClockLog>)
    requires log.ctype == OUT && WalkLogs(start, end, Initial(start, lastBefore), a).openIn.None?
    ensures TotalMs(start, end, lastBefore, a + [log] + b) == TotalMs(start, end, lastBefore, a + b)
  {
    var w := Initial(start, lastBefore);
    WalkLogsAppend(start, end, w, a + [log], b);
    WalkLogsAppend(start, end, w, a, [log]);
    WalkLogsAppend(start, end, w, a, b);
    assert [log][..0] == [];
  }

  /** An OUT closing the open interval adds its length, measured on clamped instants; an interval left
      open at the end of the logs is closed at `end`. */
  lemma OutClosesInterval(start: int, end: int, lastBefore: Option<ClockLog>, a: seq<ClockLog>, log: ClockLog)
    requires start < end && log.ctype == OUT
    requires WalkLogs(start, end, Initial(start, lastBefore), a).openIn.Some?
    ensures var w := WalkLogs(start, end, Initial(start, lastBefore), a);
      && TotalMs(start, end, lastBefore, a + [log])
        == w.totalMs + (ClampDate(log.timestamp, start, end) - w.openIn.value)
      && TotalMs(start, end, lastBefore, a) == w.totalMs + (end - w.openIn.value)
  {
    WalkLogsAppend(start, end, Initial(start, lastBefore), a, [log]);
    assert [log][..0] == [];
  }

  const Hour: int := 60 * 60 * 1000

  /** A day with IN at 09:00, OUT at 12:00 and IN at 13:00 and no OUT yet, reported over 00:00 to 17:00,
      counts 3 + 4 = 7 hours. */
  lemma SevenHourDay()
    ensures TotalMs(0, 17 * Hour, None, [ClockLog("a", "e", IN, 9 * Hour), ClockLog("b", "e", OUT, 12 * Hour),
      ClockLog("c", "e", IN, 13 * Hour)]) == 7 * Hour
  {
    var logs := [ClockLog("a", "e", IN, 9 * Hour), ClockLog("b", "e", OUT, 12 * Hour), ClockLog("c", "e", IN, 13 * Hour)];
    assert logs[..2][..1] == logs[..1] && logs[..1][..0] == [];
    assert WalkLogs(0, 17 * Hour, Walk(0, None), logs[..1]) == Walk(0, Some(9 * Hour));
    assert WalkLogs(0, 17 * Hour, Walk(0, None), logs[..2]) == Walk(3 * Hour, None);
  }

  /** The loop of `calculateHoursAndLogsInRange` over the in-window logs, from the carry-over state to
      the synthetic close at `end`. */
  method WalkWindow(start: int, end: int, lastBefore: Option<ClockLog>, logs: seq<ClockLog>) returns (totalMs: int)
    requires start < end
    ensures totalMs == TotalMs(start, end, lastBefore, logs)
  {
    totalMs := 0;
    var openIn: Option<int> := None;
    if lastBefore.Some? && lastBefore.value.ctype == IN {
      openIn := Some(start);
    }
    for i := 0 to |logs|
      invariant Walk(totalMs, openIn) == WalkLogs(start, end, Initial(start, lastBefore), logs[..i])
    {
      assert logs[..i + 1][..i] == logs[..i];
      var t := ClampDate(logs[i].timestamp, start, end);
      if logs[i].ctype == IN {
        if openIn.None? {
          openIn := Some(t);
        }
      } else if logs[i].ctype == OUT {
        if openIn.Some? {
          totalMs := totalMs + (t - openIn.value);
          openIn := None;
        }
      }
    }
    assert logs[..|logs|] == logs;
    if openIn.Some? {
      totalMs := totalMs + (end - openIn.value);
    }
  }

  /** `calculateHoursAndLogsInRange`: the worked milliseconds of one employee in `[start, end]` and the
      entries of the employee's in-window logs, ascending. */
  method CalculateHoursAndLogsInRange(table: seq<ClockLog>, employeeId: string, start: int, end: int)
    returns (totalMs: int, entries: seq<ClockEntry>)
    ensures end <= start ==> totalMs == 0 && entries == []
    ensures start < end ==>
      var logs := InWindow(table, employeeId, start, end);
      totalMs == TotalMs(start, end, LastBefore(table, employeeId, start), logs) && entries == Entries(logs)
    ensures 0 <= totalMs <= (if start < end then end - start else 0)
  {
    if end <= start {
      return 0, [];
    }
    var lastBefore := LastBefore(table, employeeId, start);
    var logs := InWindow(table, employeeId, start, end);
    totalMs := WalkWindow(start, end, lastBefore, logs);
    TotalMsBounded(start, end, lastBefore, logs);
    entries := Entries(logs);
  }

  /** The property's employees, as the report's query lists them. */
  function EmployeesOf(employees: seq<Employee>, propertyId: string): (r: seq<Employee>)
    ensures forall e :: e in r <==> e in employees && e.propertyId == propertyId
  {
    if employees == [] then []
    else
      var rest := EmployeesOf(employees[1..], propertyId);
      assert employees == [employees[0]] + employees[1..];
      if employees[0].propertyId == propertyId then [employees[0]] + rest else rest
  }

  predicate Missing(iso: Option<string>) {
    iso.None? || iso.value == ""
  }

  /** `sum` is the report line of employee `e` over `[start, end]`: the employee's fields, the worked
      milliseconds and the entries of its in-window logs (zero and none for a window with `end <= start`). */
  predicate SummaryOf(table: seq<ClockLog>, e: Employee, sum: EmployeeHoursSummary, start: int, end: int) {
    && sum.id == e.id && sum.name == e.name && sum.isAdmin == e.isAdmin && sum.email == e.email
    && sum.phone == e.phone && sum.payType == e.payType && sum.status == e.status
    && 0 <= sum.totalMs <= (if start < end then end - start else 0)
    && (start < end ==>
          var logs := InWindow(table, e.id, start, end);
          sum.totalMs == TotalMs(start, end, LastBefore(table, e.id, start), logs) && sum.clockEntries == Entries(logs))
    && (end <= start ==> sum.totalMs == 0 && sum.clockEntries == [])
  }

  /** `employeesWithHours`: a `BadRequest` when `start` or `end` is missing or does not parse, else one
      summary per employee of the property, in the order listed. `parseDate` is `new Date(iso)`. */
  method EmployeesWithHours(db: Store, propertyId: string, startIso: Option<string>, endIso: Option<string>,
                            parseDate: string -> Option<int>)
    returns (r: Result<seq<EmployeeHoursSummary>, HttpError>)
    ensures Missing(startIso) || Missing(endIso) ==>
      r == Err(BadRequest("start and end are required (ISO date strings)"))
    ensures !Missing(startIso) && !Missing(endIso) && (parseDate(startIso.value).None? || parseDate(endIso.value).None?) ==>
      r == Err(BadRequest("Invalid start or end date"))
    ensures r.Ok? <==>
      !Missing(startIso) && !Missing(endIso) && parseDate(startIso.value).Some? && parseDate(endIso.value).Some?
    ensures r.Ok? ==>
      var start, end := parseDate(startIso.value).value, parseDate(endIso.value).value;
      var emps := EmployeesOf(db.employees, propertyId);
      |r.value| == |emps| && forall i :: 0 <= i < |emps| ==> SummaryOf(db.clockLogs, emps[i], r.value[i], start, end)
  {
    if Missing(startIso) || Missing(endIso) {
      return Err(BadRequest("start and end are required (ISO date strings)"));
    }
    var start := parseDate(startIso.value);
    var end := parseDate(endIso.value);
    if start.None? || end.None? {
      return Err(BadRequest("Invalid start or end date"));
    }
    var s, e := start.value, end.value;
    var employees := EmployeesOf(db.employees, propertyId);
    var results: seq<EmployeeHoursSummary> := [];
    for i := 0 to |employees|
      invariant |results| == i
      invariant forall k :: 0 <= k < i ==> SummaryOf(db.clockLogs, employees[k], results[k], s, e)
    {
      var emp := employees[i];
      var totalMs, entries := CalculateHoursAndLogsInRange(db.clockLogs, emp.id, s, e);
      var sum := EmployeeHoursSummary(emp.id, emp.name, emp.isAdmin, totalMs, entries,
                                      emp.email, emp.phone, emp.payType, emp.status);
      assert SummaryOf(db.clockLogs, emp, sum, s, e);
      ghost var before := results;
      results := results + [sum];
      forall k | 0 <= k < i + 1 ensures SummaryOf(db.clockLogs, employees[k], results[k], s, e) {
        if k < i {
          assert results[k] == before[k];
        }
      }
    }
    return Ok(results);
  }
}

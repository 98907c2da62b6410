/** The kiosk clock toggle: a device with a verified magic link clocks the employee of the link's property
    whose plaintext passcode column matches, appending IN after no history or after an OUT, and OUT after
    an IN. */
module ClockService {
  import opened Wrappers
  import opened Db
  import opened ClockLogs

  /** What `clock` returns on success. */
  datatype ClockResult = ClockResult(success: bool, ctype: ClockType, timestamp: int)

  /** `magicLink.findFirst({ where: { deviceId, verified: true } })`: the first verified link of the device. */
  function VerifiedLink(links: seq<MagicLink>, deviceId: string): (r: Option<MagicLink>)
    ensures r.Some? ==> r.value in links && r.value.deviceId == deviceId && r.value.verified
    ensures r.None? <==> forall l :: l in links ==> !(l.deviceId == deviceId && l.verified)
  {
    FindFirst(links, (l: MagicLink) => l.deviceId == deviceId && l.verified)
  }

  /** `employee.findFirst({ where: { propertyId: link.propertyId, passcode } })`: the first employee of
      the link's property whose plaintext passcode column equals `passcode` (a link without a property
      matches none). */
  function EmployeeByPasscode(employees: seq<Employee>, propertyId: Option<string>, passcode: string): (r: Option<Employee>)
    ensures r.Some? ==> r.value in employees && Some(r.value.propertyId) == propertyId && r.value.passcode == Some(passcode)
    ensures r.None? <==> forall e :: e in employees ==> !(Some(e.propertyId) == propertyId && e.passcode == Some(passcode))
  {
    FindFirst(employees, (e: Employee) => Some(e.propertyId) == propertyId && e.passcode == Some(passcode))
  }

  function LogsOf(logs: seq<ClockLog>, employeeId: string): seq<ClockLog> {
    Filter(logs, (l: ClockLog) => l.employeeId == employeeId)
  }

  function Opposite(t: ClockType): ClockType {
    if t == IN then OUT else IN
  }

  /** The type the toggle appends: OUT when the employee's latest log by timestamp is an IN, else IN. */
  function NextType(logs: seq<ClockLog>, employeeId: string): ClockType {
    var last := Latest(LogsOf(logs, employeeId));
    if last.Some? && last.value.ctype == IN then OUT else IN
  }

  /** IN for an employee without logs; otherwise some log of the employee with the greatest timestamp
      carries the opposite of the type the toggle appends. */
  lemma NextTypeMeaning(logs: seq<ClockLog>, employeeId: string)
    ensures (forall l :: l in logs ==> l.employeeId != employeeId) ==> NextType(logs, employeeId) == IN
    ensures (exists l :: l in logs && l.employeeId == employeeId) ==>
      exists l :: l in logs && l.employeeId == employeeId && l.ctype == Opposite(NextType(logs, employeeId))
        && forall m :: m in logs && m.employeeId == employeeId ==> m.timestamp <= l.timestamp
  {
    var mine := LogsOf(logs, employeeId);
    var last := Latest(mine);
    if last.Some? {
      assert last.value in logs && last.value.employeeId == employeeId;
      assert forall m :: m in logs && m.employeeId == employeeId ==> m in mine;
    }
  }

  /** The log table after one successful toggle of `employeeId` at `now`. */
  function Toggle(logs: seq<ClockLog>, employeeId: string, id: string, now: int): seq<ClockLog> {
    logs + [ClockLog(id, employeeId, NextType(logs, employeeId), now)]
  }

  /** When the clock does not run backwards, the next toggle of the same employee appends the opposite type. */
  lemma ToggleAlternates(logs: seq<ClockLog>, employeeId: string, id: string, now: int)
    requires forall l :: l in logs && l.employeeId == employeeId ==> l.timestamp <= now
    ensures NextType(Toggle(logs, employeeId, id, now), employeeId) == Opposite(NextType(logs, employeeId))
  {
    var x := ClockLog(id, employeeId, NextType(logs, employeeId), now);
    FilterAppend(logs, x, (l: ClockLog) => l.employeeId == employeeId);
    LatestOfAppend(LogsOf(logs, employeeId), x);
  }

  /** Toggling one employee leaves every other employee's logs, and so their next type, as they were. */
  lemma ToggleLeavesOthers(logs: seq<ClockLog>, employeeId: string, id: string, now: int, other: string)
    requires other != employeeId
    ensures LogsOf(Toggle(logs, employeeId, id, now), other) == LogsOf(logs, other)
    ensures NextType(Toggle(logs, employeeId, id, now), other) == NextType(logs, other)
  {
    var x := ClockLog(id, employeeId, NextType(logs, employeeId), now);
    FilterAppend(logs, x, (l: ClockLog) => l.employeeId == other);
  }

  /** The table after toggling `employeeId` once per instant of `times` (ids from `ids`), in order. */
  function ToggleEach(logs: seq<ClockLog>, employeeId: string, ids: seq<string>, times: seq<int>): seq<ClockLog>
    requires |ids| == |times|
    decreases |times|
  {
    if times == [] then logs
    else
      var n := |times| - 1;
      Toggle(ToggleEach(logs, employeeId, ids[..n], times[..n]), employeeId, ids[n], times[n])
  }

  /** The k-th toggle's type from no history: IN, OUT, IN, OUT, ... */
  function Parity(k: nat): ClockType {
    if k % 2 == 0 then IN else OUT
  }

  /** The rows the toggles are expected to append: alternating types, starting with IN. */
  function Alternating(employeeId: string, ids: seq<string>, times: seq<int>): (r: seq<ClockLog>)
    requires |ids| == |times|
    ensures |r| == |times|
  {
    seq(|times|, k requires 0 <= k < |times| => ClockLog(ids[k], employeeId, Parity(k), times[k]))
  }

  lemma AlternatingSnoc(employeeId: string, ids: seq<string>, times: seq<int>)
    requires |ids| == |times| > 0
    ensures var n := |times| - 1;
      Alternating(employeeId, ids, times)
        == Alternating(employeeId, ids[..n], times[..n]) + [ClockLog(ids[n], employeeId, Parity(n), times[n])]
  {
  }

  lemma AlternatingBounded(logs: seq<ClockLog>, employeeId: string, ids: seq<string>, times: seq<int>, bound: int)
    requires |ids| == |times|
    requires forall l :: l in logs ==> l.employeeId != employeeId
    requires forall k :: 0 <= k < |times| ==> times[k] <= bound
    ensures forall l :: l in logs + Alternating(employeeId, ids, times) && l.employeeId == employeeId ==> l.timestamp <= bound
  {
    var alt := Alternating(employeeId, ids, times);
    forall l | l in logs + alt && l.employeeId == employeeId
      ensures l.timestamp <= bound
    {
      if l !in logs {
        var k :| 0 <= k < |alt| && alt[k] == l;
      }
    }
  }

  /** Starting without history, toggling at non-decreasing instants appends IN, OUT, IN, OUT, ... in
      order, and the next toggle after them is IN after an even count and OUT after an odd one. */
  lemma {:induction false} ToggleEachAlternates(logs: seq<ClockLog>, employeeId: string, ids: seq<string>, times: seq<int>)
    requires |ids| == |times|
    requires forall l :: l in logs ==> l.employeeId != employeeId
    requires forall i, j :: 0 <= i < j < |times| ==> times[i] <= times[j]
    ensures ToggleEach(logs, employeeId, ids, times) == logs + Alternating(employeeId, ids, times)
    ensures NextType(ToggleEach(logs, employeeId, ids, times), employeeId) == Parity(|times|)
    decreases |times|
  {
    if times == [] {
      assert logs + [] == logs;
    } else {
      var n := |times| - 1;
      ToggleEachAlternates(logs, employeeId, ids[..n], times[..n]);
      AlternatingBounded(logs, employeeId, ids[..n], times[..n], times[n]);
      ToggleEachStep(logs, employeeId, ids, times);
    }
  }

  lemma ToggleEachStep(logs: seq<ClockLog>, employeeId: string, ids: seq<string>, times: seq<int>)
    requires |ids| == |times| > 0
    requires var n := |times| - 1;
      && ToggleEach(logs, employeeId, ids[..n], times[..n]) == logs + Alternating(employeeId, ids[..n], times[..n])
      && NextType(ToggleEach(logs, employeeId, ids[..n], times[..n]), employeeId) == Parity(n)
      && forall l :: l in ToggleEach(logs, employeeId, ids[..n], times[..n]) && l.employeeId == employeeId ==> l.timestamp <= times[n]
    ensures ToggleEach(logs, employeeId, ids, times) == logs + Alternating(employeeId, ids, times)
    ensures NextType(ToggleEach(logs, employeeId, ids, times), employeeId) == Parity(|times|)
  {
    var n := |times| - 1;
    ToggleEachUnfold(logs, employeeId, ids, times);
    AlternatingSnoc(employeeId, ids, times);
    ToggleAfterAlternating(ToggleEach(logs, employeeId, ids[..n], times[..n]), logs,
      Alternating(employeeId, ids[..n], times[..n]), employeeId, ids[n], times[n], n);
  }

  /** One more toggle after n alternating rows appends the n-th alternating row. */
  lemma ToggleAfterAlternating(prev: seq<ClockLog>, logs: seq<ClockLog>, alt: seq<ClockLog>, employeeId: string,
                               id: string, now: int, n: nat)
    requires prev == logs + alt
    requires NextType(prev, employeeId) == Parity(n)
    requires forall l :: l in prev && l.employeeId == employeeId ==> l.timestamp <= now
    ensures Toggle(prev, employeeId, id, now) == logs + (alt + [ClockLog(id, employeeId, Parity(n), now)])
    ensures NextType(Toggle(prev, employeeId, id, now), employeeId) == Parity(n + 1)
  {
    ToggleShape(prev, logs, alt, employeeId, id, now, n);
    ToggleAlternates(prev, employeeId, id, now);
    ParityNext(n);
  }

  lemma ToggleShape(prev: seq<ClockLog>, logs: seq<ClockLog>, alt: seq<ClockLog>, employeeId: string,
                    id: string, now: int, n: nat)
    requires prev == logs + alt
    requires NextType(prev, employeeId) == Parity(n)
    ensures Toggle(prev, employeeId, id, now) == logs + (alt + [ClockLog(id, employeeId, Parity(n), now)])
  {
    assert (logs + alt) + [ClockLog(id, employeeId, Parity(n), now)] == logs + (alt + [ClockLog(id, employeeId, Parity(n), now)]);
  }

  lemma ToggleEachUnfold(logs: seq<ClockLog>, employeeId: string, ids: seq<string>, times: seq<int>)
    requires |ids| == |times| > 0
    ensures var n := |times| - 1;
      ToggleEach(logs, employeeId, ids, times)
        == Toggle(ToggleEach(logs, employeeId, ids[..n], times[..n]), employeeId, ids[n], times[n])
  {
  }

  lemma ParityNext(n: nat)
    ensures Opposite(Parity(n)) == Parity(n + 1)
  {
  }

  /** `clock`: null without a verified link for the device or without a matching employee, the table
      unchanged; otherwise exactly one log of the matched employee is appended at `now` with the toggled
      type, which is also what the call returns. */
  method Clock(db: Store, deviceId: string, passcode: string, now: int, newId: string) returns (r: Option<ClockResult>)
    modifies db`clockLogs
    ensures var link := VerifiedLink(db.magicLinks, deviceId);
      r.None? <==> link.None? || EmployeeByPasscode(db.employees, link.value.propertyId, passcode).None?
    ensures r.None? ==> db.clockLogs == old(db.clockLogs)
    ensures r.Some? ==>
      var emp := EmployeeByPasscode(db.employees, VerifiedLink(db.magicLinks, deviceId).value.propertyId, passcode).value;
      var t := NextType(old(db.clockLogs), emp.id);
      && db.clockLogs == Toggle(old(db.clockLogs), emp.id, newId, now)
      && db.clockLogs[|db.clockLogs| - 1] == ClockLog(newId, emp.id, t, now)
      && r.value == ClockResult(true, t, now)
  {
    var link := VerifiedLink(db.magicLinks, deviceId);
    if link.None? {
      return None;
    }
    var employee := EmployeeByPasscode(db.employees, link.value.propertyId, passcode);
    if employee.None? {
      return None;
    }
    var lastLog := Latest(LogsOf(db.clockLogs, employee.value.id));
    var newType := if lastLog.Some? && lastLog.value.ctype == IN then OUT else IN;
    var log := ClockLog(newId, employee.value.id, newType, now);
    db.clockLogs := db.clockLogs + [log];
    return Some(ClockResult(true, log.ctype, log.timestamp));
  }
}

/** The rows of the timekeeping database and the in-memory store that replaces it.
    Every table is a sequence in insertion order; services read and append to these fields. */
module Db {
  import opened Wrappers

  datatype ClockType = IN | OUT

  datatype ClockLog = ClockLog(id: string, employeeId: string, ctype: ClockType, timestamp: int)

  /** `propertyId` is nullable: links are created without one (by the magic-link request) but read
      through it by the clock. */
  datatype MagicLink = MagicLink(
    token: string, email: string, deviceId: string, propertyId: Option<string>,
    expiresAt: int, verified: bool, createdAt: int)

  datatype DeviceSession = DeviceSession(
    token: string, deviceId: string, propertyId: string, expiresAt: int, createdAt: int)

  datatype AdminSession = AdminSession(
    token: string, propertyId: string, employeeId: string, expiresAt: int, createdAt: int)

  /** An employee row, with every column the services read: `name` (read by the report) and the
      plaintext `passcode` column (matched by the clock) are null for employees created through the
      employee service, which stores `passcodeHash` instead. */
  datatype Employee = Employee(
    id: string, propertyId: string,
    firstName: string, lastName: string, name: Option<string>,
    passcode: Option<string>, passcodeHash: string,
    isAdmin: bool, status: string,
    payType: string, payAmountCents: Option<int>,
    email: Option<string>, phone: Option<string>)

  /** The HTTP errors the services throw, with their messages. */
  datatype HttpError = BadRequest(message: string) | Unauthorized(message: string) | NotFound(message: string)

  datatype PayHistory = PayHistory(employeeId: string, amountCents: Option<int>, payType: string)

  datatype PropertyModule = PropertyModule(propertyId: string, moduleKey: string)

  datatype EmployeeModule = EmployeeModule(employeeId: string, moduleKey: string)

  /** The database: one sequence per table. */
  class Store {
    var magicLinks: seq<MagicLink>
    var deviceSessions: seq<DeviceSession>
    var adminSessions: seq<AdminSession>
    var employees: seq<Employee>
    var clockLogs: seq<ClockLog>
    var payHistory: seq<PayHistory>
    var propertyModules: seq<PropertyModule>
    var employeeModules: seq<EmployeeModule>

    constructor ()
      ensures magicLinks == [] && deviceSessions == [] && adminSessions == [] && employees == []
      ensures clockLogs == [] && payHistory == [] && propertyModules == [] && employeeModules == []
    {
      magicLinks, deviceSessions, adminSessions, employees := [], [], [], [];
      clockLogs, payHistory, propertyModules, employeeModules := [], [], [], [];
    }
  }

  /** `findFirst({ where })` / `findUnique({ where })`: the first row in table order satisfying `where`. */
  function FindFirst<T>(rows: seq<T>, where: T -> bool): (r: Option<T>)
    ensures r.Some? ==> r.value in rows && where(r.value)
    ensures r.None? <==> forall x :: x in rows ==> !where(x)
  {
    if rows == [] then None
    else if where(rows[0]) then Some(rows[0])
    else
      assert rows == [rows[0]] + rows[1..];
      FindFirst(rows[1..], where)
  }

  /** Row `i` is the first row satisfying `where`. */
  ghost predicate IsFirst<T>(rows: seq<T>, where: T -> bool, i: int) {
    0 <= i < |rows| && where(rows[i]) && forall j :: 0 <= j < i ==> !where(rows[j])
  }

  /** `FindFirst` answers exactly the row at the first matching index, and nothing when there is none. */
  lemma {:induction false} FindFirstIsFirst<T>(rows: seq<T>, where: T -> bool)
    ensures FindFirst(rows, where).Some? <==> exists i :: IsFirst(rows, where, i)
    ensures forall i :: IsFirst(rows, where, i) ==> FindFirst(rows, where) == Some(rows[i])
  {
    if rows != [] {
      FindFirstIsFirst(rows[1..], where);
      if where(rows[0]) {
        assert IsFirst(rows, where, 0);
        forall i | IsFirst(rows, where, i) ensures i == 0 {
        }
      } else {
        forall i | IsFirst(rows, where, i) ensures IsFirst(rows[1..], where, i - 1) {
        }
        if FindFirst(rows, where).Some? {
          var i :| IsFirst(rows[1..], where, i);
          assert IsFirst(rows, where, i + 1);
        }
      }
    }
  }
}

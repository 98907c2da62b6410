/** The admin-only employee routes: each first passes the admin gate with the `device_session` and
    `admin_session` cookies, then cleans the request body (trimming, lower-casing, whitelists, required
    names) before calling the employee service. */
module EmployeesController {
  import opened Wrappers
  import opened JsStrings
  import opened Db
  import opened Passcode
  import opened AdminAuth
  import opened EmployeesService

  /** The JSON body of `POST /employees`; a field left out is `None`. */
  datatype CreateBody = CreateBody(
    firstName: Option<string>, lastName: Option<string>, passcode: Option<string>,
    email: Option<string>, phone: Option<string>, payType: Option<string>, status: Option<string>)

  /** The JSON body of `PATCH /employees/:employeeId`. */
  datatype UpdateBody = UpdateBody(
    firstName: Option<string>, lastName: Option<string>, email: Option<string>, phone: Option<string>,
    payType: Option<string>, status: Option<string>)

  const PayTypes: seq<string> := ["hourly", "weekly", "annually"]
  const Statuses: seq<string> := ["active", "inactive"]

  /** `s?.trim()`. */
  function TrimField(s: Option<string>): Option<string> {
    if s.Some? then Some(Trim(s.value)) else None
  }

  /** `s?.trim() || null`: the trimmed text, or null when it is absent or blank. */
  function TrimmedOrNull(s: Option<string>): (r: Option<string>)
    ensures r.Some? ==> s.Some? && r.value == Trim(s.value) && r.value != ""
    ensures r.None? <==> s.None? || IsBlank(s.value)
  {
    if s.None? then None
    else
      TrimEmptyIffBlank(s.value);
      if Trim(s.value) != "" then Some(Trim(s.value)) else None
  }

  /** `s?.trim().toLowerCase() || null`. */
  function LoweredOrNull(s: Option<string>): (r: Option<string>)
    ensures r.Some? ==> r.value != "" && s.Some? && r.value == ToLower(Trim(s.value))
    ensures r.None? <==> s.None? || IsBlank(s.value)
  {
    if s.None? then None
    else
      TrimEmptyIffBlank(s.value);
      if Trim(s.value) != "" then Some(ToLower(Trim(s.value))) else None
  }

  /** The checks and clean-up of the create route, before the service call. */
  function NormalizeCreate(body: CreateBody): (r: Result<CreateData, HttpError>)
    ensures r.Err? <==> !Truthy(TrimField(body.firstName)) || !Truthy(TrimField(body.lastName)) || !Truthy(TrimField(body.passcode))
    ensures !Truthy(TrimField(body.firstName)) || !Truthy(TrimField(body.lastName))
      ==> r == Err(BadRequest("firstName and lastName are required"))
    ensures r.Ok? ==>
      && r.value.firstName != "" && r.value.firstName == Trim(body.firstName.value)
      && r.value.lastName != "" && r.value.lastName == Trim(body.lastName.value)
      && r.value.passcode != "" && r.value.passcode == Trim(body.passcode.value)
      && r.value.email == TrimmedOrNull(body.email) && r.value.phone == TrimmedOrNull(body.phone)
      && r.value.payType == LoweredOrNull(body.payType) && r.value.status == LoweredOrNull(body.status)
      && r.value.payAmountCents.None?
  {
    var firstName, lastName, passcode := TrimField(body.firstName), TrimField(body.lastName), TrimField(body.passcode);
    if !Truthy(firstName) || !Truthy(lastName) then Err(BadRequest("firstName and lastName are required"))
    else if !Truthy(passcode) then Err(BadRequest("passcode is required"))
    else Ok(CreateData(
      firstName.value, lastName.value, passcode.value,
      TrimmedOrNull(body.email), TrimmedOrNull(body.phone),
      LoweredOrNull(body.payType), LoweredOrNull(body.status), None))
  }

  /** `s?.trim().toLowerCase()`, dropped to `undefined` when non-empty and outside `allowed`. */
  function Whitelisted(s: Option<string>, allowed: seq<string>): (f: Field<string>)
    ensures f.Given? ==> s.Some? && f.value == ToLower(Trim(s.value)) && (f.value == "" || f.value in allowed)
    ensures f.Absent? <==> s.None? || (ToLower(Trim(s.value)) != "" && ToLower(Trim(s.value)) !in allowed)
    ensures !f.Null?
  {
    if s.None? then Absent
    else
      var v := ToLower(Trim(s.value));
      if v != "" && v !in allowed then Absent else Given(v)
  }

  /** `s?.trim()` as an update field: left out stays left out. */
  function TrimmedField(s: Option<string>): (f: Field<string>)
    ensures f.Absent? <==> s.None?
    ensures f.Given? ==> f.value == Trim(s.value)
    ensures !f.Null?
  {
    if s.Some? then Given(Trim(s.value)) else Absent
  }

  /** The checks and clean-up of the update route, before the service call. The body has no passcode
      or amount, so those stay left out. */
  function NormalizeUpdate(body: UpdateBody): (r: Result<UpdateData, HttpError>)
    ensures r.Err? <==> TrimmedField(body.firstName) == Given("") || TrimmedField(body.lastName) == Given("")
    ensures TrimmedField(body.firstName) == Given("") ==> r == Err(BadRequest("firstName cannot be empty"))
    ensures TrimmedField(body.firstName) != Given("") && TrimmedField(body.lastName) == Given("")
      ==> r == Err(BadRequest("lastName cannot be empty"))
    ensures r.Ok? ==>
      && r.value.passcode.Absent? && r.value.payAmountCents.Absent?
      && (r.value.payType.Given? ==> r.value.payType.value == "" || r.value.payType.value in PayTypes)
      && (r.value.status.Given? ==> r.value.status.value == "" || r.value.status.value in Statuses)
      && (r.value.firstName.Given? ==> r.value.firstName.value != "")
      && (r.value.lastName.Given? ==> r.value.lastName.value != "")
      && (r.value.email.Absent? <==> body.email.None?) && (r.value.phone.Absent? <==> body.phone.None?)
  {
    var data := UpdateData(
      TrimmedField(body.firstName), TrimmedField(body.lastName),
      TrimmedField(body.email), TrimmedField(body.phone),
      Whitelisted(body.payType, PayTypes), Whitelisted(body.status, Statuses),
      Absent, Absent);
    if data.firstName == Given("") then Err(BadRequest("firstName cannot be empty"))
    else if data.lastName == Given("") then Err(BadRequest("lastName cannot be empty"))
    else Ok(data)
  }

  /** `GET /employees`: the employees of the gate's property (their order is not modelled). */
  function ListRoute(db: Store, deviceToken: Option<string>, adminToken: Option<string>, now: int)
    : (r: Result<seq<Employee>, HttpError>)
    reads db
    ensures var gate := RequireAdmin(db.deviceSessions, db.adminSessions, db.employees, deviceToken, adminToken, now);
      && (gate.Err? <==> r.Err?)
      && (gate.Err? ==> r.error == gate.error)
      && (gate.Ok? ==> forall e :: e in r.value <==> e in db.employees && e.propertyId == gate.value.propertyId)
  {
    var gate := RequireAdmin(db.deviceSessions, db.adminSessions, db.employees, deviceToken, adminToken, now);
    if gate.Err? then Err(gate.error)
    else Ok(ListForProperty(db.employees, gate.value.propertyId))
  }

  /** `listForProperty` without its ordering: the rows of the property, in table order. */
  function ListForProperty(employees: seq<Employee>, propertyId: string): (r: seq<Employee>)
    ensures forall e :: e in r <==> e in employees && e.propertyId == propertyId
  {
    if employees == [] then []
    else
      var last := employees[|employees| - 1];
      assert employees == employees[..|employees| - 1] + [last];
      ListForProperty(employees[..|employees| - 1], propertyId) + (if last.propertyId == propertyId then [last] else [])
  }

  /** `POST /employees`: the gate, then the body checks, then `createForProperty` in the gate's property. */
  method CreateRoute(db: Store, kdf: Kdf, salt: seq<byte>, deviceToken: Option<string>, adminToken: Option<string>,
                     now: int, body: CreateBody, newId: string)
    returns (r: Result<Employee, HttpError>)
    requires |salt| == SaltLength
    requires forall e :: e in db.employees ==> e.id != newId
    modifies db`employees, db`payHistory
    ensures var gate := RequireAdmin(db.deviceSessions, db.adminSessions, old(db.employees), deviceToken, adminToken, now);
      var data := NormalizeCreate(body);
      && (gate.Err? ==> r == Err(gate.error))
      && (gate.Ok? && data.Err? ==> r == Err(data.error))
      && (gate.Ok? && data.Ok? ==>
            && (!ValidatePasscode(data.value.passcode) ==> r == Err(BadRequest(PasscodeFormat)))
            && (ValidatePasscode(data.value.passcode)
                && Clash(old(db.employees), kdf, gate.value.propertyId, data.value.passcode, None)
                ==> r == Err(BadRequest(PasscodeInUse)))
            && (r.Ok? <==> ValidatePasscode(data.value.passcode)
                           && !Clash(old(db.employees), kdf, gate.value.propertyId, data.value.passcode, None)))
      && (r.Err? ==> db.employees == old(db.employees) && db.payHistory == old(db.payHistory))
      && (r.Ok? ==>
            && gate.Ok? && data.Ok?
            && r.value == NewEmployee(newId, gate.value.propertyId, data.value, HashPasscode(kdf, data.value.passcode, salt))
            && db.employees == old(db.employees) + [r.value]
            && db.payHistory == old(db.payHistory) + [PayHistory(newId, r.value.payAmountCents, r.value.payType)])
  {
    var gate := RequireAdmin(db.deviceSessions, db.adminSessions, db.employees, deviceToken, adminToken, now);
    if gate.Err? {
      return Err(gate.error);
    }
    var data := NormalizeCreate(body);
    if data.Err? {
      return Err(data.error);
    }
    r := CreateForProperty(db, kdf, salt, gate.value.propertyId, data.value, newId);
  }

  /** `PATCH /employees/:employeeId`: the gate, then the body checks, then `updateForProperty` in the
      gate's property. */
  method UpdateRoute(db: Store, kdf: Kdf, salt: seq<byte>, deviceToken: Option<string>, adminToken: Option<string>,
                     now: int, employeeId: string, body: UpdateBody)
    returns (r: Result<Employee, HttpError>)
    requires |salt| == SaltLength
    modifies db`employees, db`payHistory
    ensures var gate := RequireAdmin(db.deviceSessions, db.adminSessions, old(db.employees), deviceToken, adminToken, now);
      var data := NormalizeUpdate(body);
      && (gate.Err? ==> r == Err(gate.error))
      && (gate.Ok? && data.Err? ==> r == Err(data.error))
      && (gate.Err? || data.Err? ==> db.employees == old(db.employees) && db.payHistory == old(db.payHistory))
      && (gate.Ok? && data.Ok? ==>
            var error := UpdateError(old(db.employees), kdf, gate.value.propertyId, employeeId, data.value);
            && (error.Some? ==> r == Err(error.value) && db.employees == old(db.employees) && db.payHistory == old(db.payHistory))
            && (error.None? ==>
                  var i := IndexOfEmployee(old(db.employees), gate.value.propertyId, employeeId).value;
                  var existing := old(db.employees)[i];
                  && r == Ok(UpdatedRow(existing, data.value, None))
                  && db.employees == old(db.employees)[i := r.value]
                  && db.payHistory == old(db.payHistory)
                       + (if PayChanged(existing, data.value) then [PayHistory(employeeId, r.value.payAmountCents, r.value.payType)] else [])))
  {
    var gate := RequireAdmin(db.deviceSessions, db.adminSessions, db.employees, deviceToken, adminToken, now);
    if gate.Err? {
      return Err(gate.error);
    }
    var data := NormalizeUpdate(body);
    if data.Err? {
      return Err(data.error);
    }
    r := UpdateForProperty(db, kdf, salt, gate.value.propertyId, employeeId, data.value);
  }

  /** Through the update route the passcode hash, the amount, the id, the property and the admin flag
      never change; a pay type can only become one of the three kinds or, when sent blank, empty. */
  lemma UpdateRouteKeeps(existing: Employee, body: UpdateBody)
    requires NormalizeUpdate(body).Ok?
    ensures var row := UpdatedRow(existing, NormalizeUpdate(body).value, None);
      && row.passcodeHash == existing.passcodeHash && row.payAmountCents == existing.payAmountCents
      && row.id == existing.id && row.propertyId == existing.propertyId && row.isAdmin == existing.isAdmin
      && (row.payType == existing.payType || row.payType == "" || row.payType in PayTypes)
      && (row.status == existing.status || row.status in Statuses)
  {
  }

  /** A pay type sent as blank text passes the whitelist (which skips falsy values) and the service's
      `?? existing`, so the stored pay type becomes empty and a pay-history row is added. */
  lemma BlankPayTypeStoredEmpty(existing: Employee, body: UpdateBody)
    requires body.payType == Some(" ") && existing.payType != ""
    requires body.firstName.None? && body.lastName.None?
    ensures NormalizeUpdate(body).Ok?
    ensures UpdatedRow(existing, NormalizeUpdate(body).value, None).payType == ""
    ensures PayChanged(existing, NormalizeUpdate(body).value)
  {
    assert Trim(" ") == "" by {
      TrimEmptyIffBlank(" ");
    }
  }
}

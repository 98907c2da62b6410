/** The admin gate in front of the employee routes: both a live device session and a live admin session
    of the same property are needed, and the admin session's employee must be an admin. Every failure
    is a 401; the gate only reads the session and employee tables. */
module AdminAuth {
  import opened Wrappers
  import opened JsStrings
  import opened Db

  datatype AdminContext = AdminContext(propertyId: string, adminEmployeeId: string)

  /** The `where` of both session lookups: the token matches and the session expires strictly after `now`. */
  function LiveDevice(token: string, now: int): DeviceSession -> bool {
    (s: DeviceSession) => s.token == token && s.expiresAt > now
  }

  function LiveAdmin(token: string, now: int): AdminSession -> bool {
    (s: AdminSession) => s.token == token && s.expiresAt > now
  }

  function HasId(id: string): Employee -> bool {
    (e: Employee) => e.id == id
  }

  /** `requireAdmin`, its checks in the source's order; the three tables stand for the database it reads. */
  function RequireAdmin(devices: seq<DeviceSession>, admins: seq<AdminSession>, employees: seq<Employee>,
                        sessionToken: Option<string>, adminToken: Option<string>, now: int)
    : (r: Result<AdminContext, HttpError>)
    ensures !Truthy(sessionToken) ==> r == Err(Unauthorized("Missing device session"))
    ensures Truthy(sessionToken) && !Truthy(adminToken) ==> r == Err(Unauthorized("Missing admin session"))
    ensures Truthy(sessionToken) && Truthy(adminToken)
      && (forall s :: s in devices && s.token == sessionToken.value ==> s.expiresAt <= now)
      ==> r == Err(Unauthorized("Invalid session"))
    ensures r.Err? ==> r.error.Unauthorized?
    ensures r.Ok? ==>
      exists s, a, e :: s in devices && a in admins && e in employees
        && Some(s.token) == sessionToken && s.expiresAt > now
        && Some(a.token) == adminToken && a.expiresAt > now
        && s.propertyId == a.propertyId && e.id == a.employeeId && e.isAdmin
        && r.value == AdminContext(a.propertyId, e.id)
  {
    if !Truthy(sessionToken) then Err(Unauthorized("Missing device session"))
    else if !Truthy(adminToken) then Err(Unauthorized("Missing admin session"))
    else
      var session := FindFirst(devices, LiveDevice(sessionToken.value, now));
      var admin := FindFirst(admins, LiveAdmin(adminToken.value, now));
      if session.None? || admin.None? then Err(Unauthorized("Invalid session"))
      else if session.value.propertyId != admin.value.propertyId then Err(Unauthorized("Cross-property session"))
      else
        var employee := FindFirst(employees, HasId(admin.value.employeeId));
        if employee.None? || !employee.value.isAdmin then Err(Unauthorized("Not an admin"))
        else Ok(AdminContext(session.value.propertyId, employee.value.id))
  }

  /** When the gate lets a request through, stated on row positions: both tokens are given, the first
      live session of each token belongs to the same property, and the first employee row with the admin
      session's employee id is an admin. */
  ghost predicate Authorized(devices: seq<DeviceSession>, admins: seq<AdminSession>, employees: seq<Employee>,
                             sessionToken: Option<string>, adminToken: Option<string>, now: int)
  {
    && Truthy(sessionToken) && Truthy(adminToken)
    && exists i, j, k ::
        && IsFirst(devices, LiveDevice(sessionToken.value, now), i)
        && IsFirst(admins, LiveAdmin(adminToken.value, now), j)
        && IsFirst(employees, HasId(admins[j].employeeId), k)
        && devices[i].propertyId == admins[j].propertyId
        && employees[k].isAdmin
  }

  /** The gate passes exactly when `Authorized` holds, and then answers the property of the first live
      device session and the id of the admin it names. */
  lemma RequireAdminIff(devices: seq<DeviceSession>, admins: seq<AdminSession>, employees: seq<Employee>,
                        sessionToken: Option<string>, adminToken: Option<string>, now: int)
    ensures RequireAdmin(devices, admins, employees, sessionToken, adminToken, now).Ok?
        <==> Authorized(devices, admins, employees, sessionToken, adminToken, now)
    ensures forall i, j, k ::
        && Truthy(sessionToken) && Truthy(adminToken)
        && IsFirst(devices, LiveDevice(sessionToken.value, now), i)
        && IsFirst(admins, LiveAdmin(adminToken.value, now), j)
        && IsFirst(employees, HasId(admins[j].employeeId), k)
        && devices[i].propertyId == admins[j].propertyId
        && employees[k].isAdmin
        ==> RequireAdmin(devices, admins, employees, sessionToken, adminToken, now)
              == Ok(AdminContext(devices[i].propertyId, employees[k].id))
  {
    if Truthy(sessionToken) && Truthy(adminToken) {
      var live := LiveDevice(sessionToken.value, now);
      var liveAdmin := LiveAdmin(adminToken.value, now);
      FindFirstIsFirst(devices, live);
      FindFirstIsFirst(admins, liveAdmin);
      var admin := FindFirst(admins, liveAdmin);
      if admin.Some? {
        FindFirstIsFirst(employees, HasId(admin.value.employeeId));
        if RequireAdmin(devices, admins, employees, sessionToken, adminToken, now).Ok? {
          var i :| IsFirst(devices, live, i);
          var j :| IsFirst(admins, liveAdmin, j);
          var k :| IsFirst(employees, HasId(admins[j].employeeId), k);
          assert devices[i].propertyId == admins[j].propertyId;
        }
      }
    }
  }

  /** Two live sessions of different properties are refused even though each one alone is valid. */
  lemma CrossPropertyRejected(devices: seq<DeviceSession>, admins: seq<AdminSession>, employees: seq<Employee>,
                              session: DeviceSession, admin: AdminSession, now: int)
    requires session.token != "" && admin.token != ""
    requires devices == [session] && admins == [admin]
    requires session.expiresAt > now && admin.expiresAt > now
    requires session.propertyId != admin.propertyId
    ensures RequireAdmin(devices, admins, employees, Some(session.token), Some(admin.token), now)
      == Err(Unauthorized("Cross-property session"))
  {
  }

  /** A session is still refused at the very instant it expires. */
  lemma ExpiryIsExclusive(admins: seq<AdminSession>, employees: seq<Employee>, session: DeviceSession, adminToken: string)
    requires session.token != "" && adminToken != ""
    ensures RequireAdmin([session], admins, employees, Some(session.token), Some(adminToken), session.expiresAt)
      == Err(Unauthorized("Invalid session"))
  {
  }
}

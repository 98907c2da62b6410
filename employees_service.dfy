/** Creating and updating employees of a property: passcodes are 4 digits, hashed, and unique within the
    property; an update writes only the fields it was given, and a pay-history row is added exactly when
    the pay type or amount really changes. */
module EmployeesService {
  import opened Wrappers
  import opened JsStrings
  import opened Db
  import opened Passcode

  const PasscodeInUse: string := "Passcode already in use. Choose a different 4-digit code."
  const PasscodeFormat: string := "Passcode must be exactly 4 digits."
  const PasscodeEmpty: string := "Passcode cannot be empty."
  const EmployeeNotFound: string := "Employee not found"

  /** `e` is ruled out of the clash scan: the excluded id is given (truthy) and is `e`'s. */
  predicate Excluded(e: Employee, exclude: Option<string>) {
    Truthy(exclude) && e.id == exclude.value
  }

  /** `e` is a clash for `passcode` in the property: same property, not excluded, and its stored hash
      verifies the passcode. */
  predicate ClashesWith(kdf: Kdf, propertyId: string, passcode: string, exclude: Option<string>, e: Employee) {
    e.propertyId == propertyId && !Excluded(e, exclude) && VerifyPasscode(kdf, passcode, e.passcodeHash)
  }

  predicate Clash(employees: seq<Employee>, kdf: Kdf, propertyId: string, passcode: string, exclude: Option<string>) {
    exists e :: e in employees && ClashesWith(kdf, propertyId, passcode, exclude, e)
  }

  /** `ensureUniquePasscode`: a scan of the property's employees, of any status, for one whose hash
      verifies the passcode. */
  method EnsureUniquePasscode(db: Store, kdf: Kdf, propertyId: string, passcode: string, exclude: Option<string>)
    returns (error: Option<HttpError>)
    ensures error.None? <==> !Clash(db.employees, kdf, propertyId, passcode, exclude)
    ensures error.Some? ==> error.value == BadRequest(PasscodeInUse)
  {
    var employees := db.employees;
    for i := 0 to |employees|
      invariant forall k :: 0 <= k < i ==> !ClashesWith(kdf, propertyId, passcode, exclude, employees[k])
    {
      if ClashesWith(kdf, propertyId, passcode, exclude, employees[i]) {
        return Some(BadRequest(PasscodeInUse));
      }
    }
    return None;
  }

  /** The body `createForProperty` accepts; `null` and a left-out field are both `None`. */
  datatype CreateData = CreateData(
    firstName: string, lastName: string, passcode: string,
    email: Option<string>, phone: Option<string>, payType: Option<string>, status: Option<string>,
    payAmountCents: Option<int>)

  /** The row `createForProperty` inserts, with the defaults for fields left out. */
  function NewEmployee(id: string, propertyId: string, data: CreateData, passcodeHash: string): Employee {
    Employee(
      id, propertyId, data.firstName, data.lastName, None, None, passcodeHash,
      false, data.status.GetOr("active"), data.payType.GetOr("hourly"), data.payAmountCents,
      data.email, data.phone)
  }

  /** `createForProperty`: refuses a malformed passcode, then one already in use in the property;
      otherwise inserts the employee and its first pay-history row. `salt` stands for the random salt and
      `newId` for the id the database generates. */
  method CreateForProperty(db: Store, kdf: Kdf, salt: seq<byte>, propertyId: string, data: CreateData, newId: string)
    returns (r: Result<Employee, HttpError>)
    requires |salt| == SaltLength
    requires forall e :: e in db.employees ==> e.id != newId
    modifies db`employees, db`payHistory
    ensures !ValidatePasscode(data.passcode) ==> r == Err(BadRequest(PasscodeFormat))
    ensures ValidatePasscode(data.passcode) && Clash(old(db.employees), kdf, propertyId, data.passcode, None)
      ==> r == Err(BadRequest(PasscodeInUse))
    ensures r.Err? ==> db.employees == old(db.employees) && db.payHistory == old(db.payHistory)
    ensures r.Ok? <==> ValidatePasscode(data.passcode) && !Clash(old(db.employees), kdf, propertyId, data.passcode, None)
    ensures r.Ok? ==>
      && r.value == NewEmployee(newId, propertyId, data, HashPasscode(kdf, data.passcode, salt))
      && db.employees == old(db.employees) + [r.value]
      && db.payHistory == old(db.payHistory) + [PayHistory(newId, r.value.payAmountCents, r.value.payType)]
  {
    if !ValidatePasscode(data.passcode) {
      return Err(BadRequest(PasscodeFormat));
    }
    var clash := EnsureUniquePasscode(db, kdf, propertyId, data.passcode, None);
    if clash.Some? {
      return Err(clash.value);
    }
    var hashed := HashPasscode(kdf, data.passcode, salt);
    var initialPayType := data.payType.GetOr("hourly");
    var created := NewEmployee(newId, propertyId, data, hashed);
    db.employees := db.employees + [created];
    db.payHistory := db.payHistory + [PayHistory(created.id, data.payAmountCents, initialPayType)];
    return Ok(created);
  }

  /** A created employee is not an admin, has no plaintext passcode, takes "hourly" and "active" when
      pay type and status are left out, keeps every given field, and its stored hash verifies the
      passcode it was created with. */
  lemma CreateDefaults(id: string, propertyId: string, data: CreateData, kdf: Kdf, salt: seq<byte>)
    requires |salt| == SaltLength && |kdf(data.passcode, HexEncode(salt))| == KeyLength
    ensures var e := NewEmployee(id, propertyId, data, HashPasscode(kdf, data.passcode, salt));
      && !e.isAdmin && e.passcode.None? && e.id == id && e.propertyId == propertyId
      && e.firstName == data.firstName && e.lastName == data.lastName
      && (data.payType.None? ==> e.payType == "hourly") && (data.payType.Some? ==> e.payType == data.payType.value)
      && (data.status.None? ==> e.status == "active") && (data.status.Some? ==> e.status == data.status.value)
      && e.email == data.email && e.phone == data.phone && e.payAmountCents == data.payAmountCents
      && VerifyPasscode(kdf, data.passcode, e.passcodeHash)
  {
    HashThenVerify(kdf, data.passcode, salt);
  }

  /** Once an employee is created with a passcode, the same passcode is in use in that property. */
  lemma CreatedPasscodeClashes(employees: seq<Employee>, id: string, propertyId: string, data: CreateData,
                               kdf: Kdf, salt: seq<byte>)
    requires |salt| == SaltLength && |kdf(data.passcode, HexEncode(salt))| == KeyLength
    ensures Clash(employees + [NewEmployee(id, propertyId, data, HashPasscode(kdf, data.passcode, salt))],
                  kdf, propertyId, data.passcode, None)
  {
    var e := NewEmployee(id, propertyId, data, HashPasscode(kdf, data.passcode, salt));
    CreateDefaults(id, propertyId, data, kdf, salt);
    assert e in employees + [e];
  }

  /** The body `updateForProperty` accepts: each field left out (`Absent`), `null`, or given. */
  datatype UpdateData = UpdateData(
    firstName: Field<string>, lastName: Field<string>, email: Field<string>, phone: Field<string>,
    payType: Field<string>, status: Field<string>, payAmountCents: Field<int>, passcode: Field<string>)

  /** The `updateData` dictionary: a field is present (`Some`) when the update writes it. */
  datatype Patch = Patch(
    firstName: Option<string>, lastName: Option<string>,
    email: Option<Option<string>>, phone: Option<Option<string>>, status: Option<string>,
    passcodeHash: Option<string>, payType: Option<string>, payAmountCents: Option<Option<int>>)

  predicate IsEmpty(p: Patch) {
    p.firstName.None? && p.lastName.None? && p.email.None? && p.phone.None? && p.status.None?
    && p.passcodeHash.None? && p.payType.None? && p.payAmountCents.None?
  }

  /** `employee.update({ data: updateData })`: the present fields overwrite the row's. */
  function Apply(row: Employee, p: Patch): Employee {
    row.(
      firstName := p.firstName.GetOr(row.firstName),
      lastName := p.lastName.GetOr(row.lastName),
      email := p.email.GetOr(row.email),
      phone := p.phone.GetOr(row.phone),
      status := p.status.GetOr(row.status),
      passcodeHash := p.passcodeHash.GetOr(row.passcodeHash),
      payType := p.payType.GetOr(row.payType),
      payAmountCents := p.payAmountCents.GetOr(row.payAmountCents))
  }

  /** The value a field ends up with, one rule per kind of field. `??`: a given value wins, `null`
      and left-out keep the current one. */
  function GivenOr(f: Field<string>, current: string): string {
    if f.Given? then f.value else current
  }

  /** `|| null`: left out keeps the current value; `null` and the empty string clear it. */
  function GivenOrCleared(f: Field<string>, current: Option<string>): Option<string> {
    match f
    case Absent => current
    case Null => None
    case Given(v) => if v == "" then None else Some(v)
  }

  /** `|| existing`: only a non-empty given value replaces the current one. */
  function NonEmptyOr(f: Field<string>, current: string): string {
    if f.Given? && f.value != "" then f.value else current
  }

  /** `?? null` on the amount: left out keeps it, `null` clears it. */
  function AmountAfter(f: Field<int>, current: Option<int>): Option<int> {
    match f
    case Absent => current
    case Null => None
    case Given(v) => Some(v)
  }

  /** The row after a successful update, field by field; `newHash` is the hash of a given passcode. */
  function UpdatedRow(existing: Employee, data: UpdateData, newHash: Option<string>): Employee {
    existing.(
      firstName := GivenOr(data.firstName, existing.firstName),
      lastName := GivenOr(data.lastName, existing.lastName),
      email := GivenOrCleared(data.email, existing.email),
      phone := GivenOrCleared(data.phone, existing.phone),
      status := NonEmptyOr(data.status, existing.status),
      passcodeHash := newHash.GetOr(existing.passcodeHash),
      payType := GivenOr(data.payType, existing.payType),
      payAmountCents := AmountAfter(data.payAmountCents, existing.payAmountCents))
  }

  /** The pay type or the amount really changes. */
  predicate PayChanged(existing: Employee, data: UpdateData) {
    GivenOr(data.payType, existing.payType) != existing.payType
    || AmountAfter(data.payAmountCents, existing.payAmountCents) != existing.payAmountCents
  }

  /** The field-by-field part of `updateForProperty`: fills `updateData`, sets the change flags and the
      values the pay-history row will hold. */
  method BuildUpdate(existing: Employee, data: UpdateData, newHash: Option<string>)
    returns (patch: Patch, payChanged: bool, nextPayType: string, nextPayAmount: Option<int>)
    requires newHash.Some? <==> !data.passcode.Absent?
    ensures Apply(existing, patch) == UpdatedRow(existing, data, newHash)
    ensures payChanged == PayChanged(existing, data)
    ensures nextPayType == UpdatedRow(existing, data, newHash).payType
    ensures nextPayAmount == UpdatedRow(existing, data, newHash).payAmountCents
    ensures IsEmpty(patch) <==>
      && data.firstName.Absent? && data.lastName.Absent? && data.email.Absent?
      && data.phone.Absent? && data.status.Absent? && data.passcode.Absent? && data.payType.Absent?
      && AmountAfter(data.payAmountCents, existing.payAmountCents) == existing.payAmountCents
  {
    var profile := ProfileFields(existing, data, newHash);
    patch, payChanged, nextPayType, nextPayAmount := PayFields(existing, data, profile);
    PatchFields(existing, patch, data, newHash);
  }

  /** Name, contact, status and passcode entries of `updateData`. */
  method ProfileFields(existing: Employee, data: UpdateData, newHash: Option<string>) returns (patch: Patch)
    requires newHash.Some? <==> !data.passcode.Absent?
    ensures patch.firstName.GetOr(existing.firstName) == GivenOr(data.firstName, existing.firstName)
    ensures patch.lastName.GetOr(existing.lastName) == GivenOr(data.lastName, existing.lastName)
    ensures patch.email.GetOr(existing.email) == GivenOrCleared(data.email, existing.email)
    ensures patch.phone.GetOr(existing.phone) == GivenOrCleared(data.phone, existing.phone)
    ensures patch.status.GetOr(existing.status) == NonEmptyOr(data.status, existing.status)
    ensures patch.passcodeHash.GetOr(existing.passcodeHash) == newHash.GetOr(existing.passcodeHash)
    ensures patch.firstName.None? <==> data.firstName.Absent?
    ensures patch.lastName.None? <==> data.lastName.Absent?
    ensures patch.email.None? <==> data.email.Absent?
    ensures patch.phone.None? <==> data.phone.Absent?
    ensures patch.status.None? <==> data.status.Absent?
    ensures patch.passcodeHash.None? <==> data.passcode.Absent?
    ensures patch.payType.None? && patch.payAmountCents.None?
  {
    var firstName := NameEntry(data.firstName, existing.firstName);
    var lastName := NameEntry(data.lastName, existing.lastName);
    var email := ContactEntry(data.email);
    var phone := ContactEntry(data.phone);
    var status := StatusEntry(data.status, existing.status);
    patch := Patch(firstName, lastName, email, phone, status, newHash, None, None);
  }

  /** A name entry: present when the key is sent, `null` falling back to the current name. */
  method NameEntry(f: Field<string>, current: string) returns (entry: Option<string>)
    ensures entry.None? <==> f.Absent?
    ensures entry.GetOr(current) == GivenOr(f, current)
  {
    entry := None;
    if !f.Absent? {
      entry := Some(if f.Given? then f.value else current);
    }
  }

  /** An e-mail or phone entry: present when the key is sent, `null` and the empty string clearing it. */
  method ContactEntry(f: Field<string>) returns (entry: Option<Option<string>>)
    ensures entry.None? <==> f.Absent?
    ensures forall current :: entry.GetOr(current) == GivenOrCleared(f, current)
  {
    entry := None;
    if !f.Absent? {
      entry := Some(if f.Given? && f.value != "" then Some(f.value) else None);
    }
  }

  /** A status entry: present when the key is sent, only a non-empty value replacing the current one. */
  method StatusEntry(f: Field<string>, current: string) returns (entry: Option<string>)
    ensures entry.None? <==> f.Absent?
    ensures entry.GetOr(current) == NonEmptyOr(f, current)
  {
    entry := None;
    if !f.Absent? {
      entry := Some(if f.Given? && f.value != "" then f.value else current);
    }
  }

  /** Pay type and amount entries of `updateData`, the change flags, and the next pay values. */
  method PayFields(existing: Employee, data: UpdateData, profile: Patch)
    returns (patch: Patch, payChanged: bool, nextPayType: string, nextPayAmount: Option<int>)
    requires profile.payType.None? && profile.payAmountCents.None?
    ensures patch == profile.(payType := patch.payType, payAmountCents := patch.payAmountCents)
    ensures patch.payType.GetOr(existing.payType) == GivenOr(data.payType, existing.payType)
    ensures patch.payAmountCents.GetOr(existing.payAmountCents) == AmountAfter(data.payAmountCents, existing.payAmountCents)
    ensures patch.payType.None? <==> data.payType.Absent?
    ensures patch.payAmountCents.None? <==> AmountAfter(data.payAmountCents, existing.payAmountCents) == existing.payAmountCents
    ensures payChanged == PayChanged(existing, data)
    ensures nextPayType == GivenOr(data.payType, existing.payType)
    ensures nextPayAmount == AmountAfter(data.payAmountCents, existing.payAmountCents)
  {
    var payType: Option<string> := None;
    var payAmountCents: Option<Option<int>> := None;
    var payTypeChanged := false;
    nextPayType := existing.payType;
    if !data.payType.Absent? {
      var normalized := if data.payType.Given? then data.payType.value else existing.payType;
      payType := Some(normalized);
      if normalized != existing.payType {
        payTypeChanged := true;
      }
      nextPayType := normalized;
    }
    var payAmountChanged := false;
    nextPayAmount := existing.payAmountCents;
    if !data.payAmountCents.Absent? {
      var normalized := if data.payAmountCents.Given? then Some(data.payAmountCents.value) else None;
      if normalized != existing.payAmountCents {
        payAmountCents := Some(normalized);
        payAmountChanged := true;
        nextPayAmount := normalized;
      }
    }
    if !payAmountChanged {
      nextPayAmount := existing.payAmountCents;
    }
    payChanged := payAmountChanged || payTypeChanged;
    patch := profile.(payType := payType, payAmountCents := payAmountCents);
  }

  lemma PatchFields(existing: Employee, patch: Patch, data: UpdateData, newHash: Option<string>)
    requires patch.firstName.GetOr(existing.firstName) == GivenOr(data.firstName, existing.firstName)
    requires patch.lastName.GetOr(existing.lastName) == GivenOr(data.lastName, existing.lastName)
    requires patch.email.GetOr(existing.email) == GivenOrCleared(data.email, existing.email)
    requires patch.phone.GetOr(existing.phone) == GivenOrCleared(data.phone, existing.phone)
    requires patch.status.GetOr(existing.status) == NonEmptyOr(data.status, existing.status)
    requires patch.passcodeHash.GetOr(existing.passcodeHash) == newHash.GetOr(existing.passcodeHash)
    requires patch.payType.GetOr(existing.payType) == GivenOr(data.payType, existing.payType)
    requires patch.payAmountCents.GetOr(existing.payAmountCents) == AmountAfter(data.payAmountCents, existing.payAmountCents)
    ensures Apply(existing, patch) == UpdatedRow(existing, data, newHash)
  {
  }

  /** `employee.findFirst({ where: { id, propertyId } })`, as a row position. */
  function IndexOfEmployee(employees: seq<Employee>, propertyId: string, id: string): (r: Option<nat>)
    ensures r.Some? ==> r.value < |employees| && employees[r.value].id == id && employees[r.value].propertyId == propertyId
    ensures r.None? <==> forall e :: e in employees ==> !(e.id == id && e.propertyId == propertyId)
  {
    if employees == [] then None
    else
      var last := |employees| - 1;
      match IndexOfEmployee(employees[..last], propertyId, id)
      case Some(i) => Some(i)
      case None =>
        assert employees == employees[..last] + [employees[last]];
        if employees[last].id == id && employees[last].propertyId == propertyId then Some(last) else None
  }

  /** The error `updateForProperty` answers, in the source's order, or none. */
  function UpdateError(employees: seq<Employee>, kdf: Kdf, propertyId: string, employeeId: string, data: UpdateData)
    : Option<HttpError>
  {
    if IndexOfEmployee(employees, propertyId, employeeId).None? then Some(NotFound(EmployeeNotFound))
    else if data.passcode.Null? || data.passcode == Given("") then Some(BadRequest(PasscodeEmpty))
    else if data.passcode.Given? && !ValidatePasscode(data.passcode.value) then Some(BadRequest(PasscodeFormat))
    else if data.passcode.Given? && Clash(employees, kdf, propertyId, data.passcode.value, Some(employeeId))
    then Some(BadRequest(PasscodeInUse))
    else None
  }

  /** `updateForProperty`: the employee must belong to the property; a given passcode must be non-empty,
      4 digits and not in use by another employee of the property. Then the row gets `UpdatedRow`
      (written only when `updateData` is non-empty) and a pay-history row is added exactly when the pay
      changed. `salt` stands for the random salt of a new passcode hash. */
  method UpdateForProperty(db: Store, kdf: Kdf, salt: seq<byte>, propertyId: string, employeeId: string, data: UpdateData)
    returns (r: Result<Employee, HttpError>)
    requires |salt| == SaltLength
    modifies db`employees, db`payHistory
    ensures r.Err? <==> UpdateError(old(db.employees), kdf, propertyId, employeeId, data).Some?
    ensures r.Err? ==> r.error == UpdateError(old(db.employees), kdf, propertyId, employeeId, data).value
    ensures r.Err? ==> db.employees == old(db.employees) && db.payHistory == old(db.payHistory)
    ensures r.Ok? ==>
      var i := IndexOfEmployee(old(db.employees), propertyId, employeeId).value;
      var existing := old(db.employees)[i];
      var newHash := if data.passcode.Given? then Some(HashPasscode(kdf, data.passcode.value, salt)) else None;
      && r.value == UpdatedRow(existing, data, newHash)
      && db.employees == old(db.employees)[i := r.value]
      && db.payHistory == old(db.payHistory)
           + (if PayChanged(existing, data) then [PayHistory(employeeId, r.value.payAmountCents, r.value.payType)] else [])
  {
    var found := IndexOfEmployee(db.employees, propertyId, employeeId);
    if found.None? {
      return Err(NotFound(EmployeeNotFound));
    }
    var i := found.value;
    var existing := db.employees[i];
    var newHash: Option<string> := None;
    if !data.passcode.Absent? {
      if data.passcode.Null? || data.passcode.value == "" {
        return Err(BadRequest(PasscodeEmpty));
      }
      if !ValidatePasscode(data.passcode.value) {
        return Err(BadRequest(PasscodeFormat));
      }
      var clash := EnsureUniquePasscode(db, kdf, propertyId, data.passcode.value, Some(employeeId));
      if clash.Some? {
        return Err(clash.value);
      }
      newHash := Some(HashPasscode(kdf, data.passcode.value, salt));
    }
    var patch, payChanged, nextPayType, nextPayAmount := BuildUpdate(existing, data, newHash);
    if !IsEmpty(patch) {
      db.employees := db.employees[i := Apply(existing, patch)];
    } else {
      assert db.employees[i := Apply(existing, patch)] == db.employees;
    }
    if payChanged {
      db.payHistory := db.payHistory + [PayHistory(employeeId, nextPayAmount, nextPayType)];
    }
    return Ok(Apply(existing, patch));
  }

  /** A pay-history row is due exactly when the resulting pay type or amount differs from the stored one. */
  lemma PayChangedIff(existing: Employee, data: UpdateData, newHash: Option<string>)
    ensures PayChanged(existing, data) <==>
      UpdatedRow(existing, data, newHash).payType != existing.payType
      || UpdatedRow(existing, data, newHash).payAmountCents != existing.payAmountCents
  {
  }

  /** Resending the stored pay type and amount, or leaving both out, adds no pay-history row. */
  lemma SamePayNoHistory(existing: Employee, data: UpdateData)
    requires data.payType.Absent? || data.payType == Given(existing.payType)
    requires data.payAmountCents.Absent? || (existing.payAmountCents.Some? && data.payAmountCents == Given(existing.payAmountCents.value))
      || (existing.payAmountCents.None? && data.payAmountCents.Null?)
    ensures !PayChanged(existing, data)
  {
  }

  /** An update with every field left out changes nothing. */
  lemma EmptyUpdateKeepsRow(existing: Employee)
    ensures UpdatedRow(existing, UpdateData(Absent, Absent, Absent, Absent, Absent, Absent, Absent, Absent), None) == existing
    ensures !PayChanged(existing, UpdateData(Absent, Absent, Absent, Absent, Absent, Absent, Absent, Absent))
  {
  }

  /** Falsy email and phone clear the column; a falsy status keeps the stored one; a `null` name keeps
      the stored name; the row's id, property, admin flag and plaintext passcode never change. */
  lemma UpdateFieldRules(existing: Employee, data: UpdateData, newHash: Option<string>)
    ensures var row := UpdatedRow(existing, data, newHash);
      && (data.email.Null? || data.email == Given("") ==> row.email.None?)
      && (data.phone.Null? || data.phone == Given("") ==> row.phone.None?)
      && (data.status.Null? || data.status == Given("") ==> row.status == existing.status)
      && (data.firstName.Null? ==> row.firstName == existing.firstName)
      && (data.lastName.Null? ==> row.lastName == existing.lastName)
      && row.id == existing.id && row.propertyId == existing.propertyId
      && row.isAdmin == existing.isAdmin && row.passcode == existing.passcode
  {
  }

  /** Keeping one's own passcode on update is allowed: only other employees of the property are scanned. */
  lemma ResubmitOwnPasscode(employees: seq<Employee>, kdf: Kdf, propertyId: string, employeeId: string, data: UpdateData)
    requires employeeId != ""
    requires IndexOfEmployee(employees, propertyId, employeeId).Some?
    requires data.passcode.Given? && ValidatePasscode(data.passcode.value)
    requires forall e ::
      e in employees && e.propertyId == propertyId && VerifyPasscode(kdf, data.passcode.value, e.passcodeHash) ==> e.id == employeeId
    ensures UpdateError(employees, kdf, propertyId, employeeId, data).None?
  {
  }
}

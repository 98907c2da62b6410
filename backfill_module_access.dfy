/** The module-access backfill script: for each property it inserts the module rows the property lacks,
    then, for each admin of the property, the employee-module rows that admin lacks. The wanted list is
    `ensureBaseModules(ALL_MODULE_KEYS)`; what is inserted is that list minus what is already held. */
module BackfillModuleAccess {
  import opened Wrappers
  import opened Db
  import opened ModuleKeys

  /** The module list every property and every admin should hold. */
  function Desired(): seq<string> {
    Merged(AllModuleKeys)
  }

  /** The wanted list is the six keys in their usual order, base key first, none repeated. */
  lemma DesiredFacts()
    ensures Desired() == AllModuleKeys
    ensures NoDuplicates(Desired()) && Desired()[0] == BaseModuleKey
  {
    MergedAllIsAll();
    AlphabetFacts(NonString);
  }

  /** The keys the property `propertyId` holds in the property-module table. */
  function PropertyKeys(rows: seq<PropertyModule>, propertyId: string): set<string> {
    set r | r in rows && r.propertyId == propertyId :: r.moduleKey
  }

  /** The keys the employee `employeeId` holds in the employee-module table. */
  function EmployeeKeys(rows: seq<EmployeeModule>, employeeId: string): set<string> {
    set r | r in rows && r.employeeId == employeeId :: r.moduleKey
  }

  /** `desired.filter((module) => !existingSet.has(module))`. */
  function Missing(desired: seq<string>, held: set<string>): (r: seq<string>)
    ensures forall k :: k in r <==> k in desired && k !in held
    ensures |r| <= |desired|
    decreases |desired|
  {
    if desired == [] then []
    else
      var last := desired[|desired| - 1];
      var prev := Missing(desired[..|desired| - 1], held);
      assert desired == desired[..|desired| - 1] + [last];
      if last !in held then prev + [last] else prev
  }

  /** Nothing is missing exactly when every wanted key is held. */
  lemma MissingEmptyIff(desired: seq<string>, held: set<string>)
    ensures Missing(desired, held) == [] <==> forall k :: k in desired ==> k in held
  {
    var r := Missing(desired, held);
    if r != [] {
      assert r[0] in r;
    }
  }

  /** The filter keeps the order of the wanted list: it works piece by piece. */
  lemma {:induction false} MissingAppend(a: seq<string>, b: seq<string>, held: set<string>)
    ensures Missing(a + b, held) == Missing(a, held) + Missing(b, held)
    decreases |b|
  {
    if b == [] {
      assert a + b == a;
    } else {
      var init, x := b[..|b| - 1], b[|b| - 1];
      var tail := if x !in held then [x] else [];
      MissingAppend(a, init, held);
      assert (a + b)[..|a + b| - 1] == a + init && (a + b)[|a + b| - 1] == x;
      assert Missing(a + b, held) == Missing(a + init, held) + tail;
      assert Missing(b, held) == Missing(init, held) + tail;
    }
  }

  /** The filter of a list without repeats has no repeats, so no inserted row duplicates another. */
  lemma {:induction false} MissingNoDuplicates(desired: seq<string>, held: set<string>)
    requires NoDuplicates(desired)
    ensures NoDuplicates(Missing(desired, held))
    decreases |desired|
  {
    if desired != [] {
      var init := desired[..|desired| - 1];
      assert NoDuplicates(init) by {
        assert forall i :: 0 <= i < |init| ==> init[i] == desired[i];
      }
      MissingNoDuplicates(init, held);
      assert desired[|desired| - 1] !in init;
    }
  }

  // ---------------------------------------------------------------------------------------------
  // backfillPropertyModules

  /** The rows `createMany` inserts for a property. */
  function PropertyRows(propertyId: string, keys: seq<string>): (r: seq<PropertyModule>)
    ensures |r| == |keys| && forall i :: 0 <= i < |keys| ==> r[i] == PropertyModule(propertyId, keys[i])
  {
    seq(|keys|, i requires 0 <= i < |keys| => PropertyModule(propertyId, keys[i]))
  }

  /** The property-module table after `backfillPropertyModules(propertyId)` with wanted list `desired`. */
  function PropertyBackfilled(rows: seq<PropertyModule>, desired: seq<string>, propertyId: string): seq<PropertyModule> {
    var missing := Missing(desired, PropertyKeys(rows, propertyId));
    if |missing| > 0 then rows + PropertyRows(propertyId, missing) else rows
  }

  /** Inserting rows for one property adds their keys to that property and to no other. */
  lemma PropertyKeysAppend(rows: seq<PropertyModule>, propertyId: string, keys: seq<string>, other: string)
    ensures PropertyKeys(rows + PropertyRows(propertyId, keys), other)
      == PropertyKeys(rows, other) + (if other == propertyId then set k | k in keys else {})
  {
    var added := PropertyRows(propertyId, keys);
    forall k | k in keys && other == propertyId
      ensures k in PropertyKeys(rows + added, other)
    {
      var i :| 0 <= i < |keys| && keys[i] == k;
      assert added[i] in rows + added;
    }
  }

  /** Afterwards the property holds every wanted key. */
  lemma PropertyBackfillComplete(rows: seq<PropertyModule>, desired: seq<string>, propertyId: string)
    ensures forall k :: k in desired ==> k in PropertyKeys(PropertyBackfilled(rows, desired, propertyId), propertyId)
  {
    var missing := Missing(desired, PropertyKeys(rows, propertyId));
    PropertyKeysAppend(rows, propertyId, missing, propertyId);
  }

  /** Pre-existing rows stay in place as a prefix, and no other property's keys change. */
  lemma PropertyBackfillKeepsOthers(rows: seq<PropertyModule>, desired: seq<string>, propertyId: string, other: string)
    requires other != propertyId
    ensures rows <= PropertyBackfilled(rows, desired, propertyId)
    ensures PropertyKeys(PropertyBackfilled(rows, desired, propertyId), other) == PropertyKeys(rows, other)
  {
    var missing := Missing(desired, PropertyKeys(rows, propertyId));
    PropertyKeysAppend(rows, propertyId, missing, other);
  }

  /** The inserted rows are new and distinct, so `skipDuplicates` never has anything to skip. */
  lemma PropertyBackfillAddsNoDuplicate(rows: seq<PropertyModule>, desired: seq<string>, propertyId: string)
    requires NoDuplicates(desired)
    ensures var added := PropertyRows(propertyId, Missing(desired, PropertyKeys(rows, propertyId)));
      (forall r :: r in added ==> r !in rows)
      && forall i, j :: 0 <= i < j < |added| ==> added[i] != added[j]
  {
    var missing := Missing(desired, PropertyKeys(rows, propertyId));
    MissingNoDuplicates(desired, PropertyKeys(rows, propertyId));
    var added := PropertyRows(propertyId, missing);
    forall r | r in added ensures r !in rows {
      var i :| 0 <= i < |added| && added[i] == r;
      assert r.moduleKey == missing[i] && r.propertyId == propertyId;
      assert missing[i] !in PropertyKeys(rows, propertyId);
    }
  }

  /** Backfilling only appends to the table. */
  lemma PropertyBackfillGrows(rows: seq<PropertyModule>, desired: seq<string>, propertyId: string)
    ensures rows <= PropertyBackfilled(rows, desired, propertyId)
  {
    var missing := Missing(desired, PropertyKeys(rows, propertyId));
    if |missing| > 0 {
      assert PropertyBackfilled(rows, desired, propertyId) == rows + PropertyRows(propertyId, missing);
    }
  }

  /** A second run finds nothing missing and leaves the table as it is. */
  lemma PropertyBackfillIdempotent(rows: seq<PropertyModule>, desired: seq<string>, propertyId: string)
    ensures var after := PropertyBackfilled(rows, desired, propertyId);
      Missing(desired, PropertyKeys(after, propertyId)) == [] && PropertyBackfilled(after, desired, propertyId) == after
  {
    var after := PropertyBackfilled(rows, desired, propertyId);
    PropertyBackfillComplete(rows, desired, propertyId);
    MissingEmptyIff(desired, PropertyKeys(after, propertyId));
  }

  /** `backfillPropertyModules`: insert the wanted keys the property lacks (nothing when it lacks none)
      and return them. */
  method BackfillPropertyModules(db: Store, propertyId: string) returns (missing: seq<string>)
    modifies db`propertyModules
    ensures missing == Missing(Desired(), PropertyKeys(old(db.propertyModules), propertyId))
    ensures db.propertyModules == PropertyBackfilled(old(db.propertyModules), Desired(), propertyId)
  {
    var desired := Desired();
    var existingSet := PropertyKeys(db.propertyModules, propertyId);
    missing := Missing(desired, existingSet);
    if |missing| > 0 {
      db.propertyModules := db.propertyModules + PropertyRows(propertyId, missing);
    }
  }

  // ---------------------------------------------------------------------------------------------
  // backfillAdminModules

  /** `employee.findMany({ where: { propertyId, isAdmin: true } })`, in table order. */
  function AdminsOf(employees: seq<Employee>, propertyId: string): (r: seq<Employee>)
    ensures forall e :: e in r <==> e in employees && e.propertyId == propertyId && e.isAdmin
    ensures |r| <= |employees|
    decreases |employees|
  {
    if employees == [] then []
    else
      var last := employees[|employees| - 1];
      var prev := AdminsOf(employees[..|employees| - 1], propertyId);
      assert employees == employees[..|employees| - 1] + [last];
      if last.propertyId == propertyId && last.isAdmin then prev + [last] else prev
  }

  /** The rows `createMany` inserts for one admin. */
  function EmployeeRows(employeeId: string, keys: seq<string>): (r: seq<EmployeeModule>)
    ensures |r| == |keys| && forall i :: 0 <= i < |keys| ==> r[i] == EmployeeModule(employeeId, keys[i])
  {
    seq(|keys|, i requires 0 <= i < |keys| => EmployeeModule(employeeId, keys[i]))
  }

  /** The rows inserted for `admins`, each admin's missing keys worked out from the modules it held when
      the admins were read (`rows`). */
  function Grants(rows: seq<EmployeeModule>, desired: seq<string>, admins: seq<Employee>): seq<EmployeeModule>
    decreases |admins|
  {
    if admins == [] then []
    else
      var admin := admins[|admins| - 1];
      Grants(rows, desired, admins[..|admins| - 1]) + AdminRows(rows, desired, admin)
  }

  /** The rows one admin is granted: the wanted keys it did not hold when the admins were read. */
  function AdminRows(held: seq<EmployeeModule>, desired: seq<string>, admin: Employee): seq<EmployeeModule> {
    EmployeeRows(admin.id, Missing(desired, EmployeeKeys(held, admin.id)))
  }

  /** The grants for one more admin are the earlier grants followed by that admin's rows. */
  lemma GrantsSnoc(held: seq<EmployeeModule>, desired: seq<string>, admins: seq<Employee>, i: nat)
    requires i < |admins|
    ensures Grants(held, desired, admins[..i + 1]) == Grants(held, desired, admins[..i]) + AdminRows(held, desired, admins[i])
  {
    assert admins[..i + 1][..i] == admins[..i];
  }

  /** Appending a batch only when it is non-empty is appending it. */
  lemma AppendIfNonEmpty<T>(current: seq<T>, held: seq<T>, before: seq<T>, rows: seq<T>, after: seq<T>)
    requires current == held + before && after == before + rows
    ensures (if |rows| == 0 then current else current + rows) == held + after
  {
    if |rows| == 0 {
      assert after == before;
    }
  }

  /** One turn of the admin loop: the table with the earlier grants, plus this admin's rows when it lacks
      any key, is the table with the grants up to and including this admin. */
  lemma GrantsStep(held: seq<EmployeeModule>, desired: seq<string>, admins: seq<Employee>, i: nat, current: seq<EmployeeModule>)
    requires i < |admins| && current == held + Grants(held, desired, admins[..i])
    ensures var rows := AdminRows(held, desired, admins[i]);
      (if |rows| == 0 then current else current + rows) == held + Grants(held, desired, admins[..i + 1])
  {
    GrantsSnoc(held, desired, admins, i);
    AppendIfNonEmpty(current, held, Grants(held, desired, admins[..i]), AdminRows(held, desired, admins[i]),
                     Grants(held, desired, admins[..i + 1]));
  }

  predicate IsAdminId(admins: seq<Employee>, employeeId: string) {
    exists a :: a in admins && a.id == employeeId
  }

  /** Inserting rows for one employee adds their keys to that employee and to no other. */
  lemma EmployeeKeysAppend(rows: seq<EmployeeModule>, employeeId: string, keys: seq<string>, other: string)
    ensures EmployeeKeys(rows + EmployeeRows(employeeId, keys), other)
      == EmployeeKeys(rows, other) + (if other == employeeId then set k | k in keys else {})
  {
    var added := EmployeeRows(employeeId, keys);
    forall k | k in keys && other == employeeId
      ensures k in EmployeeKeys(rows + added, other)
    {
      var i :| 0 <= i < |keys| && keys[i] == k;
      assert added[i] in rows + added;
    }
  }

  /** After the grants, an admin of the list holds its old keys and every wanted key; anyone else holds
      exactly its old keys. */
  lemma {:induction false} GrantsKeys(rows: seq<EmployeeModule>, desired: seq<string>, admins: seq<Employee>,
                                      extra: seq<EmployeeModule>, employeeId: string)
    ensures EmployeeKeys(extra + Grants(rows, desired, admins), employeeId)
      == EmployeeKeys(extra, employeeId)
         + (if IsAdminId(admins, employeeId) then set k | k in desired && k !in EmployeeKeys(rows, employeeId) else {})
    decreases |admins|
  {
    if admins != [] {
      var init := admins[..|admins| - 1];
      var admin := admins[|admins| - 1];
      var missing := Missing(desired, EmployeeKeys(rows, admin.id));
      GrantsKeys(rows, desired, init, extra, employeeId);
      assert extra + Grants(rows, desired, admins) == (extra + Grants(rows, desired, init)) + EmployeeRows(admin.id, missing);
      EmployeeKeysAppend(extra + Grants(rows, desired, init), admin.id, missing, employeeId);
      assert IsAdminId(admins, employeeId) <==> IsAdminId(init, employeeId) || admin.id == employeeId by {
        assert admins == init + [admin];
      }
    }
  }

  /** Each admin of the property ends up holding every wanted key. */
  lemma AdminBackfillComplete(rows: seq<EmployeeModule>, desired: seq<string>, admins: seq<Employee>, admin: Employee)
    requires admin in admins
    ensures forall k :: k in desired ==> k in EmployeeKeys(rows + Grants(rows, desired, admins), admin.id)
  {
    GrantsKeys(rows, desired, admins, rows, admin.id);
  }

  /** An employee who is not one of the admins gains no module. */
  lemma AdminBackfillOnlyAdmins(rows: seq<EmployeeModule>, desired: seq<string>, admins: seq<Employee>, employeeId: string)
    requires !IsAdminId(admins, employeeId)
    ensures EmployeeKeys(rows + Grants(rows, desired, admins), employeeId) == EmployeeKeys(rows, employeeId)
  {
    GrantsKeys(rows, desired, admins, rows, employeeId);
  }

  /** When every admin already holds every wanted key there is nothing to insert. */
  lemma {:induction false} GrantsEmpty(rows: seq<EmployeeModule>, desired: seq<string>, admins: seq<Employee>)
    requires forall a, k :: a in admins && k in desired ==> k in EmployeeKeys(rows, a.id)
    ensures Grants(rows, desired, admins) == []
    decreases |admins|
  {
    if admins != [] {
      var admin := admins[|admins| - 1];
      GrantsEmpty(rows, desired, admins[..|admins| - 1]);
      MissingEmptyIff(desired, EmployeeKeys(rows, admin.id));
    }
  }

  /** A second run over the same admins inserts nothing. */
  lemma AdminBackfillIdempotent(rows: seq<EmployeeModule>, desired: seq<string>, admins: seq<Employee>)
    ensures Grants(rows + Grants(rows, desired, admins), desired, admins) == []
  {
    forall a | a in admins {
      AdminBackfillComplete(rows, desired, admins, a);
    }
    GrantsEmpty(rows + Grants(rows, desired, admins), desired, admins);
  }

  /** `backfillAdminModules`: for each admin of the property, insert the wanted keys it lacks (skipping
      admins that lack none); returns how many admins there are. */
  method BackfillAdminModules(db: Store, propertyId: string) returns (adminCount: nat)
    modifies db`employeeModules
    ensures adminCount == |AdminsOf(db.employees, propertyId)|
    ensures db.employeeModules
      == old(db.employeeModules) + Grants(old(db.employeeModules), Desired(), AdminsOf(db.employees, propertyId))
  {
    var desired := Desired();
    var admins := AdminsOf(db.employees, propertyId);
    // the modules each admin held are read together with the admins, before any insert
    var held := db.employeeModules;
    for i := 0 to |admins|
      invariant admins == AdminsOf(db.employees, propertyId)
      invariant db.employeeModules == held + Grants(held, desired, admins[..i])
    {
      GrantsStep(held, desired, admins, i, db.employeeModules);
      var existingSet := EmployeeKeys(held, admins[i].id);
      var missing := Missing(desired, existingSet);
      if |missing| == 0 {
        continue;
      }
      db.employeeModules := db.employeeModules + EmployeeRows(admins[i].id, missing);
    }
    assert admins[..|admins|] == admins;
    adminCount := |admins|;
  }

  // ---------------------------------------------------------------------------------------------
  // The script's loop over properties

  predicate PropertyComplete(rows: seq<PropertyModule>, desired: seq<string>, propertyId: string) {
    forall k :: k in desired ==> k in PropertyKeys(rows, propertyId)
  }

  predicate EmployeeComplete(rows: seq<EmployeeModule>, desired: seq<string>, employeeId: string) {
    forall k :: k in desired ==> k in EmployeeKeys(rows, employeeId)
  }

  /** Every property of `propertyIds`, and every admin of one, holds every module of `desired`. */
  predicate Done(p: seq<PropertyModule>, e: seq<EmployeeModule>, employees: seq<Employee>, desired: seq<string>,
                 propertyIds: seq<string>) {
    && (forall j :: 0 <= j < |propertyIds| ==> PropertyComplete(p, desired, propertyIds[j]))
    && (forall j, a :: 0 <= j < |propertyIds| && a in AdminsOf(employees, propertyIds[j]) ==> EmployeeComplete(e, desired, a.id))
  }

  /** Backfilling one more property completes it and its admins, and takes nothing from those done before. */
  lemma DoneStep(p: seq<PropertyModule>, e: seq<EmployeeModule>, employees: seq<Employee>, desired: seq<string>,
                 propertyIds: seq<string>, propertyId: string)
    requires Done(p, e, employees, desired, propertyIds)
    ensures Done(PropertyBackfilled(p, desired, propertyId), e + Grants(e, desired, AdminsOf(employees, propertyId)),
                 employees, desired, propertyIds + [propertyId])
  {
    var p' := PropertyBackfilled(p, desired, propertyId);
    var admins := AdminsOf(employees, propertyId);
    var e' := e + Grants(e, desired, admins);
    var ids := propertyIds + [propertyId];
    PropertyBackfillComplete(p, desired, propertyId);
    assert p' == p + p'[|p|..];
    forall j | 0 <= j < |ids| ensures PropertyComplete(p', desired, ids[j]) {
      if j < |propertyIds| {
        assert ids[j] == propertyIds[j];
        assert PropertyKeys(p, ids[j]) <= PropertyKeys(p', ids[j]);
      }
    }
    forall j, a | 0 <= j < |ids| && a in AdminsOf(employees, ids[j]) ensures EmployeeComplete(e', desired, a.id) {
      if j < |propertyIds| {
        assert ids[j] == propertyIds[j];
        assert EmployeeKeys(e, a.id) <= EmployeeKeys(e', a.id);
      } else {
        AdminBackfillComplete(e, desired, admins, a);
      }
    }
  }

  /** One turn of the script's loop keeps the tables growing by appends and extends `Done` to one more property. */
  lemma BackfillAllStep(p0: seq<PropertyModule>, e0: seq<EmployeeModule>, p: seq<PropertyModule>, e: seq<EmployeeModule>,
                        employees: seq<Employee>, desired: seq<string>, propertyIds: seq<string>, i: nat,
                        p1: seq<PropertyModule>, e1: seq<EmployeeModule>)
    requires i < |propertyIds| && Done(p, e, employees, desired, propertyIds[..i]) && p0 <= p && e0 <= e
    requires p1 == PropertyBackfilled(p, desired, propertyIds[i])
    requires e1 == e + Grants(e, desired, AdminsOf(employees, propertyIds[i]))
    ensures Done(p1, e1, employees, desired, propertyIds[..i + 1]) && p0 <= p1 && e0 <= e1
  {
    DoneStep(p, e, employees, desired, propertyIds[..i], propertyIds[i]);
    SnocSlice(propertyIds, i);
    PropertyBackfillGrows(p, desired, propertyIds[i]);
    PrefixChain(p0, p, p1);
    PrefixChain(e0, e, e1);
  }

  lemma SnocSlice<T>(s: seq<T>, i: nat)
    requires i < |s|
    ensures s[..i] + [s[i]] == s[..i + 1]
  {
  }

  /** A prefix of a prefix is a prefix. */
  lemma PrefixChain<T>(a: seq<T>, b: seq<T>, c: seq<T>)
    requires a <= b && b <= c
    ensures a <= c
  {
    assert c[..|b|] == b;
    assert c[..|a|] == b[..|a|];
  }

  /** How many keys the script adds for the `j`-th listed property: what it lacked at the start, or nothing
      when it was listed before (and so already completed). */
  function AddedFor(p0: seq<PropertyModule>, desired: seq<string>, propertyIds: seq<string>, j: nat): nat
    requires j < |propertyIds|
  {
    if propertyIds[j] in propertyIds[..j] then 0 else |Missing(desired, PropertyKeys(p0, propertyIds[j]))|
  }

  /** Within the loop a property not listed so far still has its starting keys, so the keys the turn
      adds are `AddedFor`; afterwards only the properties listed so far have changed. */
  lemma BackfillAllCount(p0: seq<PropertyModule>, p: seq<PropertyModule>, e: seq<EmployeeModule>,
                         employees: seq<Employee>, desired: seq<string>, propertyIds: seq<string>, i: nat)
    requires i < |propertyIds| && Done(p, e, employees, desired, propertyIds[..i])
    requires forall pid :: pid !in propertyIds[..i] ==> PropertyKeys(p, pid) == PropertyKeys(p0, pid)
    ensures |Missing(desired, PropertyKeys(p, propertyIds[i]))| == AddedFor(p0, desired, propertyIds, i)
    ensures forall pid :: pid !in propertyIds[..i + 1] ==>
      PropertyKeys(PropertyBackfilled(p, desired, propertyIds[i]), pid) == PropertyKeys(p0, pid)
  {
    var pid := propertyIds[i];
    if pid in propertyIds[..i] {
      var j :| 0 <= j < i && propertyIds[..i][j] == pid;
      assert PropertyComplete(p, desired, propertyIds[..i][j]);
      MissingEmptyIff(desired, PropertyKeys(p, pid));
    }
    forall other | other !in propertyIds[..i + 1]
      ensures PropertyKeys(PropertyBackfilled(p, desired, pid), other) == PropertyKeys(p0, other)
    {
      assert propertyIds[..i + 1] == propertyIds[..i] + [pid];
      PropertyBackfillKeepsOthers(p, desired, pid, other);
    }
  }

  /** Recording one more turn's counts keeps both count lists matching their definitions. */
  lemma CountsStep(added: seq<nat>, n: nat, adminCounts: seq<nat>, adminCount: nat, p0: seq<PropertyModule>,
                   employees: seq<Employee>, desired: seq<string>, propertyIds: seq<string>, i: nat)
    requires i < |propertyIds| && |added| == i && |adminCounts| == i
    requires forall j :: 0 <= j < i ==> added[j] == AddedFor(p0, desired, propertyIds, j)
    requires forall j :: 0 <= j < i ==> adminCounts[j] == |AdminsOf(employees, propertyIds[j])|
    requires n == AddedFor(p0, desired, propertyIds, i) && adminCount == |AdminsOf(employees, propertyIds[i])|
    ensures forall j :: 0 <= j < i + 1 ==> (added + [n])[j] == AddedFor(p0, desired, propertyIds, j)
    ensures forall j :: 0 <= j < i + 1 ==> (adminCounts + [adminCount])[j] == |AdminsOf(employees, propertyIds[j])|
  {
    forall j | 0 <= j < i + 1 ensures (added + [n])[j] == AddedFor(p0, desired, propertyIds, j) {
      if j < i {
        assert (added + [n])[j] == added[j];
      }
    }
    forall j | 0 <= j < i + 1 ensures (adminCounts + [adminCount])[j] == |AdminsOf(employees, propertyIds[j])| {
      if j < i {
        assert (adminCounts + [adminCount])[j] == adminCounts[j];
      }
    }
  }

  /** The script: backfill each property in turn, recording how many keys it added and how many admins it
      updated. Afterwards every listed property, and every admin of one, holds every module. */
  method BackfillAll(db: Store, propertyIds: seq<string>) returns (added: seq<nat>, adminCounts: seq<nat>)
    modifies db`propertyModules, db`employeeModules
    ensures |added| == |propertyIds| && |adminCounts| == |propertyIds|
    ensures forall j :: 0 <= j < |propertyIds| ==> added[j] == AddedFor(old(db.propertyModules), Desired(), propertyIds, j)
    ensures forall j :: 0 <= j < |propertyIds| ==> adminCounts[j] == |AdminsOf(db.employees, propertyIds[j])|
    ensures Done(db.propertyModules, db.employeeModules, db.employees, Desired(), propertyIds)
    ensures old(db.propertyModules) <= db.propertyModules && old(db.employeeModules) <= db.employeeModules
  {
    added, adminCounts := [], [];
    var employees := db.employees;
    var desired := Desired();
    for i := 0 to |propertyIds|
      invariant db.employees == employees
      invariant |added| == i && |adminCounts| == i
      invariant forall j :: 0 <= j < i ==> added[j] == AddedFor(old(db.propertyModules), desired, propertyIds, j)
      invariant forall pid :: pid !in propertyIds[..i] ==>
        PropertyKeys(db.propertyModules, pid) == PropertyKeys(old(db.propertyModules), pid)
      invariant forall j :: 0 <= j < i ==> adminCounts[j] == |AdminsOf(employees, propertyIds[j])|
      invariant Done(db.propertyModules, db.employeeModules, employees, desired, propertyIds[..i])
      invariant old(db.propertyModules) <= db.propertyModules && old(db.employeeModules) <= db.employeeModules
    {
      var p, e := db.propertyModules, db.employeeModules;
      BackfillAllCount(old(db.propertyModules), p, e, employees, desired, propertyIds, i);
      var missing := BackfillPropertyModules(db, propertyIds[i]);
      var adminCount := BackfillAdminModules(db, propertyIds[i]);
      BackfillAllStep(old(db.propertyModules), old(db.employeeModules), p, e, employees, desired, propertyIds, i,
                      db.propertyModules, db.employeeModules);
      var n: nat := |missing|;
      CountsStep(added, n, adminCounts, adminCount, old(db.propertyModules), employees, desired, propertyIds, i);
      added, adminCounts := added + [n], adminCounts + [adminCount];
    }
    assert propertyIds[..|propertyIds|] == propertyIds;
  }
}

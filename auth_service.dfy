/** The authentication service: the salted base64 password encoding, the
    login check, and the operations that create, delete and re-key an
    employee's rows. */
module AuthService {
  import opened Common
  import opened Base64
  import opened Db

  /** The text appended to a password before it is encoded. */
  const Salt: string := "salt"

  /** The message of the error `btoa` throws, on the server's runtime, for
      a character above U+00FF. */
  const InvalidCharacter: string := "Invalid character"

  /** What `decodePassword` shows for a stored value `atob` rejects. */
  const Unavailable: string := "Password unavailable"

  // ----- password encoding -----

  /** Appending the salt keeps a string inside Latin-1 exactly when it
      was inside already. */
  lemma SaltedLatin1(p: string)
    ensures IsLatin1(p + Salt) <==> IsLatin1(p)
  {
    var s := p + Salt;
    if IsLatin1(p) {
      forall i | 0 <= i < |s| ensures s[i] as int < 256 {
        if i < |p| {
          assert s[i] == p[i];
        } else {
          assert s[i] == Salt[i - |p|];
        }
      }
    }
    if IsLatin1(s) {
      forall i | 0 <= i < |p| ensures p[i] as int < 256 {
        assert s[i] == p[i];
      }
    }
  }

  /** `hashPassword`: the base64 text of the password followed by "salt".
      It fails, as `btoa` throws, exactly when the password has a character
      above U+00FF. */
  function HashPassword(password: string): (r: Option<string>)
    ensures r.Some? <==> IsLatin1(password)
  {
    SaltedLatin1(password);
    Btoa(password + Salt)
  }

  /** Decoding a stored password gives back the salted password. */
  lemma HashDecodes(p: string)
    requires IsLatin1(p)
    ensures HashPassword(p).Some? && Atob(HashPassword(p).value) == Some(p + Salt)
  {
    SaltedLatin1(p);
    AtobBtoa(p + Salt);
  }

  /** `decodePassword`: the stored value is decoded and the first "salt"
      in it removed; a value `atob` rejects shows as "Password
      unavailable". */
  function DecodePassword(hashed: string): (r: string)
    ensures Atob(hashed).None? ==> r == Unavailable
    ensures Atob(hashed).Some? && !Contains(Atob(hashed).value, Salt) ==> r == Atob(hashed).value
    ensures Atob(hashed).Some? && Contains(Atob(hashed).value, Salt) ==> |r| + |Salt| == |Atob(hashed).value|
  {
    match Atob(hashed)
    case None => Unavailable
    case Some(decoded) => ReplaceFirst(decoded, Salt, "")
  }

  /** `verifyPassword`: whether the password's encoding is the stored
      value; None where encoding the password throws. */
  function VerifyPassword(password: string, stored: string): (r: Option<bool>)
    ensures r.Some? <==> IsLatin1(password)
    ensures r == Some(true) ==> HashPassword(password) == Some(stored)
  {
    match HashPassword(password)
    case None => None
    case Some(h) => Some(h == stored)
  }

  /** A password verifies against the stored encoding of another exactly
      when the two are equal. */
  lemma VerifyIffEqual(p: string, q: string)
    requires IsLatin1(p) && IsLatin1(q)
    ensures VerifyPassword(p, HashPassword(q).value) == Some(p == q)
  {
    SaltedLatin1(p);
    SaltedLatin1(q);
    BtoaInjective(p + Salt, q + Salt);
    if p + Salt == q + Salt {
      assert p == (p + Salt)[..|p|];
      assert q == (q + Salt)[..|q|];
    }
  }

  /** When the password has no "salt" in it, the first "salt" of the
      salted password is the appended one: a straddling occurrence would
      need one of 'a', 'l', 't' to be an 's'. */
  lemma FirstSaltIsAppended(p: string)
    requires !Contains(p, Salt)
    ensures IndexOf(p + Salt, Salt) == Some(|p|)
  {
    var s := p + Salt;
    assert s[|p|..|p| + |Salt|] == Salt;
    assert OccursAt(s, Salt, |p|);
    forall j | 0 <= j < |p| ensures !OccursAt(s, Salt, j) {
      if j + |Salt| <= |p| {
        assert s[j..j + |Salt|] == p[j..j + |Salt|];
        assert !OccursAt(p, Salt, j);
      } else {
        var k := |p| - j;
        assert s[j + k] == 's' && Salt[k] != 's';
        assert j + |Salt| <= |s| ==> s[j..j + |Salt|][k] != Salt[k];
      }
    }
  }

  /** The display decoding gives back every Latin-1 password that has no
      "salt" in it. */
  lemma DecodeHashRoundTrip(p: string)
    requires IsLatin1(p) && !Contains(p, Salt)
    ensures DecodePassword(HashPassword(p).value) == p
  {
    HashDecodes(p);
    FirstSaltIsAppended(p);
    var s := p + Salt;
    assert ReplaceFirst(s, Salt, "") == s[..|p|] + "" + s[|p| + |Salt|..];
    assert s[..|p|] == p;
    assert s[|p| + |Salt|..] == "";
  }

  /** A password that starts with "salt" is shown wrongly: its stored
      form decodes to the password followed by "salt", and the first
      "salt", the password's own, is the one removed. So "salty" is shown
      as "ysalt". */
  lemma DecodeRemovesPasswordsOwnSalt(p: string)
    requires IsLatin1(p) && |p| >= |Salt| && p[..|Salt|] == Salt
    ensures HashPassword(p).Some?
    ensures DecodePassword(HashPassword(p).value) == p[|Salt|..] + Salt
  {
    HashDecodes(p);
    ReplaceOwnSalt(p);
  }

  /** Replacing the first "salt" in a text that starts with "salt" and
      ends with an appended "salt" removes the leading one. */
  lemma ReplaceOwnSalt(p: string)
    requires |p| >= |Salt| && p[..|Salt|] == Salt
    ensures ReplaceFirst(p + Salt, Salt, "") == p[|Salt|..] + Salt
  {
    var s := p + Salt;
    assert s[0..|Salt|] == Salt;
    assert OccursAt(s, Salt, 0);
    assert IndexOf(s, Salt) == Some(0);
    assert s[|Salt|..] == p[|Salt|..] + Salt;
  }

  /** A stored value with a character that is neither base64, nor
      whitespace, nor '=' is shown as "Password unavailable". */
  lemma DecodeRejectsNonBase64(hashed: string, i: nat)
    requires i < |hashed| && ValueOf(hashed[i]).None?
    requires !IsAsciiWhitespace(hashed[i]) && hashed[i] != '='
    ensures DecodePassword(hashed) == Unavailable
  {
    ForeignCharRejected(hashed, i);
  }

  /** So is a stored value of base64 characters whose length leaves one
      character over a whole number of 4-character groups. */
  lemma DecodeRejectsOddLength(hashed: string)
    requires InAlphabet(hashed) && |hashed| % 4 == 1
    ensures DecodePassword(hashed) == Unavailable
  {
    OddLengthRejected(hashed);
  }

  predicate EndsWithSalt(s: string) {
    |s| >= |Salt| && s[|s| - |Salt|..] == Salt
  }

  /** The display decoding as its comment describes it: the "salt" suffix
      is removed, wherever else "salt" occurs. */
  function DecodePasswordSuffix(hashed: string): (r: string)
    ensures Atob(hashed).None? ==> r == Unavailable
    ensures Atob(hashed).Some? && EndsWithSalt(Atob(hashed).value) ==> r + Salt == Atob(hashed).value
    ensures Atob(hashed).Some? && !EndsWithSalt(Atob(hashed).value) ==> r == Atob(hashed).value
  {
    match Atob(hashed)
    case None => Unavailable
    case Some(decoded) =>
      if EndsWithSalt(decoded) then decoded[..|decoded| - |Salt|]
      else decoded
  }

  /** The suffix decoding gives back every Latin-1 password. */
  lemma DecodeSuffixHashRoundTrip(p: string)
    requires IsLatin1(p)
    ensures DecodePasswordSuffix(HashPassword(p).value) == p
  {
    HashDecodes(p);
    var s := p + Salt;
    assert s[|s| - |Salt|..] == Salt;
    assert s[..|s| - |Salt|] == p;
  }

  // ----- login -----

  const InvalidCredentials: string := "Invalid employee ID or password"
  const Deactivated: string := "Account is deactivated. Please contact your administrator."
  const AuthFailed: string := "Authentication failed. Please try again."

  /** The user fields a successful login returns. */
  datatype AuthUser = AuthUser(
    id: nat,
    email: string,
    name: string,
    role: Role,
    employeeId: string,
    department: string,
    position: string,
    facility: Option<string>)

  datatype AuthResult = Authenticated(user: AuthUser) | Denied(error: string)

  /** The facility of the manager row the employee reports to, if any. */
  function FacilityOf(managers: seq<ManagerRow>, e: EmployeeRow): (r: Option<string>)
    ensures r.Some? <==> e.managerId.Some? && exists m :: m in managers && m.id == e.managerId.value
    ensures r.Some? ==> exists m :: m in managers && m.id == e.managerId.value && m.facility == r.value
  {
    if e.managerId.None? then None
    else match FindManager(managers, e.managerId.value)
      case Some(m) => Some(m.facility)
      case None => None
  }

  /** `authenticateUser`. The checks run in order: an unknown employee ID
      and a wrong password are refused with the same message; a password
      that cannot be encoded throws and is caught as a general failure; the
      deactivation check comes only after the password matched. An employee
      without a user row would make reading `user.isActive` throw, which is
      caught the same way. */
  function AuthenticateUser(users: seq<User>, employees: seq<EmployeeRow>, managers: seq<ManagerRow>,
                            employeeId: string, password: string): (r: AuthResult)
    ensures FindEmployee(employees, employeeId).None? ==> r == Denied(InvalidCredentials)
    ensures FindEmployee(employees, employeeId).Some? ==>
      var e := employees[FindEmployee(employees, employeeId).value];
      && (!IsLatin1(password) ==> r == Denied(AuthFailed))
      && (VerifyPassword(password, e.password) == Some(false) ==> r == Denied(InvalidCredentials))
      && (VerifyPassword(password, e.password) == Some(true) && FindUser(users, e.userId).None? ==>
            r == Denied(AuthFailed))
      && (VerifyPassword(password, e.password) == Some(true) && FindUser(users, e.userId).Some? ==>
            (!FindUser(users, e.userId).value.isActive ==> r == Denied(Deactivated)))
    ensures r.Authenticated? <==>
      && FindEmployee(employees, employeeId).Some?
      && var e := employees[FindEmployee(employees, employeeId).value];
         && VerifyPassword(password, e.password) == Some(true)
         && FindUser(users, e.userId).Some? && FindUser(users, e.userId).value.isActive
    ensures r.Authenticated? ==>
      && FindEmployee(employees, employeeId).Some?
      && var e := employees[FindEmployee(employees, employeeId).value];
         && HashPassword(password) == Some(e.password)
         && FindUser(users, e.userId).Some?
         && var u := FindUser(users, e.userId).value;
            && u.isActive
            && r.user == AuthUser(u.id, u.email, u.name, u.role, e.employeeId, e.department, e.position,
                                  FacilityOf(managers, e))
  {
    match FindEmployee(employees, employeeId)
    case None => Denied(InvalidCredentials)
    case Some(i) =>
      var e := employees[i];
      match VerifyPassword(password, e.password)
      case None => Denied(AuthFailed)
      case Some(false) => Denied(InvalidCredentials)
      case Some(true) =>
        match FindUser(users, e.userId)
        case None => Denied(AuthFailed)
        case Some(u) =>
          if !u.isActive then Denied(Deactivated)
          else Authenticated(AuthUser(u.id, u.email, u.name, u.role, e.employeeId, e.department, e.position,
                                      FacilityOf(managers, e)))
  }

  /** Only the stored password opens an account: any other Latin-1
      password is refused with the message an unknown ID gets. */
  lemma WrongPasswordRejected(users: seq<User>, employees: seq<EmployeeRow>, managers: seq<ManagerRow>,
                              employeeId: string, password: string, actual: string)
    requires FindEmployee(employees, employeeId).Some?
    requires IsLatin1(actual) && HashPassword(actual) == Some(employees[FindEmployee(employees, employeeId).value].password)
    requires IsLatin1(password) && password != actual
    ensures AuthenticateUser(users, employees, managers, employeeId, password) == Denied(InvalidCredentials)
  {
    VerifyIffEqual(password, actual);
  }

  // ----- creating an account -----

  const InvalidRole: string := "Invalid role specified"

  /** The messages of the database's unique-constraint errors on the
      email and employee-ID columns. */
  const EmailTaken: string := "Unique constraint failed on the fields: (`email`)"
  const EmployeeIdTaken: string := "Unique constraint failed on the fields: (`employeeId`)"

  /** Both unique-constraint messages start with "Unique constraint", the
      text the employees route looks for. */
  lemma UniqueMessages()
    ensures OccursAt(EmailTaken, "Unique constraint", 0)
    ensures OccursAt(EmployeeIdTaken, "Unique constraint", 0)
  {
    assert EmailTaken[..17] == "Unique constraint";
    assert EmployeeIdTaken[..17] == "Unique constraint";
  }

  /** Whether some user row has the email. */
  function HasEmail(users: seq<User>, email: string): (r: bool)
    ensures r <==> exists u :: u in users && u.email == email
  {
    if users == [] then false
    else users[0].email == email || HasEmail(users[1..], email)
  }

  /** The rows `createUser` inserted. */
  datatype Created = Created(user: User, employee: EmployeeRow, manager: Option<ManagerRow>)

  /** The rows `createUser` inserts for a new account whose first key is
      `id`: an active user with the requested role; its employee row, not
      clocked in, storing the encoded password, with department and
      position defaulting to "General" and "Employee", or for a manager to
      "Management" and "Manager"; and for a manager only, a manager row
      whose facility defaults to "Main Facility". */
  function NewRows(id: nat, email: string, name: string, isManager: bool, employeeId: string,
                   department: Option<string>, position: Option<string>, stored: string,
                   facility: Option<string>, hireDate: int): (c: Created)
    ensures c.user == User(id, email, name, if isManager then Manager else Employee, true)
    ensures c.employee.id == id + 1 && c.employee.userId == id && c.employee.employeeId == employeeId
    ensures c.employee.department == (if Present(department) then department.value
                                      else if isManager then "Management" else "General")
    ensures c.employee.position == (if Present(position) then position.value
                                    else if isManager then "Manager" else "Employee")
    ensures c.employee.password == stored && c.employee.hireDate == hireDate
    ensures !c.employee.isClockedIn && c.employee.lastClockIn.None? && c.employee.lastClockOut.None?
    ensures c.employee.managerId.None?
    ensures c.manager.Some? <==> isManager
    ensures isManager ==> c.manager.value == ManagerRow(id + 2, id, if Present(facility) then facility.value else "Main Facility")
  {
    Created(
      User(id, email, name, if isManager then Manager else Employee, true),
      EmployeeRow(id + 1, id, employeeId,
                  OrElse(department, if isManager then "Management" else "General"),
                  OrElse(position, if isManager then "Manager" else "Employee"),
                  stored, hireDate, false, None, None, None),
      if isManager then Some(ManagerRow(id + 2, id, OrElse(facility, "Main Facility"))) else None)
  }

  /** Inserting a user with a fresh key and an unused email, its employee
      row with a fresh key and an unused employee ID, and any manager rows
      below the new counter keeps the tables consistent. */
  lemma CreatedConsistent(users: seq<User>, employees: seq<EmployeeRow>, managers: seq<ManagerRow>,
                          log: seq<TimeEntry>, requests: seq<SignupRequest>, nextId: nat,
                          u: User, e: EmployeeRow, added: seq<ManagerRow>, newNext: nat)
    requires Consistent(users, employees, managers, log, requests, nextId)
    requires u.id == nextId && e.userId == nextId && e.id == nextId + 1 && newNext >= nextId + 2
    requires !HasEmail(users, u.email) && FindEmployee(employees, e.employeeId).None?
    requires !e.isClockedIn
    requires forall m :: m in added ==> m.id < newNext
    ensures Consistent(users + [u], employees + [e], managers + added, log, requests, newNext)
  {
    var users' := users + [u];
    forall x | x in employees ensures x.userId < nextId {
      var v := FindUser(users, x.userId).value;
      assert v in users;
    }
    AppendUserDistinct(users, u);
    AppendEmployeeDistinct(employees, e);
    forall x | x in employees + [e] ensures FindUser(users', x.userId).Some? {
      FindUserAppend(users, u, x.userId);
    }
    NoEntriesNotClockedIn(log, e.id);
  }

  /** A user row with a key above every other and an unused email keeps
      the user keys and emails unique. */
  lemma AppendUserDistinct(users: seq<User>, u: User)
    requires DistinctUsers(users) && !HasEmail(users, u.email)
    requires forall x :: x in users ==> x.id < u.id
    ensures DistinctUsers(users + [u])
  {
    var users' := users + [u];
    forall i, j | 0 <= i < j < |users'| ensures users'[i].id != users'[j].id && users'[i].email != users'[j].email {
      if j == |users| {
        assert users[i] in users;
      }
    }
  }

  /** An employee row whose keys are above every other and whose employee
      ID is unused keeps the key columns unique. */
  lemma AppendEmployeeDistinct(employees: seq<EmployeeRow>, e: EmployeeRow)
    requires DistinctEmployees(employees) && FindEmployee(employees, e.employeeId).None?
    requires forall x :: x in employees ==> x.id < e.id && x.userId < e.userId
    ensures DistinctEmployees(employees + [e])
  {
    var employees' := employees + [e];
    forall i, j | 0 <= i < j < |employees'|
      ensures employees'[i].id != employees'[j].id
      ensures employees'[i].employeeId != employees'[j].employeeId
      ensures employees'[i].userId != employees'[j].userId
    {
      if j == |employees| {
        assert employees[i] in employees;
      }
    }
  }

  /** The outcome of `createUser` on the current user and employee
      tables. The password is encoded first; then the role decides the
      rows, and any role but EMPLOYEE and MANAGER is refused; then the
      database's unique constraints refuse a taken email and, after it, a
      taken employee ID. */
  function CreateUserOutcome(users: seq<User>, employees: seq<EmployeeRow>, nextId: nat,
                             email: string, name: string, role: string, employeeId: string,
                             department: Option<string>, position: Option<string>, password: string,
                             facility: Option<string>, hireDate: Option<int>, now: int): (r: Result<Created>)
    ensures HashPassword(password).None? ==> r == Err(InvalidCharacter)
    ensures HashPassword(password).Some? && role != "EMPLOYEE" && role != "MANAGER" ==> r == Err(InvalidRole)
    ensures HashPassword(password).Some? && (role == "EMPLOYEE" || role == "MANAGER") ==>
      && (HasEmail(users, email) ==> r == Err(EmailTaken))
      && (!HasEmail(users, email) && FindEmployee(employees, employeeId).Some? ==> r == Err(EmployeeIdTaken))
    ensures r.Ok? <==>
      HashPassword(password).Some? && (role == "EMPLOYEE" || role == "MANAGER") &&
      !HasEmail(users, email) && FindEmployee(employees, employeeId).None?
    ensures r.Ok? ==>
      r.value == NewRows(nextId, email, name, role == "MANAGER", employeeId, department, position,
                         HashPassword(password).value, facility, if hireDate.Some? then hireDate.value else now)
  {
    match HashPassword(password)
    case None => Err(InvalidCharacter)
    case Some(stored) =>
      if role != "EMPLOYEE" && role != "MANAGER" then Err(InvalidRole)
      else if HasEmail(users, email) then Err(EmailTaken)
      else if FindEmployee(employees, employeeId).Some? then Err(EmployeeIdTaken)
      else Ok(NewRows(nextId, email, name, role == "MANAGER", employeeId, department, position, stored,
                      facility, if hireDate.Some? then hireDate.value else now))
  }

  /** The transaction of `createUser`: the user row, its employee row
      and, for a manager, the manager row are inserted together, taking
      the next keys. Rows under fresh keys, an unused email and an unused
      employee ID keep the tables consistent. */
  method InsertRows(db: Database, c: Created)
    requires db.Valid()
    requires c.user.id == db.nextId && c.employee.userId == db.nextId && c.employee.id == db.nextId + 1
    requires c.manager.Some? ==> c.manager.value.id == db.nextId + 2
    requires !HasEmail(db.users, c.user.email) && FindEmployee(db.employees, c.employee.employeeId).None?
    requires !c.employee.isClockedIn
    modifies db
    ensures db.Valid()
    ensures db.users == old(db.users) + [c.user] && db.employees == old(db.employees) + [c.employee]
    ensures db.managers == old(db.managers) + (if c.manager.Some? then [c.manager.value] else [])
    ensures db.nextId == old(db.nextId) + (if c.manager.Some? then 3 else 2)
    ensures db.timeEntries == old(db.timeEntries) && db.signupRequests == old(db.signupRequests)
    ensures db.facilitySettings == old(db.facilitySettings)
  {
    var added: seq<ManagerRow> := if c.manager.Some? then [c.manager.value] else [];
    var next := if c.manager.Some? then db.nextId + 3 else db.nextId + 2;
    CreatedConsistent(db.users, db.employees, db.managers, db.timeEntries, db.signupRequests, db.nextId,
                      c.user, c.employee, added, next);
    db.users, db.employees, db.managers, db.nextId :=
      db.users + [c.user], db.employees + [c.employee], db.managers + added, next;
  }

  /** `createUser`: the rows of `CreateUserOutcome` are inserted in one
      transaction, so a refused call leaves every table as it was. The new
      account can log in with the password it was created with. */
  method CreateUser(db: Database, email: string, name: string, role: string, employeeId: string,
                    department: Option<string>, position: Option<string>, password: string,
                    facility: Option<string>, hireDate: Option<int>, now: int)
    returns (r: Result<Created>)
    requires db.Valid()
    modifies db
    ensures db.Valid()
    ensures r == CreateUserOutcome(old(db.users), old(db.employees), old(db.nextId), email, name, role, employeeId,
                                   department, position, password, facility, hireDate, now)
    ensures r.Err? ==> unchanged(db)
    ensures r.Ok? ==>
      && db.users == old(db.users) + [r.value.user]
      && db.employees == old(db.employees) + [r.value.employee]
      && db.managers == old(db.managers) + (if r.value.manager.Some? then [r.value.manager.value] else [])
      && db.nextId == old(db.nextId) + (if r.value.manager.Some? then 3 else 2)
      && db.timeEntries == old(db.timeEntries) && db.signupRequests == old(db.signupRequests)
      && db.facilitySettings == old(db.facilitySettings)
    ensures r.Ok? ==> AuthenticateUser(db.users, db.employees, db.managers, employeeId, password).Authenticated?
  {
    r := CreateUserOutcome(db.users, db.employees, db.nextId, email, name, role, employeeId,
                           department, position, password, facility, hireDate, now);
    if r.Err? {
      return;
    }
    var rows := r.value;
    assert FindUser(db.users, rows.user.id).None?;
    InsertRows(db, rows);
    CreatedCanLogIn(old(db.users), old(db.employees), db.managers, rows.user, rows.employee, password);
  }

  /** An active user whose key is fresh, appended with an employee row
      under a fresh employee ID that stores the encoding of a password,
      logs in with that password. */
  lemma CreatedCanLogIn(users: seq<User>, employees: seq<EmployeeRow>, managers: seq<ManagerRow>,
                        u: User, e: EmployeeRow, password: string)
    requires FindUser(users, u.id).None? && u.isActive && e.userId == u.id
    requires FindEmployee(employees, e.employeeId).None?
    requires HashPassword(password) == Some(e.password)
    ensures AuthenticateUser(users + [u], employees + [e], managers, e.employeeId, password).Authenticated?
  {
    FindUserAppend(users, u, u.id);
    FindEmployeeAppend(employees, e, e.employeeId);
    assert (employees + [e])[|employees|] == e;
  }

  // ----- deleting an account -----

  const EmployeeNotFound: string := "Employee not found"

  /** The user rows whose key is not `id`, in order. */
  function WithoutUser(users: seq<User>, id: nat): (r: seq<User>)
    ensures forall u :: u in r <==> u in users && u.id != id
    decreases |users|
  {
    if users == [] then []
    else
      var rest := WithoutUser(users[..|users| - 1], id);
      var u := users[|users| - 1];
      assert users == users[..|users| - 1] + [u];
      if u.id == id then rest else rest + [u]
  }

  /** Dropping user rows keeps keys and emails unique. */
  lemma {:induction false} WithoutUserDistinct(users: seq<User>, id: nat)
    requires DistinctUsers(users)
    ensures DistinctUsers(WithoutUser(users, id))
    decreases |users|
  {
    if users != [] {
      var prefix := users[..|users| - 1];
      var u := users[|users| - 1];
      WithoutUserDistinct(prefix, id);
      if u.id != id {
        var rest := WithoutUser(prefix, id);
        forall x | x in rest ensures x.id != u.id && x.email != u.email {
          var k :| 0 <= k < |prefix| && prefix[k] == x;
          assert users[k] == x;
        }
        var r := rest + [u];
        forall i, j | 0 <= i < j < |r| ensures r[i].id != r[j].id && r[i].email != r[j].email {
          if j == |rest| {
            assert r[i] in rest;
          } else {
            assert r[i] == rest[i] && r[j] == rest[j];
          }
        }
      }
    }
  }

  /** The employee rows without the one at index `i`. */
  function RemoveAt(employees: seq<EmployeeRow>, i: nat): (r: seq<EmployeeRow>)
    requires i < |employees|
    ensures |r| + 1 == |employees|
    ensures forall j :: 0 <= j < |r| ==> r[j] == employees[if j < i then j else j + 1]
  {
    employees[..i] + employees[i + 1..]
  }

  /** Removing the employee at `i`, its user row and its entries keeps the
      tables consistent. */
  lemma DeletedConsistent(users: seq<User>, employees: seq<EmployeeRow>, managers: seq<ManagerRow>,
                          log: seq<TimeEntry>, requests: seq<SignupRequest>, nextId: nat, i: nat)
    requires Consistent(users, employees, managers, log, requests, nextId)
    requires i < |employees|
    ensures Consistent(WithoutUser(users, employees[i].userId), RemoveAt(employees, i), managers,
                       WithoutEntriesOf(log, employees[i].id), requests, nextId)
  {
    var gone := employees[i];
    var users', employees' := WithoutUser(users, gone.userId), RemoveAt(employees, i);
    WithoutUserDistinct(users, gone.userId);
    RemoveAtDistinct(employees, i);
    forall x | x in employees'
      ensures FindUser(users', x.userId).Some?
      ensures x.isClockedIn == ClockedInPerLog(WithoutEntriesOf(log, gone.id), x.id)
    {
      var v := FindUser(users, x.userId).value;
      assert v in users';
      ClockedInWithout(log, gone.id, x.id);
    }
  }

  /** Removing a row keeps the key columns unique, and every remaining row
      is an old one with keys other than the removed row's. */
  lemma RemoveAtDistinct(employees: seq<EmployeeRow>, i: nat)
    requires i < |employees| && DistinctEmployees(employees)
    ensures DistinctEmployees(RemoveAt(employees, i))
    ensures forall x :: x in RemoveAt(employees, i) ==>
      x in employees && x.userId != employees[i].userId && x.id != employees[i].id
  {
    var r := RemoveAt(employees, i);
    forall a, b | 0 <= a < b < |r|
      ensures r[a].id != r[b].id
      ensures r[a].employeeId != r[b].employeeId
      ensures r[a].userId != r[b].userId
    {
      var a', b' := if a < i then a else a + 1, if b < i then b else b + 1;
      assert r[a] == employees[a'] && r[b] == employees[b'] && a' < b';
    }
    forall x | x in r
      ensures x in employees && x.userId != employees[i].userId && x.id != employees[i].id
    {
      var k :| 0 <= k < |r| && r[k] == x;
      var k' := if k < i then k else k + 1;
      assert employees[k'] == x && k' != i;
    }
  }

  /** `deleteEmployee`. An unknown employee ID is refused; otherwise that
      employee's time entries, its employee row and its user row are
      removed in one transaction, and no other row. */
  method DeleteEmployee(db: Database, employeeId: string) returns (r: Result<bool>)
    requires db.Valid()
    modifies db
    ensures db.Valid()
    ensures FindEmployee(old(db.employees), employeeId).None? ==> r == Err(EmployeeNotFound) && unchanged(db)
    ensures FindEmployee(old(db.employees), employeeId).Some? ==>
      var i := FindEmployee(old(db.employees), employeeId).value;
      var gone := old(db.employees)[i];
      && r == Ok(true)
      && db.timeEntries == WithoutEntriesOf(old(db.timeEntries), gone.id)
      && db.employees == RemoveAt(old(db.employees), i)
      && db.users == WithoutUser(old(db.users), gone.userId)
      && db.managers == old(db.managers) && db.signupRequests == old(db.signupRequests)
      && db.facilitySettings == old(db.facilitySettings) && db.nextId == old(db.nextId)
    ensures r.Ok? ==> FindEmployee(db.employees, employeeId).None?
  {
    var found := FindEmployee(db.employees, employeeId);
    if found.None? {
      return Err(EmployeeNotFound);
    }
    DeletedIdGone(db.employees, found.value);
    RemoveRows(db, found.value);
    r := Ok(true);
  }

  /** The transaction of `deleteEmployee`: the entries of the employee at
      `i`, its employee row and its user row are removed together, and the
      tables stay consistent. */
  method RemoveRows(db: Database, i: nat)
    requires db.Valid() && i < |db.employees|
    modifies db
    ensures db.Valid()
    ensures db.timeEntries == WithoutEntriesOf(old(db.timeEntries), old(db.employees)[i].id)
    ensures db.employees == RemoveAt(old(db.employees), i)
    ensures db.users == WithoutUser(old(db.users), old(db.employees)[i].userId)
    ensures db.managers == old(db.managers) && db.signupRequests == old(db.signupRequests)
    ensures db.facilitySettings == old(db.facilitySettings) && db.nextId == old(db.nextId)
  {
    var gone := db.employees[i];
    DeletedConsistent(db.users, db.employees, db.managers, db.timeEntries, db.signupRequests, db.nextId, i);
    db.timeEntries, db.employees, db.users :=
      WithoutEntriesOf(db.timeEntries, gone.id), RemoveAt(db.employees, i), WithoutUser(db.users, gone.userId);
  }

  /** With unique employee IDs, the removed row's ID is no longer found. */
  lemma DeletedIdGone(employees: seq<EmployeeRow>, i: nat)
    requires i < |employees| && DistinctEmployees(employees)
    ensures FindEmployee(RemoveAt(employees, i), employees[i].employeeId).None?
  {
    var r := RemoveAt(employees, i);
    forall k | 0 <= k < |r| ensures r[k].employeeId != employees[i].employeeId {
      var k' := if k < i then k else k + 1;
      assert r[k] == employees[k'] && k' != i;
    }
  }

  // ----- changing a password -----

  /** The ORM's message when the row to update does not exist. */
  const RecordNotFound: string := "Record to update not found."

  /** `updatePassword`. The new password is encoded first; an unknown
      employee ID is refused; otherwise only that employee's stored
      password changes, after which the new password verifies against it. */
  method UpdatePassword(db: Database, employeeId: string, newPassword: string) returns (r: Result<EmployeeRow>)
    requires db.Valid()
    modifies db
    ensures db.Valid()
    ensures HashPassword(newPassword).None? ==> r == Err(InvalidCharacter)
    ensures HashPassword(newPassword).Some? && FindEmployee(old(db.employees), employeeId).None? ==>
      r == Err(RecordNotFound)
    ensures HashPassword(newPassword).Some? && FindEmployee(old(db.employees), employeeId).Some? ==> r.Ok?
    ensures r.Err? ==> unchanged(db)
    ensures r.Ok? ==>
      var i := FindEmployee(old(db.employees), employeeId).value;
      && HashPassword(newPassword).Some?
      && r.value == old(db.employees)[i].(password := HashPassword(newPassword).value)
      && db.employees == old(db.employees)[i := r.value]
      && db.users == old(db.users) && db.managers == old(db.managers)
      && db.timeEntries == old(db.timeEntries) && db.signupRequests == old(db.signupRequests)
      && db.facilitySettings == old(db.facilitySettings) && db.nextId == old(db.nextId)
    ensures r.Ok? ==> VerifyPassword(newPassword, r.value.password) == Some(true)
  {
    var hashed := HashPassword(newPassword);
    if hashed.None? {
      return Err(InvalidCharacter);
    }
    var found := FindEmployee(db.employees, employeeId);
    if found.None? {
      return Err(RecordNotFound);
    }
    var i := found.value;
    var row := db.employees[i].(password := hashed.value);
    PasswordChangeConsistent(db.users, db.employees, db.managers, db.timeEntries, db.signupRequests, db.nextId,
                             i, hashed.value);
    db.employees := db.employees[i := row];
    r := Ok(row);
  }

  /** After a password change the account opens with the new password,
      when it is active, and with no other Latin-1 password. */
  lemma ChangedPasswordLogsIn(users: seq<User>, employees: seq<EmployeeRow>, managers: seq<ManagerRow>,
                              employeeId: string, newPassword: string)
    requires DistinctEmployees(employees) && FindEmployee(employees, employeeId).Some?
    requires IsLatin1(newPassword)
    ensures var i := FindEmployee(employees, employeeId).value;
      var changed := employees[i := employees[i].(password := HashPassword(newPassword).value)];
      && (FindUser(users, employees[i].userId).Some? && FindUser(users, employees[i].userId).value.isActive ==>
            AuthenticateUser(users, changed, managers, employeeId, newPassword).Authenticated?)
      && (forall other :: IsLatin1(other) && other != newPassword ==>
            AuthenticateUser(users, changed, managers, employeeId, other) == Denied(InvalidCredentials))
  {
    var i := FindEmployee(employees, employeeId).value;
    var changed := employees[i := employees[i].(password := HashPassword(newPassword).value)];
    assert changed[i].employeeId == employeeId;
    assert FindEmployee(changed, employeeId) == Some(i);
    VerifyIffEqual(newPassword, newPassword);
    forall other | IsLatin1(other) && other != newPassword
      ensures AuthenticateUser(users, changed, managers, employeeId, other) == Denied(InvalidCredentials)
    {
      WrongPasswordRejected(users, changed, managers, employeeId, other, newPassword);
    }
  }

  /** Changing one stored password keeps the tables consistent. */
  lemma PasswordChangeConsistent(users: seq<User>, employees: seq<EmployeeRow>, managers: seq<ManagerRow>,
                                 log: seq<TimeEntry>, requests: seq<SignupRequest>, nextId: nat,
                                 i: nat, stored: string)
    requires Consistent(users, employees, managers, log, requests, nextId)
    requires i < |employees|
    ensures Consistent(users, employees[i := employees[i].(password := stored)], managers, log, requests, nextId)
  {
    var x := employees[i].(password := stored);
    ReplaceEmployee(employees, users, i, x, nextId);
    assert employees[i] in employees;
    forall e | e in employees[i := x] ensures e.isClockedIn == ClockedInPerLog(log, e.id) {
      var j :| 0 <= j < |employees| && employees[i := x][j] == e;
      assert j != i ==> employees[j] in employees;
    }
  }
}

/** The employees API route: POST creates an account (a user, its employee
    row and, for a manager, a manager row) through the auth service after
    the route's own checks, and turns the service's errors into answers. */
module EmployeesRoute {
  import opened Common
  import opened Db
  import opened Base64
  import opened AuthService

  /** The fields of a POST body; `hireDate` is the parsed date, `None`
      when it is missing or empty. */
  datatype NewEmployeeRequest = NewEmployeeRequest(
    email: Option<string>,
    name: Option<string>,
    role: Option<string>,
    employeeId: Option<string>,
    password: Option<string>,
    department: Option<string>,
    position: Option<string>,
    facility: Option<string>,
    hireDate: Option<int>)

  /** The body of a successful POST. */
  datatype EmployeeCreated = EmployeeCreated(user: User, employee: EmployeeRow, manager: Option<ManagerRow>,
                                             message: string)

  const MissingFields: string := "Missing required fields"
  const EmployeeIdExists: string := "Employee ID already exists"
  const CreateFailed: string := "Failed to create employee"
  const StaffCreated: string := "Staff member created successfully"
  const ManagerCreated: string := "Manager created successfully"

  predicate AllRequiredPresent(q: NewEmployeeRequest) {
    Present(q.email) && Present(q.name) && Present(q.role) && Present(q.employeeId) && Present(q.password)
  }

  /** The route's checks, in order: the five required fields must be
      truthy, then the role must be EMPLOYEE or MANAGER. */
  function CheckEmployeeRequest(q: NewEmployeeRequest): (r: Option<string>)
    ensures r.None? <==> AllRequiredPresent(q) && (q.role.value == "EMPLOYEE" || q.role.value == "MANAGER")
    ensures !AllRequiredPresent(q) ==> r == Some(MissingFields)
    ensures AllRequiredPresent(q) && r.Some? ==> r == Some(InvalidRole)
  {
    if !AllRequiredPresent(q) then Some(MissingFields)
    else if q.role.value != "EMPLOYEE" && q.role.value != "MANAGER" then Some(InvalidRole)
    else None
  }

  /** The answer to an error thrown while creating: a message mentioning a
      unique constraint is a 409 saying the employee ID exists; any other
      is a 500. */
  function ErrorResponse(message: string): (r: Response<EmployeeCreated>)
    ensures r.Failure?
    ensures r.status == 409 <==> Contains(message, "Unique constraint")
    ensures Contains(message, "Unique constraint") ==> r.error == EmployeeIdExists
    ensures !Contains(message, "Unique constraint") ==> r == Failure(500, CreateFailed)
  {
    if Contains(message, "Unique constraint") then Failure(409, EmployeeIdExists)
    else Failure(500, CreateFailed)
  }

  /** The success body: the inserted rows, and the manager text exactly
      when a manager row was inserted. */
  function CreatedReply(c: Created): (r: EmployeeCreated)
    ensures r.user == c.user && r.employee == c.employee && r.manager == c.manager
    ensures r.message == ManagerCreated <==> c.manager.Some?
    ensures c.manager.None? ==> r.message == StaffCreated
  {
    EmployeeCreated(c.user, c.employee, c.manager, if c.manager.Some? then ManagerCreated else StaffCreated)
  }

  /** POST. An unreadable body is answered like any other thrown error;
      a body failing the route's checks gets 400 with the check's message;
      otherwise the service's outcome decides: its rows with the right text,
      or its error through `ErrorResponse`. Only a 200 changes the tables,
      and then the new account can log in with the password it was
      created with. */
  method PostEmployee(db: Database, body: Body<NewEmployeeRequest>, now: int) returns (r: Response<EmployeeCreated>)
    requires db.Valid()
    modifies db
    ensures db.Valid()
    ensures body.Malformed? ==> r == ErrorResponse(body.reason)
    ensures body.Parsed? && CheckEmployeeRequest(body.fields).Some? ==>
      r == Failure(400, CheckEmployeeRequest(body.fields).value)
    ensures body.Parsed? && CheckEmployeeRequest(body.fields).None? ==>
      var q := body.fields;
      match CreateUserOutcome(old(db.users), old(db.employees), old(db.nextId), q.email.value, q.name.value,
                              q.role.value, q.employeeId.value, q.department, q.position, q.password.value,
                              q.facility, q.hireDate, now)
      case Ok(c) => r == Success(CreatedReply(c))
      case Err(message) => r == ErrorResponse(message)
    ensures r.Failure? ==> unchanged(db)
    ensures r.Success? ==>
      && body.Parsed?
      && db.users == old(db.users) + [r.payload.user]
      && db.employees == old(db.employees) + [r.payload.employee]
      && db.managers == old(db.managers) + (if r.payload.manager.Some? then [r.payload.manager.value] else [])
      && db.nextId == old(db.nextId) + (if r.payload.manager.Some? then 3 else 2)
      && db.timeEntries == old(db.timeEntries) && db.signupRequests == old(db.signupRequests)
      && db.facilitySettings == old(db.facilitySettings)
      && AuthenticateUser(db.users, db.employees, db.managers, body.fields.employeeId.value,
                          body.fields.password.value).Authenticated?
  {
    if body.Malformed? {
      return ErrorResponse(body.reason);
    }
    var q := body.fields;
    var invalid := CheckEmployeeRequest(q);
    if invalid.Some? {
      return Failure(400, invalid.value);
    }
    var created := CreateUser(db, q.email.value, q.name.value, q.role.value, q.employeeId.value, q.department,
                              q.position, q.password.value, q.facility, q.hireDate, now);
    match created
    case Ok(c) => r := Success(CreatedReply(c));
    case Err(message) => r := ErrorResponse(message);
  }

  /** A message that is no longer than the pattern and differs from it
      does not contain it. */
  lemma NotContainedInShorter(s: string, pat: string)
    requires |s| <= |pat| && s != pat
    ensures !Contains(s, pat)
  {
    forall j | 0 <= j <= |s|
      ensures !OccursAt(s, pat, j)
    {
      if j + |pat| <= |s| {
        assert s[j..j + |pat|] == s;
      }
    }
  }

  /** Both unique-constraint errors, a taken email as well as a taken
      employee ID, are answered 409 "Employee ID already exists"; a
      password the encoder rejects is answered 500. */
  lemma ServiceErrorAnswers()
    ensures ErrorResponse(EmailTaken) == Failure(409, EmployeeIdExists)
    ensures ErrorResponse(EmployeeIdTaken) == Failure(409, EmployeeIdExists)
    ensures ErrorResponse(InvalidCharacter) == Failure(500, CreateFailed)
  {
    UniqueMessages();
    NotContainedInShorter(InvalidCharacter, "Unique constraint");
  }

  /** Registering an email that is already in use, with a request that
      passes the route's checks and a password the encoder accepts, is
      answered 409 "Employee ID already exists" and changes nothing. */
  lemma TakenEmailIsConflict(users: seq<User>, employees: seq<EmployeeRow>, nextId: nat, q: NewEmployeeRequest,
                             now: int)
    requires CheckEmployeeRequest(q).None? && IsLatin1(q.password.value)
    requires HasEmail(users, q.email.value)
    ensures CreateUserOutcome(users, employees, nextId, q.email.value, q.name.value, q.role.value,
                              q.employeeId.value, q.department, q.position, q.password.value,
                              q.facility, q.hireDate, now) == Err(EmailTaken)
    ensures ErrorResponse(EmailTaken) == Failure(409, EmployeeIdExists)
  {
    ServiceErrorAnswers();
  }
}

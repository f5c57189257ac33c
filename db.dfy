/** The database tables the services read and write, held in memory. Row
    identifiers (the database's object ids) are natural numbers handed out
    from a counter; a row refers to another by that number. */
module Db {
  import opened Common

  /** The four kinds of attendance event stored in the time-entry table. */
  datatype EntryType = ClockIn | ClockOut | BreakStart | BreakEnd

  /** The wire name of an entry type. */
  function EntryTypeName(t: EntryType): string {
    match t
    case ClockIn => "CLOCK_IN"
    case ClockOut => "CLOCK_OUT"
    case BreakStart => "BREAK_START"
    case BreakEnd => "BREAK_END"
  }

  /** The entry type a wire name denotes, if any. */
  function ParseEntryType(s: string): (r: Option<EntryType>)
    ensures r.Some? ==> EntryTypeName(r.value) == s
    ensures r.None? ==> forall t :: EntryTypeName(t) != s
  {
    if s == "CLOCK_IN" then Some(ClockIn)
    else if s == "CLOCK_OUT" then Some(ClockOut)
    else if s == "BREAK_START" then Some(BreakStart)
    else if s == "BREAK_END" then Some(BreakEnd)
    else None
  }

  datatype Role = Employee | Manager | Admin

  /** The wire name of a role. */
  function RoleName(r: Role): string {
    match r
    case Employee => "EMPLOYEE"
    case Manager => "MANAGER"
    case Admin => "ADMIN"
  }

  datatype User = User(id: nat, email: string, name: string, role: Role, isActive: bool)

  /** An employee row; `employeeId` is the human-facing identifier used to log
      in, `id` the row's own key, `managerId` the key of the manager row the
      employee reports to. Timestamps are milliseconds. */
  datatype EmployeeRow = EmployeeRow(
    id: nat,
    userId: nat,
    employeeId: string,
    department: string,
    position: string,
    password: string,
    hireDate: int,
    isClockedIn: bool,
    lastClockIn: Option<int>,
    lastClockOut: Option<int>,
    managerId: Option<nat>)

  datatype ManagerRow = ManagerRow(id: nat, userId: nat, facility: string)

  /** A time entry; `employeeKey` is the `id` of the employee row. */
  datatype TimeEntry = TimeEntry(
    id: nat,
    employeeKey: nat,
    kind: EntryType,
    timestamp: int,
    latitude: Option<real>,
    longitude: Option<real>,
    notes: Option<string>)

  datatype SignupStatus = Pending | Approved | Rejected

  datatype SignupRequest = SignupRequest(
    id: nat,
    name: string,
    email: string,
    phone: string,
    experience: string,
    preferredDepartment: Option<string>,
    message: Option<string>,
    status: SignupStatus,
    submittedAt: int)

  /** The facility location row; `radius` is in metres. */
  datatype FacilitySettings = FacilitySettings(
    id: nat,
    facility: string,
    latitude: real,
    longitude: real,
    radius: real,
    managerId: Option<nat>)

  /** The index of the employee row with the given human-facing
      `employeeId` (a `findUnique` on that column). */
  function FindEmployee(employees: seq<EmployeeRow>, employeeId: string): (r: Option<nat>)
    ensures r.Some? ==> r.value < |employees| && employees[r.value].employeeId == employeeId
    ensures r.None? <==> forall i :: 0 <= i < |employees| ==> employees[i].employeeId != employeeId
  {
    if employees == [] then None
    else if employees[0].employeeId == employeeId then Some(0)
    else match FindEmployee(employees[1..], employeeId)
      case Some(i) => Some(i + 1)
      case None => None
  }

  /** The index of the employee row whose key is `key`. */
  function FindEmployeeByKey(employees: seq<EmployeeRow>, key: nat): (r: Option<nat>)
    ensures r.Some? ==> r.value < |employees| && employees[r.value].id == key
    ensures r.None? <==> forall i :: 0 <= i < |employees| ==> employees[i].id != key
  {
    if employees == [] then None
    else if employees[0].id == key then Some(0)
    else match FindEmployeeByKey(employees[1..], key)
      case Some(i) => Some(i + 1)
      case None => None
  }

  /** The user row whose key is `id`. */
  function FindUser(users: seq<User>, id: nat): (r: Option<User>)
    ensures r.Some? ==> r.value in users && r.value.id == id
    ensures r.None? <==> forall u :: u in users ==> u.id != id
  {
    if users == [] then None
    else if users[0].id == id then Some(users[0])
    else FindUser(users[1..], id)
  }

  /** The manager row whose key is `id`. */
  function FindManager(managers: seq<ManagerRow>, id: nat): (r: Option<ManagerRow>)
    ensures r.Some? ==> r.value in managers && r.value.id == id
    ensures r.None? <==> forall m :: m in managers ==> m.id != id
  {
    if managers == [] then None
    else if managers[0].id == id then Some(managers[0])
    else FindManager(managers[1..], id)
  }

  /** Looking a key up after appending a row finds the old row if there
      was one, and otherwise the appended row when its key matches. */
  lemma {:induction false} FindUserAppend(users: seq<User>, u: User, id: nat)
    ensures FindUser(users + [u], id) ==
      if FindUser(users, id).Some? then FindUser(users, id)
      else if u.id == id then Some(u) else None
  {
    if users != [] {
      assert (users + [u])[1..] == users[1..] + [u];
      FindUserAppend(users[1..], u, id);
    }
  }

  /** Looking an employee ID up after appending a row finds the old row if
      there was one, and otherwise the appended row when its ID matches. */
  lemma {:induction false} FindEmployeeAppend(employees: seq<EmployeeRow>, e: EmployeeRow, employeeId: string)
    ensures FindEmployee(employees + [e], employeeId) ==
      if FindEmployee(employees, employeeId).Some? then FindEmployee(employees, employeeId)
      else if e.employeeId == employeeId then Some(|employees|) else None
  {
    if employees != [] {
      assert (employees + [e])[1..] == employees[1..] + [e];
      FindEmployeeAppend(employees[1..], e, employeeId);
    }
  }

  /** Whether the entry log, read from its most recent entry backwards,
      shows employee `key` clocked in: the latest CLOCK_IN or CLOCK_OUT of
      that employee is a CLOCK_IN. Break entries do not count. */
  predicate ClockedInPerLog(log: seq<TimeEntry>, key: nat)
    decreases |log|
  {
    if log == [] then false
    else
      var e := log[|log| - 1];
      if e.employeeKey == key && e.kind == ClockIn then true
      else if e.employeeKey == key && e.kind == ClockOut then false
      else ClockedInPerLog(log[..|log| - 1], key)
  }

  /** An employee with no entry in the log is not clocked in. */
  lemma {:induction false} NoEntriesNotClockedIn(log: seq<TimeEntry>, key: nat)
    requires forall t :: t in log ==> t.employeeKey != key
    ensures !ClockedInPerLog(log, key)
    decreases |log|
  {
    if log != [] {
      assert log[|log| - 1] in log;
      assert forall t :: t in log[..|log| - 1] ==> t in log;
      NoEntriesNotClockedIn(log[..|log| - 1], key);
    }
  }

  /** Appending an entry changes the log's verdict only for the entry's
      employee, and only when it is a CLOCK_IN or a CLOCK_OUT. */
  lemma ClockedInAfterAppend(log: seq<TimeEntry>, e: TimeEntry, key: nat)
    ensures ClockedInPerLog(log + [e], key) ==
      if e.employeeKey == key && e.kind == ClockIn then true
      else if e.employeeKey == key && e.kind == ClockOut then false
      else ClockedInPerLog(log, key)
  {
    assert (log + [e])[..|log|] == log;
  }

  /** Entries of all employees but `key`, in log order. */
  function WithoutEntriesOf(log: seq<TimeEntry>, key: nat): (r: seq<TimeEntry>)
    ensures forall t :: t in r <==> t in log && t.employeeKey != key
    decreases |log|
  {
    if log == [] then []
    else
      var rest := WithoutEntriesOf(log[..|log| - 1], key);
      var e := log[|log| - 1];
      assert log == log[..|log| - 1] + [e];
      if e.employeeKey == key then rest else rest + [e]
  }

  /** Dropping one employee's entries leaves every other employee's
      verdict as it was. */
  lemma {:induction false} ClockedInWithout(log: seq<TimeEntry>, key: nat, other: nat)
    requires other != key
    ensures ClockedInPerLog(WithoutEntriesOf(log, key), other) == ClockedInPerLog(log, other)
    decreases |log|
  {
    if log != [] {
      var prefix := log[..|log| - 1];
      var e := log[|log| - 1];
      ClockedInWithout(prefix, key, other);
      if e.employeeKey != key {
        ClockedInAfterAppend(WithoutEntriesOf(prefix, key), e, other);
      }
    }
  }

  /** No two rows share a value in a key column. */
  ghost predicate DistinctEmployees(employees: seq<EmployeeRow>) {
    && (forall i, j :: 0 <= i < j < |employees| ==> employees[i].id != employees[j].id)
    && (forall i, j :: 0 <= i < j < |employees| ==> employees[i].employeeId != employees[j].employeeId)
    && (forall i, j :: 0 <= i < j < |employees| ==> employees[i].userId != employees[j].userId)
  }

  /** Replacing an employee row by one with the same keys keeps the key
      columns unique, every employee's user row present and every key
      below `bound`. */
  lemma ReplaceEmployee(employees: seq<EmployeeRow>, users: seq<User>, i: nat, x: EmployeeRow, bound: nat)
    requires i < |employees| && DistinctEmployees(employees)
    requires x.id == employees[i].id && x.employeeId == employees[i].employeeId && x.userId == employees[i].userId
    requires forall e :: e in employees ==> FindUser(users, e.userId).Some? && e.id < bound
    ensures DistinctEmployees(employees[i := x])
    ensures forall e :: e in employees[i := x] ==> FindUser(users, e.userId).Some? && e.id < bound
  {
    var updated := employees[i := x];
    forall e | e in updated ensures FindUser(users, e.userId).Some? && e.id < bound {
      var j :| 0 <= j < |updated| && updated[j] == e;
      assert employees[j] in employees;
    }
  }

  /** No two user rows share a key or an email. */
  ghost predicate DistinctUsers(users: seq<User>) {
    && (forall i, j :: 0 <= i < j < |users| ==> users[i].id != users[j].id)
    && (forall i, j :: 0 <= i < j < |users| ==> users[i].email != users[j].email)
  }

  ghost predicate DistinctRequestEmails(requests: seq<SignupRequest>) {
    forall i, j :: 0 <= i < j < |requests| ==> requests[i].email != requests[j].email
  }

  /** The unique columns are unique, every key handed out is below
      `nextId`, every time entry names a key already handed out, every
      employee has its user row, and each employee's stored `isClockedIn`
      flag agrees with the entry log. */
  ghost predicate Consistent(users: seq<User>, employees: seq<EmployeeRow>, managers: seq<ManagerRow>,
                             timeEntries: seq<TimeEntry>, signupRequests: seq<SignupRequest>, nextId: nat)
  {
    && (forall u :: u in users ==> u.id < nextId)
    && (forall e :: e in employees ==> e.id < nextId)
    && (forall m :: m in managers ==> m.id < nextId)
    && (forall t :: t in timeEntries ==> t.id < nextId && t.employeeKey < nextId)
    && (forall r :: r in signupRequests ==> r.id < nextId)
    && DistinctEmployees(employees)
    && DistinctUsers(users)
    && DistinctRequestEmails(signupRequests)
    && (forall e :: e in employees ==> FindUser(users, e.userId).Some?)
    && (forall e :: e in employees ==> e.isClockedIn == ClockedInPerLog(timeEntries, e.id))
  }

  /** All tables of the application. */
  class Database {
    var users: seq<User>
    var employees: seq<EmployeeRow>
    var managers: seq<ManagerRow>
    var timeEntries: seq<TimeEntry>
    var signupRequests: seq<SignupRequest>
    var facilitySettings: seq<FacilitySettings>
    var nextId: nat

    /** The tables are consistent (see `Consistent`). */
    ghost predicate Valid()
      reads this
    {
      Consistent(users, employees, managers, timeEntries, signupRequests, nextId)
    }

    /** Empty tables, except for the settings row configured at set-up. */
    constructor (settings: seq<FacilitySettings>)
      ensures Valid()
      ensures users == [] && employees == [] && managers == [] && timeEntries == []
      ensures signupRequests == [] && facilitySettings == settings
    {
      users, employees, managers, timeEntries := [], [], [], [];
      signupRequests, facilitySettings := [], settings;
      nextId := 0;
    }
  }
}

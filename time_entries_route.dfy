/** The time-entries API route: POST records a clock event through the
    time-entry service after the route's own checks; GET lists entries,
    of one employee or of everyone, in an optional time range. */
module TimeEntriesRoute {
  import opened Common
  import opened Db
  import opened Sorting
  import opened TimeEntryService
  import opened Attendance

  /** The fields of a POST body; `kind` is the body's `type`. */
  datatype TimeEntryRequest = TimeEntryRequest(
    employeeId: Option<string>,
    kind: Option<string>,
    latitude: Option<real>,
    longitude: Option<real>,
    note: Option<string>)

  /** The body of a successful POST. */
  datatype Posted = Posted(timeEntry: TimeEntry, message: string)

  const FieldsRequired: string := "Employee ID and entry type are required"
  const InvalidType: string := "Invalid entry type"
  const PostedText: string := "Time entry created successfully"

  /** The route's checks on a POST body, in order: both the employee ID
      and the type must be truthy, and the type must be one of the four
      wire names; the result is the type it names. */
  function CheckTimeEntryRequest(q: TimeEntryRequest): (r: Result<EntryType>)
    ensures !Present(q.employeeId) || !Present(q.kind) ==> r == Err(FieldsRequired)
    ensures Present(q.employeeId) && Present(q.kind) ==>
      && (r.Ok? <==> exists t :: EntryTypeName(t) == q.kind.value)
      && (r.Err? ==> r == Err(InvalidType))
    ensures r.Ok? ==> EntryTypeName(r.value) == q.kind.value
  {
    if !Present(q.employeeId) || !Present(q.kind) then Err(FieldsRequired)
    else match ParseEntryType(q.kind.value)
      case None => Err(InvalidType)
      case Some(t) => Ok(t)
  }

  /** Every wire name passes the checks and is read back as the type it
      names, whatever the (non-empty) employee ID. */
  lemma WireNamesAccepted(employeeId: string, t: EntryType, latitude: Option<real>, longitude: Option<real>,
                          note: Option<string>)
    requires employeeId != ""
    ensures CheckTimeEntryRequest(TimeEntryRequest(Some(employeeId), Some(EntryTypeName(t)), latitude, longitude, note))
            == Ok(t)
  {
    var q := TimeEntryRequest(Some(employeeId), Some(EntryTypeName(t)), latitude, longitude, note);
    match t
    case ClockIn => assert CheckTimeEntryRequest(q).value == ClockIn;
    case ClockOut => assert CheckTimeEntryRequest(q).value == ClockOut;
    case BreakStart => assert CheckTimeEntryRequest(q).value == BreakStart;
    case BreakEnd => assert CheckTimeEntryRequest(q).value == BreakEnd;
  }

  /** POST. An unreadable body fails with 500 and the parser's message; a
      body failing the route's checks gets 400 with the check's message;
      otherwise the service records the entry: its refusal (unknown
      employee, clocking out while not clocked in) becomes a 500 with the
      service's message, and an accepted entry is returned with the
      success text. Only a 200 changes the tables, and then exactly by the
      new entry and its employee's clock status. */
  method PostTimeEntry(db: Database, body: Body<TimeEntryRequest>, now: int, updatedAt: int)
    returns (r: Response<Posted>)
    requires db.Valid()
    modifies db
    ensures db.Valid()
    ensures body.Malformed? ==> r == Failure(500, body.reason)
    ensures body.Parsed? && CheckTimeEntryRequest(body.fields).Err? ==>
      r == Failure(400, CheckTimeEntryRequest(body.fields).message)
    ensures body.Parsed? && CheckTimeEntryRequest(body.fields).Ok? ==>
      var q := body.fields;
      match TimeEntryOutcome(old(db.employees), old(db.nextId), q.employeeId.value,
                             CheckTimeEntryRequest(q).value, q.latitude, q.longitude, q.note, now)
      case Ok(entry) => r == Success(Posted(entry, PostedText))
      case Err(message) => r == Failure(500, message)
    ensures r.Failure? ==> unchanged(db)
    ensures r.Success? ==>
      var q := body.fields;
      var i := FindEmployee(old(db.employees), q.employeeId.value).value;
      && db.timeEntries == old(db.timeEntries) + [r.payload.timeEntry]
      && db.employees == old(db.employees)[i := AfterEntry(old(db.employees)[i], CheckTimeEntryRequest(q).value, updatedAt)]
      && db.nextId == old(db.nextId) + 1
      && db.users == old(db.users) && db.managers == old(db.managers)
      && db.signupRequests == old(db.signupRequests) && db.facilitySettings == old(db.facilitySettings)
  {
    if body.Malformed? {
      return Failure(500, body.reason);
    }
    var q := body.fields;
    var checked := CheckTimeEntryRequest(q);
    if checked.Err? {
      return Failure(400, checked.message);
    }
    var created := CreateTimeEntry(db, q.employeeId.value, checked.value, q.latitude, q.longitude, q.note, now, updatedAt);
    match created
    case Ok(entry) => r := Success(Posted(entry, PostedText));
    case Err(message) => r := Failure(500, message);
  }

  /** The query string of a GET; `start` and `end` are the parsed
      `startDate` and `endDate`, `None` when the parameter is missing or
      empty. */
  datatype EntryQuery = EntryQuery(employeeId: Option<string>, start: Option<int>, end: Option<int>)

  /** GET: with a truthy employee ID, that employee's entries in the range;
      otherwise everyone's entries in the range; newest first either way. */
  function GetTimeEntries(employees: seq<EmployeeRow>, log: seq<TimeEntry>, q: EntryQuery): (r: seq<TimeEntry>)
    ensures SortedBy(r, NewestFirst)
    ensures !Present(q.employeeId) ==> forall t :: t in r <==> t in log && InRange(t.timestamp, q.start, q.end)
    ensures !Present(q.employeeId) ==> multiset(r) == multiset(Window(log, q.start, q.end))
    ensures Present(q.employeeId) && FindEmployee(employees, q.employeeId.value).None? ==> r == []
    ensures Present(q.employeeId) && FindEmployee(employees, q.employeeId.value).Some? ==>
      var key := employees[FindEmployee(employees, q.employeeId.value).value].id;
      && (forall t :: t in r <==> t in log && t.employeeKey == key && InRange(t.timestamp, q.start, q.end))
      && multiset(r) == multiset(Window(EntriesOf(log, key), q.start, q.end))
  {
    if Present(q.employeeId) then GetEmployeeTimeEntries(employees, log, q.employeeId.value, q.start, q.end)
    else GetAllTimeEntries(log, q.start, q.end)
  }

  /** An entry just recorded through POST is listed by a following GET for
      that employee when its time is in the range. */
  lemma PostedEntryListed(employees: seq<EmployeeRow>, log: seq<TimeEntry>, employeeId: string, entry: TimeEntry,
                          start: Option<int>, end: Option<int>)
    requires FindEmployee(employees, employeeId).Some?
    requires entry.employeeKey == employees[FindEmployee(employees, employeeId).value].id
    requires InRange(entry.timestamp, start, end) && employeeId != ""
    ensures entry in GetTimeEntries(employees, log + [entry], EntryQuery(Some(employeeId), start, end))
  {
    assert entry in log + [entry];
  }
}

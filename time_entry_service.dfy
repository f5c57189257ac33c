/** The time-entry service: recording a clock event for an employee and
    the read-only queries over the time-entry table. The clock is given
    as parameters, in milliseconds: `now` is the reading stamped on a new
    entry and `updatedAt` the later reading stored in its employee's row. */
module TimeEntryService {
  import opened Common
  import opened Db
  import opened Sorting
  import opened Attendance

  /** The new employee row after an accepted entry of type `kind`, the
      row being written at `updatedAt`: a CLOCK_IN sets the flag and the
      last clock-in time, a CLOCK_OUT clears the flag and sets the last
      clock-out time, and a break leaves the row as it was. */
  function AfterEntry(e: EmployeeRow, kind: EntryType, updatedAt: int): EmployeeRow {
    match kind
    case ClockIn => e.(isClockedIn := true, lastClockIn := Some(updatedAt))
    case ClockOut => e.(isClockedIn := false, lastClockOut := Some(updatedAt))
    case _ => e
  }

  /** Whether the service accepts an entry of type `kind` for an employee
      whose clock flag is `clockedIn`: only a CLOCK_OUT is ever refused, and
      only when the employee is not clocked in. */
  predicate Accepts(kind: EntryType, clockedIn: bool) {
    kind != ClockOut || clockedIn
  }

  /** The outcome of recording a clock event for the employee whose
      human-facing ID is `employeeId`: an unknown employee and a CLOCK_OUT
      while not clocked in are refused with the service's messages;
      otherwise the new entry, keyed `nextId`, of the requested type for
      that employee at `now`. */
  function TimeEntryOutcome(employees: seq<EmployeeRow>, nextId: nat, employeeId: string, kind: EntryType,
                            latitude: Option<real>, longitude: Option<real>, note: Option<string>, now: int)
    : (r: Result<TimeEntry>)
    ensures FindEmployee(employees, employeeId).None? ==>
      r == Err("Employee with ID " + employeeId + " not found")
    ensures FindEmployee(employees, employeeId).Some? ==>
      var emp := employees[FindEmployee(employees, employeeId).value];
      && (!Accepts(kind, emp.isClockedIn) ==> r == Err("Cannot clock out - employee is not currently clocked in"))
      && (Accepts(kind, emp.isClockedIn) ==> r == Ok(TimeEntry(nextId, emp.id, kind, now, latitude, longitude, note)))
  {
    match FindEmployee(employees, employeeId)
    case None => Err("Employee with ID " + employeeId + " not found")
    case Some(i) =>
      var emp := employees[i];
      if kind == ClockOut && !emp.isClockedIn then Err("Cannot clock out - employee is not currently clocked in")
      else Ok(TimeEntry(nextId, emp.id, kind, now, latitude, longitude, note))
  }

  /** `createTimeEntry`: a refused call changes nothing; an accepted one
      appends exactly its entry and updates its employee's clock status.
      The invariant that each stored clock flag agrees with the log is
      kept. */
  method CreateTimeEntry(db: Database, employeeId: string, kind: EntryType,
                         latitude: Option<real>, longitude: Option<real>, note: Option<string>,
                         now: int, updatedAt: int)
    returns (r: Result<TimeEntry>)
    requires db.Valid()
    modifies db
    ensures db.Valid()
    ensures r == TimeEntryOutcome(old(db.employees), old(db.nextId), employeeId, kind, latitude, longitude, note, now)
    ensures r.Err? ==> unchanged(db)
    ensures r.Ok? ==>
      var i := FindEmployee(old(db.employees), employeeId).value;
      && db.timeEntries == old(db.timeEntries) + [r.value]
      && db.employees == old(db.employees)[i := AfterEntry(old(db.employees)[i], kind, updatedAt)]
      && db.nextId == old(db.nextId) + 1
      && db.users == old(db.users) && db.managers == old(db.managers)
      && db.signupRequests == old(db.signupRequests) && db.facilitySettings == old(db.facilitySettings)
  {
    r := TimeEntryOutcome(db.employees, db.nextId, employeeId, kind, latitude, longitude, note, now);
    if r.Err? {
      return;
    }
    StoreEntry(db, FindEmployee(db.employees, employeeId).value, r.value, updatedAt);
  }

  /** The writes of an accepted entry: the entry is inserted under the
      next key and its employee's row gets the new clock status. Each
      stored clock flag keeps agreeing with the log. */
  method StoreEntry(db: Database, i: nat, entry: TimeEntry, updatedAt: int)
    requires db.Valid() && i < |db.employees|
    requires entry.id == db.nextId && entry.employeeKey == db.employees[i].id
    requires Accepts(entry.kind, db.employees[i].isClockedIn)
    modifies db
    ensures db.Valid()
    ensures db.timeEntries == old(db.timeEntries) + [entry]
    ensures db.employees == old(db.employees)[i := AfterEntry(old(db.employees)[i], entry.kind, updatedAt)]
    ensures db.nextId == old(db.nextId) + 1
    ensures db.users == old(db.users) && db.managers == old(db.managers)
    ensures db.signupRequests == old(db.signupRequests) && db.facilitySettings == old(db.facilitySettings)
  {
    AcceptedEntryConsistent(db.users, db.employees, db.managers, db.timeEntries, db.signupRequests, db.nextId,
                            i, entry, updatedAt);
    db.timeEntries, db.nextId, db.employees :=
      db.timeEntries + [entry], db.nextId + 1, db.employees[i := AfterEntry(db.employees[i], entry.kind, updatedAt)];
  }

  /** Appending an accepted entry with a fresh key, updating its
      employee's row and advancing the key counter keeps the tables
      consistent. */
  lemma AcceptedEntryConsistent(users: seq<User>, employees: seq<EmployeeRow>, managers: seq<ManagerRow>,
                                log: seq<TimeEntry>, requests: seq<SignupRequest>, nextId: nat,
                                i: nat, entry: TimeEntry, updatedAt: int)
    requires Consistent(users, employees, managers, log, requests, nextId)
    requires i < |employees| && entry.id == nextId && entry.employeeKey == employees[i].id
    requires Accepts(entry.kind, employees[i].isClockedIn)
    ensures Consistent(users, employees[i := AfterEntry(employees[i], entry.kind, updatedAt)], managers,
                       log + [entry], requests, nextId + 1)
  {
    FlagsFollowLog(log, employees, i, entry, updatedAt);
    ReplaceEmployee(employees, users, i, AfterEntry(employees[i], entry.kind, updatedAt), nextId);
    assert employees[i] in employees;
  }

  /** After an accepted entry is appended and its employee's row updated,
      every stored clock flag still agrees with the log. */
  lemma FlagsFollowLog(log: seq<TimeEntry>, employees: seq<EmployeeRow>, i: nat, entry: TimeEntry, updatedAt: int)
    requires i < |employees| && DistinctEmployees(employees)
    requires entry.employeeKey == employees[i].id
    requires Accepts(entry.kind, employees[i].isClockedIn)
    requires forall e :: e in employees ==> e.isClockedIn == ClockedInPerLog(log, e.id)
    ensures forall e :: e in employees[i := AfterEntry(employees[i], entry.kind, updatedAt)] ==>
      e.isClockedIn == ClockedInPerLog(log + [entry], e.id)
  {
    var updated := employees[i := AfterEntry(employees[i], entry.kind, updatedAt)];
    forall e | e in updated ensures e.isClockedIn == ClockedInPerLog(log + [entry], e.id) {
      ClockedInAfterAppend(log, entry, e.id);
      var j :| 0 <= j < |updated| && updated[j] == e;
      if j != i {
        assert employees[j] == e && employees[j] in employees;
      } else {
        assert employees[i] in employees;
      }
    }
  }

  /** The timestamp filter of the queries: it applies only when both
      bounds are given, and then includes both bounds. */
  predicate InRange(timestamp: int, start: Option<int>, end: Option<int>) {
    start.Some? && end.Some? ==> start.value <= timestamp <= end.value
  }

  /** The entries of `log` inside the range, in log order. */
  function Window(log: seq<TimeEntry>, start: Option<int>, end: Option<int>): (r: seq<TimeEntry>)
    ensures forall t :: t in r <==> t in log && InRange(t.timestamp, start, end)
    ensures |r| <= |log| && IsSubsequence(r, log)
    ensures forall t :: multiset(r)[t] == if InRange(t.timestamp, start, end) then multiset(log)[t] else 0
  {
    if log == [] then []
    else
      var rest := Window(log[..|log| - 1], start, end);
      FilterStep(log, rest, (t: TimeEntry) => InRange(t.timestamp, start, end));
      if InRange(log[|log| - 1].timestamp, start, end) then rest + [log[|log| - 1]] else rest
  }

  /** The newest-first sort key. */
  function NewestFirst(t: TimeEntry): real {
    -(t.timestamp as real)
  }

  /** The entries of the employee with human-facing ID `employeeId` in the
      range, newest first; an unknown employee has none. */
  function GetEmployeeTimeEntries(employees: seq<EmployeeRow>, log: seq<TimeEntry>, employeeId: string,
                                  start: Option<int>, end: Option<int>): (r: seq<TimeEntry>)
    ensures FindEmployee(employees, employeeId).None? ==> r == []
    ensures FindEmployee(employees, employeeId).Some? ==>
      forall t :: t in r <==>
        t in log && t.employeeKey == employees[FindEmployee(employees, employeeId).value].id
        && InRange(t.timestamp, start, end)
    ensures FindEmployee(employees, employeeId).Some? ==>
      multiset(r) == multiset(Window(EntriesOf(log, employees[FindEmployee(employees, employeeId).value].id), start, end))
    ensures SortedBy(r, NewestFirst)
  {
    match FindEmployee(employees, employeeId)
    case None => []
    case Some(i) =>
      var w := Window(EntriesOf(log, employees[i].id), start, end);
      SortByMembers(w, NewestFirst);
      SortBy(w, NewestFirst)
  }

  /** All entries in the range, newest first. */
  function GetAllTimeEntries(log: seq<TimeEntry>, start: Option<int>, end: Option<int>): (r: seq<TimeEntry>)
    ensures forall t :: t in r <==> t in log && InRange(t.timestamp, start, end)
    ensures multiset(r) == multiset(Window(log, start, end))
    ensures SortedBy(r, NewestFirst)
  {
    SortByMembers(Window(log, start, end), NewestFirst);
    SortBy(Window(log, start, end), NewestFirst)
  }

  /** The statistics returned for an employee. */
  datatype Stats = Stats(totalHours: real, totalDays: nat, averageHoursPerDay: real, clockIns: nat, clockOuts: nat)

  /** The result built from the loop's final state: totals rounded to two
      decimals, and an average of 0 when no day was completed. */
  function Summary(t: Tally): Stats {
    Stats(Round2(t.totalHours), t.totalDays,
          if t.totalDays > 0 then Round2(t.totalHours / t.totalDays as real) else 0.0,
          t.clockIns, t.clockOuts)
  }

  /** The entries the statistics are computed over: those whose employee
      reference is `key` and that lie in the range, oldest first. */
  function StatsEntries(log: seq<TimeEntry>, key: nat, start: Option<int>, end: Option<int>): (r: seq<TimeEntry>)
    ensures SortedBy(r, TimeKey)
    ensures multiset(r) == multiset(Window(EntriesOf(log, key), start, end))
  {
    SortBy(Window(EntriesOf(log, key), start, end), TimeKey)
  }

  /** The statistics loop over entries already in time order: a
      CLOCK_IN becomes the pending clock-in, a CLOCK_OUT with a pending
      clock-in closes a day and adds its hours, anything else is skipped. */
  method TallyEntries(entries: seq<TimeEntry>) returns (t: Tally)
    ensures t == Pair(Events(entries))
  {
    var totalHours: real, totalDays: nat, clockIns: nat, clockOuts: nat := 0.0, 0, 0, 0;
    var currentClockIn: Option<int> := None;
    ghost var events := Events(entries);
    ghost var acc := Pair(events[..0]);
    var i := 0;
    while i < |entries|
      invariant 0 <= i <= |entries|
      invariant acc == Pair(events[..i])
      invariant Tally(totalHours, totalDays, clockIns, clockOuts, currentClockIn) == acc
    {
      var entry := entries[i];
      assert events[i] == Event(entry.kind, entry.timestamp);
      if entry.kind == ClockIn {
        currentClockIn := Some(entry.timestamp);
        clockIns := clockIns + 1;
      } else if entry.kind == ClockOut && currentClockIn.Some? {
        var hours := HoursBetween(currentClockIn.value, entry.timestamp);
        totalHours := totalHours + hours;
        totalDays := totalDays + 1;
        currentClockIn := None;
        clockOuts := clockOuts + 1;
      }
      PairSnoc(events, i);
      acc := Step(acc, events[i]);
      i := i + 1;
    }
    assert events[..i] == events;
    t := Tally(totalHours, totalDays, clockIns, clockOuts, currentClockIn);
  }

  /** Worked-hour statistics of one employee. The entries are walked
      oldest first, pairing the pending clock-in with the next clock-out.
      Completed days equal counted clock-outs and never exceed the
      clock-ins, every CLOCK_IN in the range is counted, the hours are not
      negative, and the average is 0 when no day was completed. */
  method GetEmployeeStats(log: seq<TimeEntry>, key: nat, start: Option<int>, end: Option<int>) returns (r: Stats)
    ensures r == Summary(Pair(Events(StatsEntries(log, key, start, end))))
    ensures r.clockOuts == r.totalDays <= r.clockIns
    ensures r.clockIns == CountKind(Events(Window(EntriesOf(log, key), start, end)), ClockIn)
    ensures r.totalHours >= 0.0 && r.averageHoursPerDay >= 0.0
    ensures r.totalDays == 0 ==> r.averageHoursPerDay == 0.0
  {
    var entries := StatsEntries(log, key, start, end);
    var t := TallyEntries(entries);
    SummaryProperties(log, key, start, end);
    r := Summary(t);
  }

  /** Rounding keeps the loop's facts: days equal clock-outs and do not
      exceed clock-ins, hours and average are not negative, and no completed
      day means an average of 0. */
  lemma SummaryOfTally(t: Tally)
    requires t.totalHours >= 0.0
    requires t.clockOuts == t.totalDays <= t.clockIns
    ensures Summary(t).clockOuts == Summary(t).totalDays <= Summary(t).clockIns
    ensures Summary(t).totalHours >= 0.0 && Summary(t).averageHoursPerDay >= 0.0
    ensures Summary(t).totalDays == 0 ==> Summary(t).averageHoursPerDay == 0.0
  {
    if t.totalDays > 0 {
      assert t.totalHours / t.totalDays as real >= 0.0;
    }
  }

  /** What the statistics promise, proved about the final loop state. */
  lemma SummaryProperties(log: seq<TimeEntry>, key: nat, start: Option<int>, end: Option<int>)
    ensures var r := Summary(Pair(Events(StatsEntries(log, key, start, end))));
      && r.clockOuts == r.totalDays <= r.clockIns
      && r.clockIns == CountKind(Events(Window(EntriesOf(log, key), start, end)), ClockIn)
      && r.totalHours >= 0.0 && r.averageHoursPerDay >= 0.0
      && (r.totalDays == 0 ==> r.averageHoursPerDay == 0.0)
  {
    var entries := StatsEntries(log, key, start, end);
    SortedEventsAscending(entries);
    PairNonNegative(Events(entries));
    CountKindPermutation(entries, Window(EntriesOf(log, key), start, end), ClockIn);
    SummaryOfTally(Pair(Events(entries)));
  }

  /** One row of the department report. `name` is the name of the
      employee's user row. */
  datatype DepartmentStat = DepartmentStat(
    employeeId: string, name: Option<string>, department: string, position: string,
    clockIns: nat, clockOuts: nat, isClockedIn: bool)

  function DepartmentStatOf(e: EmployeeRow, users: seq<User>, log: seq<TimeEntry>,
                            start: Option<int>, end: Option<int>): DepartmentStat
  {
    var ev := Events(Window(EntriesOf(log, e.id), start, end));
    DepartmentStat(e.employeeId,
                   match FindUser(users, e.userId) case Some(u) => Some(u.name) case None => None,
                   e.department, e.position,
                   CountKind(ev, ClockIn), CountKind(ev, ClockOut), e.isClockedIn)
  }

  /** The employees of `department`, in table order (`findMany` with a
      `where` on the department). */
  function DepartmentMembers(employees: seq<EmployeeRow>, department: string): (r: seq<EmployeeRow>)
    ensures |r| <= |employees| && IsSubsequence(r, employees)
    ensures forall e :: multiset(r)[e] == if e.department == department then multiset(employees)[e] else 0
    ensures forall e :: e in r <==> e in employees && e.department == department
  {
    if employees == [] then []
    else
      var rest := DepartmentMembers(employees[..|employees| - 1], department);
      FilterStep(employees, rest, (t: EmployeeRow) => t.department == department);
      if employees[|employees| - 1].department == department then rest + [employees[|employees| - 1]] else rest
  }

  /** The report rows of `members`, one per member and in their order. */
  function StatRows(members: seq<EmployeeRow>, users: seq<User>, log: seq<TimeEntry>,
                    start: Option<int>, end: Option<int>): (r: seq<DepartmentStat>)
    ensures |r| == |members|
    ensures forall k :: 0 <= k < |r| ==> r[k] == DepartmentStatOf(members[k], users, log, start, end)
  {
    if members == [] then []
    else [DepartmentStatOf(members[0], users, log, start, end)] + StatRows(members[1..], users, log, start, end)
  }

  /** One row per employee of `department`, in table order, with that
      employee's clock-in and clock-out counts in the range. */
  function GetDepartmentStats(employees: seq<EmployeeRow>, users: seq<User>, log: seq<TimeEntry>,
                              department: string, start: Option<int>, end: Option<int>): (r: seq<DepartmentStat>)
    ensures |r| == |DepartmentMembers(employees, department)|
    ensures forall k :: 0 <= k < |r| ==>
      r[k] == DepartmentStatOf(DepartmentMembers(employees, department)[k], users, log, start, end)
    ensures forall s :: s in r ==> s.department == department
    ensures forall e :: e in employees && e.department == department ==>
      DepartmentStatOf(e, users, log, start, end) in r
  {
    var members := DepartmentMembers(employees, department);
    RowsCoverMembers(members, employees, department, users, log, start, end);
    StatRows(members, users, log, start, end)
  }

  /** The rows of a department's members belong to that department, and
      every employee of the department has its row. */
  lemma RowsCoverMembers(members: seq<EmployeeRow>, employees: seq<EmployeeRow>, department: string,
                         users: seq<User>, log: seq<TimeEntry>, start: Option<int>, end: Option<int>)
    requires forall e :: e in members <==> e in employees && e.department == department
    ensures forall s :: s in StatRows(members, users, log, start, end) ==> s.department == department
    ensures forall e :: e in employees && e.department == department ==>
      DepartmentStatOf(e, users, log, start, end) in StatRows(members, users, log, start, end)
  {
    var r := StatRows(members, users, log, start, end);
    forall s | s in r ensures s.department == department {
      var k :| 0 <= k < |r| && r[k] == s;
      assert members[k] in members;
    }
    forall e | e in employees && e.department == department
      ensures DepartmentStatOf(e, users, log, start, end) in r
    {
      var k :| 0 <= k < |members| && members[k] == e;
      assert r[k] == DepartmentStatOf(e, users, log, start, end);
    }
  }

  /** The department report and the employee statistics agree: the
      report counts the same clock-ins, and at least as many clock-outs
      (the statistics skip a CLOCK_OUT with no pending clock-in). */
  lemma DepartmentAgreesWithStats(e: EmployeeRow, users: seq<User>, log: seq<TimeEntry>,
                                  start: Option<int>, end: Option<int>)
    ensures DepartmentStatOf(e, users, log, start, end).clockIns
      == Pair(Events(StatsEntries(log, e.id, start, end))).clockIns
    ensures DepartmentStatOf(e, users, log, start, end).clockOuts
      >= Pair(Events(StatsEntries(log, e.id, start, end))).clockOuts
  {
    var w := Window(EntriesOf(log, e.id), start, end);
    CountKindPermutation(StatsEntries(log, e.id, start, end), w, ClockIn);
    CountKindPermutation(StatsEntries(log, e.id, start, end), w, ClockOut);
  }

  /** The clock status of the employee row with key `key`. */
  datatype ClockStatus = ClockStatus(isClockedIn: bool, lastClockIn: Option<int>, lastClockOut: Option<int>)

  function GetCurrentClockStatus(employees: seq<EmployeeRow>, key: nat): (r: Option<ClockStatus>)
    ensures r.None? <==> forall e :: e in employees ==> e.id != key
    ensures r.Some? ==>
      exists e :: e in employees && e.id == key && r.value == ClockStatus(e.isClockedIn, e.lastClockIn, e.lastClockOut)
  {
    match FindEmployeeByKey(employees, key)
    case None => None
    case Some(i) =>
      var e := employees[i];
      Some(ClockStatus(e.isClockedIn, e.lastClockIn, e.lastClockOut))
  }

  /** In a consistent database the reported status is the log's verdict,
      which is also what the statistics loop leaves pending. */
  lemma ClockStatusMatchesLog(db: Database, key: nat)
    requires db.Valid()
    requires GetCurrentClockStatus(db.employees, key).Some?
    ensures GetCurrentClockStatus(db.employees, key).value.isClockedIn == ClockedInPerLog(db.timeEntries, key)
    ensures GetCurrentClockStatus(db.employees, key).value.isClockedIn
      == Pair(Events(EntriesOf(db.timeEntries, key))).pending.Some?
  {
    ClockedInIsPending(db.timeEntries, key);
  }
}

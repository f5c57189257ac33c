/** The analytics endpoint: one employee's statistics, a department
    report, or the overall statistics with type counts, staff on duty, a
    department histogram and the recent activity feed. */
module Analytics {
  import opened Common
  import opened Db
  import opened Attendance
  import opened TimeEntryService

  /** BREAK_START and BREAK_END both count as breaks. */
  predicate IsBreak(k: EntryType) {
    k == BreakStart || k == BreakEnd
  }

  /** The number of break events. */
  function CountBreaks(events: seq<Event>): (r: nat)
    ensures r <= |events|
  {
    if events == [] then 0
    else CountBreaks(events[..|events| - 1]) + (if IsBreak(events[|events| - 1].kind) then 1 else 0)
  }

  /** Every entry is a clock-in, a clock-out or a break, so the three
      counts add up to the number of entries. */
  lemma {:induction false} TypeCountsConserved(events: seq<Event>)
    ensures CountKind(events, ClockIn) + CountKind(events, ClockOut) + CountBreaks(events) == |events|
  {
    if events != [] {
      TypeCountsConserved(events[..|events| - 1]);
    }
  }

  /** The break count is the sum of the two break types. */
  lemma {:induction false} BreaksAreBothBreakTypes(events: seq<Event>)
    ensures CountBreaks(events) == CountKind(events, BreakStart) + CountKind(events, BreakEnd)
  {
    if events != [] {
      BreaksAreBothBreakTypes(events[..|events| - 1]);
    }
  }

  /** The number of employees currently clocked in. */
  function CountActive(employees: seq<EmployeeRow>): (r: nat)
    ensures r <= |employees|
  {
    if employees == [] then 0
    else CountActive(employees[..|employees| - 1]) + (if employees[|employees| - 1].isClockedIn then 1 else 0)
  }

  /** In a consistent database the active staff are those whose log shows
      them clocked in. */
  lemma {:induction false} ActiveMatchesLog(employees: seq<EmployeeRow>, log: seq<TimeEntry>)
    requires forall e :: e in employees ==> e.isClockedIn == ClockedInPerLog(log, e.id)
    ensures CountActive(employees) == CountClockedIn(employees, log)
  {
    if employees != [] {
      assert employees[|employees| - 1] in employees;
      assert forall e :: e in employees[..|employees| - 1] ==> e in employees;
      ActiveMatchesLog(employees[..|employees| - 1], log);
    }
  }

  /** The number of employees whose log shows them clocked in. */
  function CountClockedIn(employees: seq<EmployeeRow>, log: seq<TimeEntry>): (r: nat)
    ensures r <= |employees|
  {
    if employees == [] then 0
    else
      var e := employees[|employees| - 1];
      CountClockedIn(employees[..|employees| - 1], log) + (if ClockedInPerLog(log, e.id) then 1 else 0)
  }

  /** The histogram key of an employee: its department, or "Unassigned"
      when that is empty. */
  function DepartmentKey(e: EmployeeRow): string {
    if e.department != "" then e.department else "Unassigned"
  }

  /** The number of employees whose key is `d`. */
  function CountInDepartment(employees: seq<EmployeeRow>, d: string): (r: nat)
    ensures r <= |employees|
  {
    if employees == [] then 0
    else
      var e := employees[|employees| - 1];
      CountInDepartment(employees[..|employees| - 1], d) + (if DepartmentKey(e) == d then 1 else 0)
  }

  /** Some employee has key `d`. */
  predicate AnyInDepartment(employees: seq<EmployeeRow>, d: string) {
    employees != [] &&
    (DepartmentKey(employees[|employees| - 1]) == d || AnyInDepartment(employees[..|employees| - 1], d))
  }

  lemma {:induction false} NoneInDepartment(employees: seq<EmployeeRow>, d: string)
    requires !AnyInDepartment(employees, d)
    ensures CountInDepartment(employees, d) == 0
  {
    if employees != [] {
      NoneInDepartment(employees[..|employees| - 1], d);
    }
  }

  /** One entry of the histogram. */
  datatype DepartmentCount = DepartmentCount(department: string, count: nat)

  predicate HasDepartment(rows: seq<DepartmentCount>, d: string) {
    exists j :: 0 <= j < |rows| && rows[j].department == d
  }

  function FindDepartment(rows: seq<DepartmentCount>, d: string): (r: Option<nat>)
    ensures r.Some? ==> r.value < |rows| && rows[r.value].department == d
    ensures r.None? ==> forall j :: 0 <= j < |rows| ==> rows[j].department != d
  {
    if rows == [] then None
    else if rows[0].department == d then Some(0)
    else match FindDepartment(rows[1..], d)
      case Some(j) => Some(j + 1)
      case None => None
  }

  function SumCounts(rows: seq<DepartmentCount>): nat {
    if rows == [] then 0 else SumCounts(rows[..|rows| - 1]) + rows[|rows| - 1].count
  }

  lemma SumCountsAppend(rows: seq<DepartmentCount>, x: DepartmentCount)
    ensures SumCounts(rows + [x]) == SumCounts(rows) + x.count
  {
    assert (rows + [x])[..|rows|] == rows;
  }

  lemma {:induction false} SumCountsIncrement(rows: seq<DepartmentCount>, k: nat)
    requires k < |rows|
    ensures SumCounts(rows[k := rows[k].(count := rows[k].count + 1)]) == SumCounts(rows) + 1
  {
    var updated := rows[k := rows[k].(count := rows[k].count + 1)];
    if k < |rows| - 1 {
      SumCountsIncrement(rows[..|rows| - 1], k);
      assert updated[..|rows| - 1] == rows[..|rows| - 1][k := rows[k].(count := rows[k].count + 1)];
    } else {
      assert updated[..|rows| - 1] == rows[..|rows| - 1];
    }
  }

  lemma HasDepartmentAppend(rows: seq<DepartmentCount>, x: DepartmentCount, d: string)
    ensures HasDepartment(rows + [x], d) <==> HasDepartment(rows, d) || x.department == d
  {
    var all := rows + [x];
    if HasDepartment(all, d) && x.department != d {
      var j :| 0 <= j < |all| && all[j].department == d;
      assert rows[j].department == d;
    }
    if HasDepartment(rows, d) {
      var j :| 0 <= j < |rows| && rows[j].department == d;
      assert all[j].department == d;
    }
    if x.department == d {
      assert all[|rows|].department == d;
    }
  }

  lemma HasDepartmentIncrement(rows: seq<DepartmentCount>, k: nat, d: string)
    requires k < |rows|
    ensures HasDepartment(rows[k := rows[k].(count := rows[k].count + 1)], d) <==> HasDepartment(rows, d)
  {
    var updated := rows[k := rows[k].(count := rows[k].count + 1)];
    if HasDepartment(rows, d) {
      var j :| 0 <= j < |rows| && rows[j].department == d;
      assert updated[j].department == d;
    }
    if HasDepartment(updated, d) {
      var j :| 0 <= j < |updated| && updated[j].department == d;
      assert rows[j].department == d;
    }
  }

  ghost predicate DistinctKeys(rows: seq<DepartmentCount>) {
    forall i, j :: 0 <= i < j < |rows| ==> rows[i].department != rows[j].department
  }

  /** Each key carries its number of employees. */
  ghost predicate KeyCounts(rows: seq<DepartmentCount>, employees: seq<EmployeeRow>) {
    forall j :: 0 <= j < |rows| ==> rows[j].count == CountInDepartment(employees, rows[j].department)
  }

  /** Exactly the keys of some employee occur. */
  ghost predicate KeysCover(rows: seq<DepartmentCount>, employees: seq<EmployeeRow>) {
    forall d :: HasDepartment(rows, d) <==> AnyInDepartment(employees, d)
  }

  /** Counting employee `i` in adds one to the count of its key and
      leaves the count of every other key. */
  lemma CountInDepartmentSnoc(employees: seq<EmployeeRow>, i: nat, d: string)
    requires i < |employees|
    ensures CountInDepartment(employees[..i + 1], d) ==
      CountInDepartment(employees[..i], d) + (if DepartmentKey(employees[i]) == d then 1 else 0)
    ensures AnyInDepartment(employees[..i + 1], d) <==> AnyInDepartment(employees[..i], d) || DepartmentKey(employees[i]) == d
  {
    assert employees[..i + 1][..i] == employees[..i];
  }

  /** The step of the histogram loop for a key already present at `k`. */
  lemma CountedExisting(rows: seq<DepartmentCount>, employees: seq<EmployeeRow>, i: nat, k: nat)
    requires i < |employees| && FindDepartment(rows, DepartmentKey(employees[i])) == Some(k)
    requires DistinctKeys(rows) && KeyCounts(rows, employees[..i]) && KeysCover(rows, employees[..i])
    ensures var next := Counted(rows, DepartmentKey(employees[i]));
      && DistinctKeys(next) && KeyCounts(next, employees[..i + 1]) && KeysCover(next, employees[..i + 1])
      && SumCounts(next) == SumCounts(rows) + 1
  {
    var next := rows[k := rows[k].(count := rows[k].count + 1)];
    assert next == Counted(rows, DepartmentKey(employees[i]));
    forall j | 0 <= j < |next|
      ensures next[j].count == CountInDepartment(employees[..i + 1], next[j].department)
    {
      CountInDepartmentSnoc(employees, i, next[j].department);
    }
    forall d ensures HasDepartment(next, d) <==> AnyInDepartment(employees[..i + 1], d) {
      CountInDepartmentSnoc(employees, i, d);
      HasDepartmentIncrement(rows, k, d);
      if d == rows[k].department { assert rows[k].department == d; }
    }
    SumCountsIncrement(rows, k);
  }

  /** The step of the histogram loop for a key not yet present. */
  lemma CountedNew(rows: seq<DepartmentCount>, employees: seq<EmployeeRow>, i: nat)
    requires i < |employees| && FindDepartment(rows, DepartmentKey(employees[i])).None?
    requires DistinctKeys(rows) && KeyCounts(rows, employees[..i]) && KeysCover(rows, employees[..i])
    ensures var next := Counted(rows, DepartmentKey(employees[i]));
      && DistinctKeys(next) && KeyCounts(next, employees[..i + 1]) && KeysCover(next, employees[..i + 1])
      && SumCounts(next) == SumCounts(rows) + 1
  {
    var dept := DepartmentKey(employees[i]);
    var x := DepartmentCount(dept, 1);
    var next := rows + [x];
    assert next == Counted(rows, dept);
    NoneInDepartment(employees[..i], dept);
    forall j | 0 <= j < |next|
      ensures next[j].count == CountInDepartment(employees[..i + 1], next[j].department)
    {
      CountInDepartmentSnoc(employees, i, next[j].department);
    }
    forall d ensures HasDepartment(next, d) <==> AnyInDepartment(employees[..i + 1], d) {
      CountInDepartmentSnoc(employees, i, d);
      HasDepartmentAppend(rows, x, d);
    }
    SumCountsAppend(rows, x);
  }

  /** Adding a key with count 0 and then counting it once is adding it
      with count 1. */
  lemma AppendThenCount(rows: seq<DepartmentCount>, dept: string)
    ensures var grown := rows + [DepartmentCount(dept, 0)];
      grown[|grown| - 1 := grown[|grown| - 1].(count := grown[|grown| - 1].count + 1)]
      == rows + [DepartmentCount(dept, 1)]
  {
    var grown := rows + [DepartmentCount(dept, 0)];
    assert grown[|grown| - 1].(count := 1) == DepartmentCount(dept, 1);
  }

  /** One step of the histogram loop: when `rows` holds the histogram of
      the first `i` employees, counting the key of employee `i` in gives
      the histogram of the first `i + 1`, whose counts add up to one
      more. */
  lemma AddToHistogram(rows: seq<DepartmentCount>, employees: seq<EmployeeRow>, i: nat)
    requires i < |employees|
    requires DistinctKeys(rows) && KeyCounts(rows, employees[..i]) && KeysCover(rows, employees[..i])
    ensures var next := Counted(rows, DepartmentKey(employees[i]));
      && DistinctKeys(next) && KeyCounts(next, employees[..i + 1]) && KeysCover(next, employees[..i + 1])
      && SumCounts(next) == SumCounts(rows) + 1
  {
    match FindDepartment(rows, DepartmentKey(employees[i]))
    case Some(k) => CountedExisting(rows, employees, i, k);
    case None => CountedNew(rows, employees, i);
  }

  /** `rows` with the key `dept` counted once more, added at the end
      with count 1 when it is new. */
  function Counted(rows: seq<DepartmentCount>, dept: string): seq<DepartmentCount> {
    match FindDepartment(rows, dept)
    case Some(k) => rows[k := rows[k].(count := rows[k].count + 1)]
    case None => rows + [DepartmentCount(dept, 1)]
  }

  /** One step of the histogram: the key gets a row with count 0 when it
      has none, and its count is then incremented. */
  method CountKey(rows: seq<DepartmentCount>, dept: string) returns (next: seq<DepartmentCount>)
    ensures next == Counted(rows, dept)
  {
    next := rows;
    var k: nat;
    match FindDepartment(rows, dept) {
      case Some(j) =>
        k := j;
      case None =>
        AppendThenCount(rows, dept);
        next := next + [DepartmentCount(dept, 0)];
        k := |next| - 1;
    }
    next := next[k := next[k].(count := next[k].count + 1)];
  }

  /** The department histogram, keys in the order the counting object
      received them (its first appearance). Each key occurs once and only
      keys of some employee occur, each count is that key's number of
      employees, and the counts add up to the number of employees. The
      counting object is taken to be a plain map: keys that name members of
      `Object.prototype`, and the listing order `Object.entries` gives
      integer-like keys, are not part of this model. */
  method DepartmentBreakdown(employees: seq<EmployeeRow>) returns (rows: seq<DepartmentCount>)
    ensures DistinctKeys(rows) && KeyCounts(rows, employees) && KeysCover(rows, employees)
    ensures SumCounts(rows) == |employees|
  {
    rows := [];
    var i := 0;
    while i < |employees|
      invariant 0 <= i <= |employees|
      invariant DistinctKeys(rows) && KeyCounts(rows, employees[..i]) && KeysCover(rows, employees[..i])
      invariant SumCounts(rows) == i
    {
      AddToHistogram(rows, employees, i);
      rows := CountKey(rows, DepartmentKey(employees[i]));
      i := i + 1;
    }
    assert employees[..i] == employees;
  }

  /** The label of an entry in the activity feed: anything but a
      CLOCK_IN, breaks included, reads "Clocked Out". */
  function ActionLabel(k: EntryType): string {
    if k == ClockIn then "Clocked In" else "Clocked Out"
  }

  /** One line of the activity feed; `time` is the entry's timestamp. */
  datatype Activity = Activity(time: int, action: string, staffName: string, kind: EntryType)

  /** The name of the user of the entry's employee, if both rows exist. */
  function UserNameOf(t: TimeEntry, employees: seq<EmployeeRow>, users: seq<User>): (r: Option<string>)
    ensures r.Some? ==>
      exists e, u :: e in employees && e.id == t.employeeKey && u in users && u.id == e.userId && u.name == r.value
    ensures (forall e :: e in employees ==> e.id != t.employeeKey) ==> r.None?
  {
    match FindEmployeeByKey(employees, t.employeeKey)
    case None => None
    case Some(i) =>
      match FindUser(users, employees[i].userId)
      case None => None
      case Some(u) => Some(u.name)
  }

  function ActivityOf(t: TimeEntry, employees: seq<EmployeeRow>, users: seq<User>): Activity {
    Activity(t.timestamp, ActionLabel(t.kind), OrElse(UserNameOf(t, employees, users), "Unknown"), t.kind)
  }

  /** The feed: the first ten entries (or all, when fewer), in order. */
  function RecentActivity(entries: seq<TimeEntry>, employees: seq<EmployeeRow>, users: seq<User>): (r: seq<Activity>)
    ensures |r| == if |entries| < 10 then |entries| else 10
    ensures forall i :: 0 <= i < |r| ==>
      && r[i].time == entries[i].timestamp && r[i].kind == entries[i].kind
      && (r[i].action == "Clocked In" <==> entries[i].kind == ClockIn)
      && (r[i].action != "Clocked In" ==> r[i].action == "Clocked Out")
      && r[i].staffName == OrElse(UserNameOf(entries[i], employees, users), "Unknown")
  {
    var n := if |entries| < 10 then |entries| else 10;
    seq(n, i requires 0 <= i < n => ActivityOf(entries[i], employees, users))
  }

  datatype OverallStats = OverallStats(
    totalTimeEntries: nat, totalClockIns: nat, totalClockOuts: nat, totalBreaks: nat,
    start: Option<int>, end: Option<int>)

  datatype RealTimeStats = RealTimeStats(
    totalStaff: nat, activeStaff: nat, onBreak: nat, offDuty: int,
    departments: seq<DepartmentCount>, recentActivity: seq<Activity>)

  /** The payload of a successful answer, one variant per branch. */
  datatype AnalyticsData =
    | EmployeeData(employeeStats: Stats, clockStatus: Option<ClockStatus>)
    | DepartmentData(departmentStats: seq<DepartmentStat>)
    | OverallData(overallStats: OverallStats, realTimeStats: RealTimeStats)

  /** The GET handler. A present `employeeId` (the employee row's key)
      selects that employee's statistics and clock status, whatever the
      department parameter says; otherwise a present `department` selects
      the department report; otherwise the overall statistics are built.
      The three type counts add up to the number of entries, off-duty
      staff are the staff not clocked in, and the histogram accounts for
      every employee once. */
  method Get(employees: seq<EmployeeRow>, users: seq<User>, log: seq<TimeEntry>,
             employeeId: Option<nat>, department: Option<string>, start: Option<int>, end: Option<int>)
    returns (d: AnalyticsData)
    ensures employeeId.Some? ==>
      && d.EmployeeData?
      && d.employeeStats == Summary(Pair(Events(StatsEntries(log, employeeId.value, start, end))))
      && d.clockStatus == GetCurrentClockStatus(employees, employeeId.value)
    ensures employeeId.None? && Present(department) ==>
      d == DepartmentData(GetDepartmentStats(employees, users, log, department.value, start, end))
    ensures employeeId.None? && !Present(department) ==>
      var all := GetAllTimeEntries(log, start, end);
      && d.OverallData?
      && d.overallStats.totalTimeEntries == |all|
      && d.overallStats.totalClockIns == CountKind(Events(all), ClockIn)
      && d.overallStats.totalClockOuts == CountKind(Events(all), ClockOut)
      && d.overallStats.totalBreaks == CountKind(Events(all), BreakStart) + CountKind(Events(all), BreakEnd)
      && d.overallStats.totalClockIns + d.overallStats.totalClockOuts + d.overallStats.totalBreaks == |all|
      && d.realTimeStats.totalStaff == |employees|
      && d.realTimeStats.activeStaff == CountActive(employees)
      && d.realTimeStats.onBreak == 0
      && d.realTimeStats.offDuty == |employees| - CountActive(employees) >= 0
      && DistinctKeys(d.realTimeStats.departments)
      && KeyCounts(d.realTimeStats.departments, employees)
      && KeysCover(d.realTimeStats.departments, employees)
      && SumCounts(d.realTimeStats.departments) == |employees|
      && d.realTimeStats.recentActivity == RecentActivity(all, employees, users)
  {
    if employeeId.Some? {
      var stats := GetEmployeeStats(log, employeeId.value, start, end);
      var clockStatus := GetCurrentClockStatus(employees, employeeId.value);
      d := EmployeeData(stats, clockStatus);
    } else if Present(department) {
      d := DepartmentData(GetDepartmentStats(employees, users, log, department.value, start, end));
    } else {
      var all := GetAllTimeEntries(log, start, end);
      var events := Events(all);
      var totalClockIns := CountKind(events, ClockIn);
      var totalClockOuts := CountKind(events, ClockOut);
      var totalBreaks := CountBreaks(events);
      TypeCountsConserved(events);
      BreaksAreBothBreakTypes(events);
      var activeStaff := CountActive(employees);
      var totalStaff := |employees|;
      var onBreak := 0;
      var offDuty := totalStaff - activeStaff - onBreak;
      var departments := DepartmentBreakdown(employees);
      var recent := RecentActivity(all, employees, users);
      d := OverallData(
        OverallStats(|all|, totalClockIns, totalClockOuts, totalBreaks, start, end),
        RealTimeStats(totalStaff, activeStaff, onBreak, offDuty, departments, recent));
    }
  }
}

/** The metrics of the manager's staff dashboard: last week's entries,
    clock-ins and clock-outs per calendar day, today's clock-ins, hours
    per staff member and the ordering of the summary table. The calendar
    day of a timestamp (`toDateString` in the local time zone) is a given
    function `dayOf`. */
module StaffDashboard {
  import opened Common
  import opened Db
  import opened Sorting
  import opened Attendance

  /** A time entry as the dashboard receives it: the employee reference
      as text, the type, the timestamp (absent in a malformed row) and the
      name of the entry's user when it was included. */
  datatype DashEntry = DashEntry(employeeId: string, kind: EntryType, timestamp: Option<int>, userName: Option<string>)

  /** A staff member as the dashboard receives it; `id` and `name` may be
      missing in a malformed row. */
  datatype StaffMember = StaffMember(
    id: Option<string>, employeeId: string, name: Option<string>, department: string,
    position: string, isClockedIn: bool, lastClockIn: Option<int>, lastClockOut: Option<int>)

  /** A staff member with the hours worked in the last week. */
  datatype StaffHours = StaffHours(member: StaffMember, totalHours: real)

  /** The counters kept for one calendar day. */
  datatype DayBucket = DayBucket(day: int, clockIns: nat, clockOuts: nat, totalHours: real)

  /** The entry has a timestamp not before `oneWeekAgo`. */
  predicate InWeek(e: DashEntry, oneWeekAgo: int) {
    e.timestamp.Some? && e.timestamp.value >= oneWeekAgo
  }

  /** The last week's entries: those with a timestamp not before
      `oneWeekAgo`, in their original order. */
  function WeekEntries(entries: seq<DashEntry>, oneWeekAgo: int): (r: seq<DashEntry>)
    ensures forall e :: e in r <==> e in entries && InWeek(e, oneWeekAgo)
    ensures |r| <= |entries|
    ensures IsSubsequence(r, entries)
    ensures forall e :: multiset(r)[e] == if InWeek(e, oneWeekAgo) then multiset(entries)[e] else 0
  {
    if entries == [] then []
    else
      var rest := WeekEntries(entries[..|entries| - 1], oneWeekAgo);
      FilterStep(entries, rest, (t: DashEntry) => InWeek(t, oneWeekAgo));
      if InWeek(entries[|entries| - 1], oneWeekAgo) then rest + [entries[|entries| - 1]] else rest
  }

  /** The calendar day of an entry, if it has a timestamp. */
  function DayOfEntry(e: DashEntry, dayOf: int -> int): Option<int> {
    if e.timestamp.Some? then Some(dayOf(e.timestamp.value)) else None
  }

  /** The number of entries of type `k` on calendar day `day`. */
  function CountOnDay(entries: seq<DashEntry>, dayOf: int -> int, day: int, k: EntryType): (r: nat)
    ensures r <= |entries|
  {
    if entries == [] then 0
    else
      var e := entries[|entries| - 1];
      CountOnDay(entries[..|entries| - 1], dayOf, day, k)
        + (if DayOfEntry(e, dayOf) == Some(day) && e.kind == k then 1 else 0)
  }

  /** Some entry falls on calendar day `day`. */
  predicate HasEntryOn(entries: seq<DashEntry>, dayOf: int -> int, day: int) {
    entries != [] &&
    (DayOfEntry(entries[|entries| - 1], dayOf) == Some(day) || HasEntryOn(entries[..|entries| - 1], dayOf, day))
  }

  /** No entry on a day means no count on that day. */
  lemma {:induction false} NoEntryNoCount(entries: seq<DashEntry>, dayOf: int -> int, day: int, k: EntryType)
    requires !HasEntryOn(entries, dayOf, day)
    ensures CountOnDay(entries, dayOf, day, k) == 0
  {
    if entries != [] {
      NoEntryNoCount(entries[..|entries| - 1], dayOf, day, k);
    }
  }

  /** Some bucket is that of `day`. */
  predicate HasBucket(buckets: seq<DayBucket>, day: int) {
    exists j :: 0 <= j < |buckets| && buckets[j].day == day
  }

  lemma HasBucketAppend(buckets: seq<DayBucket>, b: DayBucket, day: int)
    ensures HasBucket(buckets + [b], day) <==> HasBucket(buckets, day) || b.day == day
  {
    var all := buckets + [b];
    if HasBucket(all, day) && b.day != day {
      var j :| 0 <= j < |all| && all[j].day == day;
      assert buckets[j].day == day;
    }
    if HasBucket(buckets, day) {
      var j :| 0 <= j < |buckets| && buckets[j].day == day;
      assert all[j].day == day;
    }
    if b.day == day {
      assert all[|buckets|].day == day;
    }
  }

  lemma HasBucketSameDays(b1: seq<DayBucket>, b2: seq<DayBucket>, day: int)
    requires |b1| == |b2| && forall j :: 0 <= j < |b1| ==> b1[j].day == b2[j].day
    ensures HasBucket(b1, day) <==> HasBucket(b2, day)
  {
    if HasBucket(b1, day) {
      var j :| 0 <= j < |b1| && b1[j].day == day;
      assert b2[j].day == day;
    }
    if HasBucket(b2, day) {
      var j :| 0 <= j < |b2| && b2[j].day == day;
      assert b1[j].day == day;
    }
  }

  /** The index of the bucket of `day`. */
  function FindDay(buckets: seq<DayBucket>, day: int): (r: Option<nat>)
    ensures r.Some? ==> r.value < |buckets| && buckets[r.value].day == day
    ensures r.None? ==> forall j :: 0 <= j < |buckets| ==> buckets[j].day != day
  {
    if buckets == [] then None
    else if buckets[0].day == day then Some(0)
    else match FindDay(buckets[1..], day)
      case Some(j) => Some(j + 1)
      case None => None
  }

  ghost predicate DistinctDays(buckets: seq<DayBucket>) {
    forall i, j :: 0 <= i < j < |buckets| ==> buckets[i].day != buckets[j].day
  }

  /** Every bucket carries the counts of its day in `entries`, and its
      hours were never incremented. */
  ghost predicate BucketsCount(buckets: seq<DayBucket>, entries: seq<DashEntry>, dayOf: int -> int) {
    forall j :: 0 <= j < |buckets| ==>
      && buckets[j].totalHours == 0.0
      && buckets[j].clockIns == CountOnDay(entries, dayOf, buckets[j].day, ClockIn)
      && buckets[j].clockOuts == CountOnDay(entries, dayOf, buckets[j].day, ClockOut)
  }

  /** One bucket per calendar day on which an entry falls. */
  ghost predicate BucketsCover(buckets: seq<DayBucket>, entries: seq<DashEntry>, dayOf: int -> int) {
    forall d :: HasBucket(buckets, d) <==> HasEntryOn(entries, dayOf, d)
  }

  /** Adding one more entry at the end adds its day and, for its type,
      one to its day's count. */
  lemma DaySnoc(entries: seq<DashEntry>, i: nat, dayOf: int -> int)
    requires i < |entries|
    ensures forall d, k ::
              CountOnDay(entries[..i + 1], dayOf, d, k) == CountOnDay(entries[..i], dayOf, d, k)
                + (if DayOfEntry(entries[i], dayOf) == Some(d) && entries[i].kind == k then 1 else 0)
    ensures forall d ::
              HasEntryOn(entries[..i + 1], dayOf, d) <==>
                HasEntryOn(entries[..i], dayOf, d) || DayOfEntry(entries[i], dayOf) == Some(d)
  {
    assert entries[..i + 1][..i] == entries[..i];
  }

  /** The buckets with one for `day` added at the end when there is none. */
  function Grown(buckets: seq<DayBucket>, day: int): (r: seq<DayBucket>)
    ensures FindDay(buckets, day).Some? ==> r == buckets
    ensures FindDay(buckets, day).None? ==> r == buckets + [DayBucket(day, 0, 0, 0.0)]
  {
    if FindDay(buckets, day).Some? then buckets else buckets + [DayBucket(day, 0, 0, 0.0)]
  }

  /** The index of the bucket of `day` once it is there. */
  function Slot(buckets: seq<DayBucket>, day: int): (k: nat)
    ensures k < |Grown(buckets, day)| && Grown(buckets, day)[k].day == day
  {
    match FindDay(buckets, day)
    case Some(j) => j
    case None => |buckets|
  }

  /** Bucket `k` with its counter for `kind` incremented; a break changes
      nothing. */
  function Bump(buckets: seq<DayBucket>, k: nat, kind: EntryType): (r: seq<DayBucket>)
    requires k < |buckets|
    ensures |r| == |buckets|
    ensures forall j :: 0 <= j < |r| ==> r[j].day == buckets[j].day && r[j].totalHours == buckets[j].totalHours
    ensures forall j :: 0 <= j < |r| && j != k ==> r[j] == buckets[j]
    ensures r[k].clockIns == buckets[k].clockIns + (if kind == ClockIn then 1 else 0)
    ensures r[k].clockOuts == buckets[k].clockOuts + (if kind == ClockOut then 1 else 0)
  {
    if kind == ClockIn then buckets[k := buckets[k].(clockIns := buckets[k].clockIns + 1)]
    else if kind == ClockOut then buckets[k := buckets[k].(clockOuts := buckets[k].clockOuts + 1)]
    else buckets
  }

  /** The buckets after one entry is grouped. */
  function Bucketed(buckets: seq<DayBucket>, e: DashEntry, dayOf: int -> int): seq<DayBucket> {
    if e.timestamp.None? then buckets
    else
      var day := dayOf(e.timestamp.value);
      Bump(Grown(buckets, day), Slot(buckets, day), e.kind)
  }

  /** Adding the bucket of the next entry's day, if missing, keeps the
      buckets distinct and counting the earlier entries, and makes them
      cover the next entry too. */
  lemma GrownInvariants(buckets: seq<DayBucket>, entries: seq<DashEntry>, i: nat, dayOf: int -> int)
    requires i < |entries| && entries[i].timestamp.Some?
    requires DistinctDays(buckets)
    requires BucketsCount(buckets, entries[..i], dayOf)
    requires BucketsCover(buckets, entries[..i], dayOf)
    ensures var grown := Grown(buckets, dayOf(entries[i].timestamp.value));
      && DistinctDays(grown)
      && BucketsCount(grown, entries[..i], dayOf)
      && BucketsCover(grown, entries[..i + 1], dayOf)
  {
    var day := dayOf(entries[i].timestamp.value);
    var grown := Grown(buckets, day);
    DaySnoc(entries, i, dayOf);
    match FindDay(buckets, day)
    case Some(j) =>
      forall d ensures HasBucket(grown, d) <==> HasEntryOn(entries[..i + 1], dayOf, d) {
        if d == day { assert grown[j].day == d; }
      }
    case None =>
      forall kind: EntryType ensures CountOnDay(entries[..i], dayOf, day, kind) == 0 {
        NoEntryNoCount(entries[..i], dayOf, day, kind);
      }
      forall d ensures HasBucket(grown, d) <==> HasEntryOn(entries[..i + 1], dayOf, d) {
        HasBucketAppend(buckets, DayBucket(day, 0, 0, 0.0), d);
      }
  }

  /** Counting the next entry in the bucket of its day makes the buckets
      count it too. */
  lemma BumpInvariants(grown: seq<DayBucket>, entries: seq<DashEntry>, i: nat, dayOf: int -> int, k: nat)
    requires i < |entries| && entries[i].timestamp.Some?
    requires k < |grown| && grown[k].day == dayOf(entries[i].timestamp.value)
    requires DistinctDays(grown)
    requires BucketsCount(grown, entries[..i], dayOf)
    requires BucketsCover(grown, entries[..i + 1], dayOf)
    ensures var bumped := Bump(grown, k, entries[i].kind);
      && DistinctDays(bumped)
      && BucketsCount(bumped, entries[..i + 1], dayOf)
      && BucketsCover(bumped, entries[..i + 1], dayOf)
  {
    var bumped := Bump(grown, k, entries[i].kind);
    DaySnoc(entries, i, dayOf);
    forall d ensures HasBucket(bumped, d) <==> HasEntryOn(entries[..i + 1], dayOf, d) {
      HasBucketSameDays(grown, bumped, d);
    }
  }

  /** Grouping the next entry keeps the loop's invariants, one entry on. */
  lemma BucketStep(buckets: seq<DayBucket>, entries: seq<DashEntry>, i: nat, dayOf: int -> int)
    requires i < |entries|
    requires DistinctDays(buckets)
    requires BucketsCount(buckets, entries[..i], dayOf)
    requires BucketsCover(buckets, entries[..i], dayOf)
    ensures DistinctDays(Bucketed(buckets, entries[i], dayOf))
    ensures BucketsCount(Bucketed(buckets, entries[i], dayOf), entries[..i + 1], dayOf)
    ensures BucketsCover(Bucketed(buckets, entries[i], dayOf), entries[..i + 1], dayOf)
  {
    DaySnoc(entries, i, dayOf);
    if entries[i].timestamp.Some? {
      var day := dayOf(entries[i].timestamp.value);
      GrownInvariants(buckets, entries, i, dayOf);
      BumpInvariants(Grown(buckets, day), entries, i, dayOf, Slot(buckets, day));
    }
  }

  /** Groups one entry: skipped without a timestamp; otherwise its day's
      bucket is created if missing and, for a CLOCK_IN or CLOCK_OUT, the
      matching counter is incremented. */
  method AddToBucket(buckets: seq<DayBucket>, entry: DashEntry, dayOf: int -> int) returns (next: seq<DayBucket>)
    ensures next == Bucketed(buckets, entry, dayOf)
  {
    next := buckets;
    if entry.timestamp.Some? {
      var day := dayOf(entry.timestamp.value);
      var k: nat;
      match FindDay(next, day) {
        case Some(j) =>
          k := j;
        case None =>
          next := next + [DayBucket(day, 0, 0, 0.0)];
          k := |next| - 1;
      }
      if entry.kind == ClockIn {
        next := next[k := next[k].(clockIns := next[k].clockIns + 1)];
      } else if entry.kind == ClockOut {
        next := next[k := next[k].(clockOuts := next[k].clockOuts + 1)];
      }
    }
  }

  /** Groups the entries by calendar day, in order of first appearance.
      Entries without a timestamp are skipped; every other entry creates
      its day's bucket, a CLOCK_IN or CLOCK_OUT also increments the
      matching counter, and a break increments neither. The per-day hours
      stay 0. */
  method GroupByDay(entries: seq<DashEntry>, dayOf: int -> int) returns (buckets: seq<DayBucket>)
    ensures DistinctDays(buckets)
    ensures BucketsCount(buckets, entries, dayOf)
    ensures BucketsCover(buckets, entries, dayOf)
  {
    buckets := [];
    var i := 0;
    while i < |entries|
      invariant 0 <= i <= |entries|
      invariant DistinctDays(buckets)
      invariant BucketsCount(buckets, entries[..i], dayOf)
      invariant BucketsCover(buckets, entries[..i], dayOf)
    {
      BucketStep(buckets, entries, i, dayOf);
      buckets := AddToBucket(buckets, entries[i], dayOf);
      i := i + 1;
    }
    assert entries[..i] == entries;
  }

  /** The sum of the per-day hours. */
  function TotalHours(buckets: seq<DayBucket>): real {
    if buckets == [] then 0.0 else TotalHours(buckets[..|buckets| - 1]) + buckets[|buckets| - 1].totalHours
  }

  /** The average over the days with a bucket, rounded to two decimals. */
  function AvgHoursPerDay(buckets: seq<DayBucket>): real {
    Round2(if |buckets| > 0 then TotalHours(buckets) / |buckets| as real else 0.0)
  }

  /** Since no bucket's hours are ever incremented, the dashboard's
      average hours per day is always 0. */
  lemma {:induction false} AverageIsZero(buckets: seq<DayBucket>)
    requires forall j :: 0 <= j < |buckets| ==> buckets[j].totalHours == 0.0
    ensures TotalHours(buckets) == 0.0
    ensures AvgHoursPerDay(buckets) == 0.0
  {
    if buckets != [] {
      AverageIsZero(buckets[..|buckets| - 1]);
    }
  }

  /** Today's clock-ins: the count in today's bucket, or 0 without one. */
  function TodayClockIns(buckets: seq<DayBucket>, today: int): nat {
    match FindDay(buckets, today)
    case Some(j) => buckets[j].clockIns
    case None => 0
  }

  /** Today's clock-ins are the CLOCK_IN entries that fall on today. */
  lemma TodayClockInsCount(buckets: seq<DayBucket>, entries: seq<DashEntry>, dayOf: int -> int, today: int)
    requires BucketsCount(buckets, entries, dayOf) && BucketsCover(buckets, entries, dayOf)
    ensures TodayClockIns(buckets, today) == CountOnDay(entries, dayOf, today, ClockIn)
  {
    if FindDay(buckets, today).None? {
      assert !HasBucket(buckets, today);
      NoEntryNoCount(entries, dayOf, today, ClockIn);
    }
  }

  /** The change in headcount shown for one day. */
  function NetChange(b: DayBucket): int {
    b.clockIns - b.clockOuts
  }

  /** A day's net change is its CLOCK_IN entries minus its CLOCK_OUT
      entries. */
  lemma NetChangeCounts(buckets: seq<DayBucket>, entries: seq<DashEntry>, dayOf: int -> int, j: nat)
    requires BucketsCount(buckets, entries, dayOf) && j < |buckets|
    ensures NetChange(buckets[j]) ==
      CountOnDay(entries, dayOf, buckets[j].day, ClockIn) - CountOnDay(entries, dayOf, buckets[j].day, ClockOut)
  {
  }

  /** The entries attributed to a staff member: the employee reference
      equals the member's id, or the entry's user name equals the member's
      name (two absent names count as equal). */
  predicate BelongsTo(e: DashEntry, staff: StaffMember) {
    (staff.id.Some? && e.employeeId == staff.id.value) || e.userName == staff.name
  }

  function StaffEntries(entries: seq<DashEntry>, staff: StaffMember): (r: seq<DashEntry>)
    ensures forall e :: e in r <==> e in entries && BelongsTo(e, staff)
    ensures |r| <= |entries| && IsSubsequence(r, entries)
    ensures forall e :: multiset(r)[e] == if BelongsTo(e, staff) then multiset(entries)[e] else 0
  {
    if entries == [] then []
    else
      var rest := StaffEntries(entries[..|entries| - 1], staff);
      FilterStep(entries, rest, (t: DashEntry) => BelongsTo(t, staff));
      if BelongsTo(entries[|entries| - 1], staff) then rest + [entries[|entries| - 1]] else rest
  }

  /** The event of an entry. Week entries always have a timestamp; the
      default 0 only makes the function total. */
  function DashEventOf(e: DashEntry): Event {
    Event(e.kind, if e.timestamp.Some? then e.timestamp.value else 0)
  }

  function DashEvents(s: seq<DashEntry>): (r: seq<Event>)
    ensures |r| == |s|
    ensures forall i :: 0 <= i < |s| ==> r[i] == DashEventOf(s[i])
  {
    if s == [] then [] else DashEvents(s[..|s| - 1]) + [DashEventOf(s[|s| - 1])]
  }

  /** The oldest-first sort key of the per-staff loop. */
  function DashKey(e: DashEntry): real {
    DashEventOf(e).timestamp as real
  }

  lemma DashSortedAscending(s: seq<DashEntry>)
    requires SortedBy(s, DashKey)
    ensures Ascending(DashEvents(s))
  {
    var ev := DashEvents(s);
    forall i, j | 0 <= i < j < |ev| ensures ev[i].timestamp <= ev[j].timestamp {
      assert DashKey(s[i]) <= DashKey(s[j]);
    }
  }

  /** What an invalid staff row (one without an id) is shown as. */
  const Placeholder: StaffHours :=
    StaffHours(StaffMember(Some("unknown"), "N/A", Some("Unknown Staff"), "N/A", "N/A", false, None, None), 0.0)

  /** The specification of one staff member's row: the placeholder for a
      row without an id, otherwise the member with the positive-pair total
      of its entries, oldest first, rounded to two decimals. */
  function StaffHoursOf(week: seq<DashEntry>, staff: StaffMember): StaffHours {
    if !Present(staff.id) then Placeholder
    else StaffHours(staff, Round2(PositiveHours(DashEvents(SortBy(StaffEntries(week, staff), DashKey))).hours))
  }

  /** The loop over one member's entries: a CLOCK_IN becomes the pending
      clock-in, and a CLOCK_OUT with a pending clock-in adds the duration
      when it is strictly positive and clears the pending clock-in. */
  method SumPositivePairs(sorted: seq<DashEntry>) returns (totalHours: real)
    ensures totalHours == PositiveHours(DashEvents(sorted)).hours
  {
    ghost var events := DashEvents(sorted);
    totalHours := 0.0;
    var currentClockIn: Option<int> := None;
    var i := 0;
    while i < |sorted|
      invariant 0 <= i <= |sorted|
      invariant Running(totalHours, currentClockIn) == PositiveHours(events[..i])
    {
      var entry := DashEventOf(sorted[i]);
      assert events[..i + 1][..i] == events[..i] && events[i] == entry;
      assert PositiveHours(events[..i + 1]) == PositiveStep(PositiveHours(events[..i]), entry);
      if entry.kind == ClockIn {
        currentClockIn := Some(entry.timestamp);
      } else if entry.kind == ClockOut && currentClockIn.Some? {
        var hours := HoursBetween(currentClockIn.value, entry.timestamp);
        if hours > 0.0 {
          totalHours := totalHours + hours;
        }
        currentClockIn := None;
      }
      i := i + 1;
    }
    assert events[..i] == events;
  }

  /** One staff member's row: the member's entries are sorted oldest
      first and their strictly positive clock-in/clock-out durations added
      up. The total is
      never negative, and because the entries are in order it equals the
      total the time-entry statistics compute over the same entries. */
  method StaffTotalHours(week: seq<DashEntry>, staff: StaffMember) returns (r: StaffHours)
    ensures r == StaffHoursOf(week, staff)
    ensures r.totalHours >= 0.0
    ensures !Present(staff.id) ==> r.totalHours == 0.0 && !r.member.isClockedIn
    ensures Present(staff.id) ==>
      && r.member == staff
      && r.totalHours == Round2(Pair(DashEvents(SortBy(StaffEntries(week, staff), DashKey))).totalHours)
  {
    if !Present(staff.id) {
      return Placeholder;
    }
    var sorted := SortBy(StaffEntries(week, staff), DashKey);
    var totalHours := SumPositivePairs(sorted);
    if totalHours < 0.0 {
      totalHours := 0.0;
    }
    DashSortedAscending(sorted);
    PositiveHoursAgree(DashEvents(sorted));
    r := StaffHours(staff, Round2(totalHours));
  }

  /** Everything `calculateMetrics` returns. */
  datatype Metrics = Metrics(avgHoursPerDay: real, todayClockIns: nat, entriesByDate: seq<DayBucket>, staffHours: seq<StaffHours>)

  /** The dashboard metrics over the fetched entries and staff rows, at a
      moment whose week start is `oneWeekAgo` and whose calendar day is
      `today`. */
  method CalculateMetrics(timeEntries: seq<DashEntry>, staffMembers: seq<StaffMember>,
                          oneWeekAgo: int, today: int, dayOf: int -> int) returns (m: Metrics)
    ensures var week := WeekEntries(timeEntries, oneWeekAgo);
      && DistinctDays(m.entriesByDate)
      && BucketsCount(m.entriesByDate, week, dayOf)
      && BucketsCover(m.entriesByDate, week, dayOf)
      && m.avgHoursPerDay == 0.0
      && m.todayClockIns == CountOnDay(week, dayOf, today, ClockIn)
      && |m.staffHours| == |staffMembers|
      && forall i :: 0 <= i < |staffMembers| ==> m.staffHours[i] == StaffHoursOf(week, staffMembers[i])
  {
    var week := WeekEntries(timeEntries, oneWeekAgo);
    var buckets := GroupByDay(week, dayOf);
    AverageIsZero(buckets);
    TodayClockInsCount(buckets, week, dayOf, today);
    var staffHours: seq<StaffHours> := [];
    var i := 0;
    while i < |staffMembers|
      invariant 0 <= i <= |staffMembers|
      invariant |staffHours| == i
      invariant forall j :: 0 <= j < i ==> staffHours[j] == StaffHoursOf(week, staffMembers[j])
    {
      var h := StaffTotalHours(week, staffMembers[i]);
      staffHours := staffHours + [h];
      i := i + 1;
    }
    m := Metrics(AvgHoursPerDay(buckets), TodayClockIns(buckets, today), buckets, staffHours);
  }

  /** A row shown in the summary table: both id and name present. */
  predicate Shown(s: StaffHours) {
    Present(s.member.id) && Present(s.member.name)
  }

  /** The shown rows, in their original order. */
  function ShownRows(rows: seq<StaffHours>): (r: seq<StaffHours>)
    ensures forall s :: s in r <==> s in rows && Shown(s)
    ensures |r| <= |rows| && IsSubsequence(r, rows)
    ensures forall s :: multiset(r)[s] == if Shown(s) then multiset(rows)[s] else 0
  {
    if rows == [] then []
    else
      var rest := ShownRows(rows[..|rows| - 1]);
      FilterStep(rows, rest, (s: StaffHours) => Shown(s));
      if Shown(rows[|rows| - 1]) then rest + [rows[|rows| - 1]] else rest
  }

  /** The most-hours-first sort key. */
  function MostHoursFirst(s: StaffHours): real {
    -s.totalHours
  }

  /** The rows of the summary table: the shown rows, most hours first. */
  function SummaryTable(rows: seq<StaffHours>): (r: seq<StaffHours>)
    ensures forall s :: s in r <==> s in rows && Shown(s)
    ensures multiset(r) == multiset(ShownRows(rows))
    ensures forall i, j :: 0 <= i < j < |r| ==> r[i].totalHours >= r[j].totalHours
  {
    SortByMembers(ShownRows(rows), MostHoursFirst);
    var r := SortBy(ShownRows(rows), MostHoursFirst);
    assert forall i, j :: 0 <= i < j < |r| ==> MostHoursFirst(r[i]) <= MostHoursFirst(r[j]);
    r
  }
}

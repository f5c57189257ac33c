/** Turning a stream of clock events into worked hours. Two loops in the
    source do this: the statistics of the time-entry service and the
    per-staff totals of the staff dashboard. Both keep one pending clock-in;
    a CLOCK_IN replaces it, a CLOCK_OUT closes it (and is ignored when
    there is none); break entries are skipped. */
module Attendance {
  import opened Common
  import opened Db
  import opened Sorting

  /** A clock event as the pairing loops see it. */
  datatype Event = Event(kind: EntryType, timestamp: int)

  function EventOf(t: TimeEntry): Event {
    Event(t.kind, t.timestamp)
  }

  /** The events of a sequence of time entries, in the same order. */
  function Events(s: seq<TimeEntry>): (r: seq<Event>)
    ensures |r| == |s|
    ensures forall i :: 0 <= i < |s| ==> r[i] == EventOf(s[i])
  {
    if s == [] then [] else Events(s[..|s| - 1]) + [EventOf(s[|s| - 1])]
  }

  /** The timestamp as a sort key. */
  function TimeKey(t: TimeEntry): real {
    t.timestamp as real
  }

  /** The number of events of type `k`. */
  function CountKind(events: seq<Event>, k: EntryType): (r: nat)
    ensures r <= |events|
  {
    if events == [] then 0
    else CountKind(events[..|events| - 1], k) + (if events[|events| - 1].kind == k then 1 else 0)
  }

  /** The latest CLOCK_IN or CLOCK_OUT among the events is a CLOCK_IN. */
  predicate LastClockIsIn(events: seq<Event>) {
    if events == [] then false
    else
      var e := events[|events| - 1];
      if e.kind == ClockIn then true
      else if e.kind == ClockOut then false
      else LastClockIsIn(events[..|events| - 1])
  }

  /** Timestamps never decrease along the sequence. */
  ghost predicate Ascending(events: seq<Event>) {
    forall i, j :: 0 <= i < j < |events| ==> events[i].timestamp <= events[j].timestamp
  }

  /** Entries sorted by `TimeKey` give ascending events. */
  lemma SortedEventsAscending(s: seq<TimeEntry>)
    requires SortedBy(s, TimeKey)
    ensures Ascending(Events(s))
  {
    var ev := Events(s);
    forall i, j | 0 <= i < j < |ev| ensures ev[i].timestamp <= ev[j].timestamp {
      assert TimeKey(s[i]) <= TimeKey(s[j]);
    }
  }

  /** The running state of the statistics loop: hours, completed pairs,
      counted clock-ins and clock-outs, and the pending clock-in. */
  datatype Tally = Tally(totalHours: real, totalDays: nat, clockIns: nat, clockOuts: nat, pending: Option<int>)

  /** One iteration of the statistics loop. */
  function Step(t: Tally, e: Event): Tally {
    if e.kind == ClockIn then
      t.(clockIns := t.clockIns + 1, pending := Some(e.timestamp))
    else if e.kind == ClockOut && t.pending.Some? then
      Tally(t.totalHours + HoursBetween(t.pending.value, e.timestamp),
            t.totalDays + 1, t.clockIns, t.clockOuts + 1, None)
    else t
  }

  /** The statistics loop run over `events` in order. Every counted
      clock-out closes one day, there are never more days than clock-ins
      (one more clock-in when one is pending), every CLOCK_IN is counted,
      and a clock-in is pending exactly when the latest clock event is a
      CLOCK_IN. */
  function Pair(events: seq<Event>): (r: Tally)
    ensures r.clockOuts == r.totalDays
    ensures r.totalDays + (if r.pending.Some? then 1 else 0) <= r.clockIns
    ensures r.clockIns == CountKind(events, ClockIn)
    ensures r.clockOuts <= CountKind(events, ClockOut)
    ensures r.pending.Some? <==> LastClockIsIn(events)
  {
    if events == [] then Tally(0.0, 0, 0, 0, None)
    else Step(Pair(events[..|events| - 1]), events[|events| - 1])
  }

  /** Extending the events by one runs one more step of the loop. */
  lemma PairSnoc(events: seq<Event>, i: nat)
    requires i < |events|
    ensures Pair(events[..i + 1]) == Step(Pair(events[..i]), events[i])
  {
    assert events[..i + 1][..i] == events[..i];
  }

  /** On ascending events the total is never negative, and the pending
      clock-in is no later than the last event. */
  lemma {:induction false} PairNonNegative(events: seq<Event>)
    requires Ascending(events)
    ensures Pair(events).totalHours >= 0.0
    ensures Pair(events).pending.Some? ==> events != [] && Pair(events).pending.value <= events[|events| - 1].timestamp
  {
    if events != [] {
      var prefix := events[..|events| - 1];
      var e := events[|events| - 1];
      assert Ascending(prefix);
      PairNonNegative(prefix);
      var t := Pair(prefix);
      if e.kind == ClockOut && t.pending.Some? {
        assert t.pending.value <= prefix[|prefix| - 1].timestamp;
        assert prefix[|prefix| - 1] == events[|events| - 2];
        assert HoursBetween(t.pending.value, e.timestamp) >= 0.0;
      } else if e.kind != ClockIn && t.pending.Some? {
        assert prefix[|prefix| - 1] == events[|events| - 2];
      }
    }
  }

  /** The pending clock-in is the time of the latest CLOCK_IN: a later
      CLOCK_IN always replaces an earlier pending one. */
  lemma {:induction false} PendingIsLatestClockIn(events: seq<Event>)
    ensures Pair(events).pending.Some? ==>
      exists i :: 0 <= i < |events| && events[i] == Event(ClockIn, Pair(events).pending.value)
        && forall j :: i < j < |events| ==> events[j].kind != ClockIn
  {
    if events != [] {
      var prefix := events[..|events| - 1];
      var e := events[|events| - 1];
      PendingIsLatestClockIn(prefix);
      var t := Pair(events);
      if e.kind == ClockIn {
        assert events[|events| - 1] == Event(ClockIn, t.pending.value);
      } else if t.pending.Some? {
        var i :| 0 <= i < |prefix| && prefix[i] == Event(ClockIn, t.pending.value)
          && forall j :: i < j < |prefix| ==> prefix[j].kind != ClockIn;
        assert events[i] == prefix[i];
        assert forall j :: i < j < |events| ==> events[j].kind != ClockIn by {
          forall j | i < j < |events| ensures events[j].kind != ClockIn {
            if j < |prefix| { assert events[j] == prefix[j]; }
          }
        }
      }
    }
  }

  /** A CLOCK_OUT with no pending clock-in changes nothing: it is neither
      paired nor counted. */
  lemma UnmatchedClockOutIgnored(events: seq<Event>, t: int)
    requires !LastClockIsIn(events)
    ensures Pair(events + [Event(ClockOut, t)]) == Pair(events)
  {
    assert (events + [Event(ClockOut, t)])[..|events|] == events;
  }

  /** The running state of the dashboard's per-staff loop. */
  datatype Running = Running(hours: real, pending: Option<int>)

  /** One iteration of the dashboard loop: like `Step`, but a pair adds its
      duration only when it is strictly positive. */
  function PositiveStep(r: Running, e: Event): Running {
    if e.kind == ClockIn then
      r.(pending := Some(e.timestamp))
    else if e.kind == ClockOut && r.pending.Some? then
      var h := HoursBetween(r.pending.value, e.timestamp);
      Running(if h > 0.0 then r.hours + h else r.hours, None)
    else r
  }

  /** The dashboard loop run over `events` in order: its total is never
      negative, whatever the order, and it keeps the same pending clock-in
      as the statistics loop. */
  function PositiveHours(events: seq<Event>): (r: Running)
    ensures r.hours >= 0.0
    ensures r.pending == Pair(events).pending
  {
    if events == [] then Running(0.0, None)
    else PositiveStep(PositiveHours(events[..|events| - 1]), events[|events| - 1])
  }

  /** On ascending events no pair is negative, so the dashboard's total
      equals the statistics total. */
  lemma {:induction false} PositiveHoursAgree(events: seq<Event>)
    requires Ascending(events)
    ensures PositiveHours(events).hours == Pair(events).totalHours
  {
    if events != [] {
      var prefix := events[..|events| - 1];
      var e := events[|events| - 1];
      assert Ascending(prefix);
      PositiveHoursAgree(prefix);
      PairNonNegative(prefix);
      var t := Pair(prefix);
      if e.kind == ClockOut && t.pending.Some? {
        assert prefix[|prefix| - 1] == events[|events| - 2];
        assert HoursBetween(t.pending.value, e.timestamp) >= 0.0;
      }
    }
  }

  /** The entries of employee `key`, in log order. */
  function EntriesOf(log: seq<TimeEntry>, key: nat): (r: seq<TimeEntry>)
    ensures forall t :: t in r <==> t in log && t.employeeKey == key
    ensures |r| <= |log| && IsSubsequence(r, log)
    ensures forall t :: multiset(r)[t] == if t.employeeKey == key then multiset(log)[t] else 0
  {
    if log == [] then []
    else
      var rest := EntriesOf(log[..|log| - 1], key);
      FilterStep(log, rest, (t: TimeEntry) => t.employeeKey == key);
      if log[|log| - 1].employeeKey == key then rest + [log[|log| - 1]] else rest
  }

  /** The status kept in the employee table and the pairing loop agree:
      an employee is clocked in per the log exactly when a clock-in is
      pending after pairing that employee's entries in log order. */
  lemma {:induction false} ClockedInIsPending(log: seq<TimeEntry>, key: nat)
    ensures ClockedInPerLog(log, key) == Pair(Events(EntriesOf(log, key))).pending.Some?
  {
    if log != [] {
      var prefix := log[..|log| - 1];
      var e := log[|log| - 1];
      ClockedInIsPending(prefix, key);
      var ev := Events(EntriesOf(prefix, key));
      if e.employeeKey == key {
        assert Events(EntriesOf(log, key)) == ev + [EventOf(e)];
        assert (ev + [EventOf(e)])[..|ev|] == ev;
      }
    }
  }
  lemma EventsConcat(a: seq<TimeEntry>, b: seq<TimeEntry>)
    ensures Events(a + b) == Events(a) + Events(b)
  {
    assert forall i :: 0 <= i < |a + b| ==> Events(a + b)[i] == (Events(a) + Events(b))[i];
  }

  lemma {:induction false} CountKindConcat(a: seq<Event>, b: seq<Event>, k: EntryType)
    ensures CountKind(a + b, k) == CountKind(a, k) + CountKind(b, k)
    decreases |b|
  {
    if b == [] {
      assert a + b == a;
    } else {
      assert (a + b)[..|a + b| - 1] == a + b[..|b| - 1];
      CountKindConcat(a, b[..|b| - 1], k);
    }
  }

  /** Taking one entry out of a sequence lowers the count of its type by one. */
  lemma CountKindRemove(t: seq<TimeEntry>, j: nat, k: EntryType)
    requires j < |t|
    ensures CountKind(Events(t), k) ==
      CountKind(Events(t[..j] + t[j + 1..]), k) + (if t[j].kind == k then 1 else 0)
  {
    var a, x, b := t[..j], t[j], t[j + 1..];
    assert t == a + [x] + b;
    EventsConcat(a + [x], b);
    EventsConcat(a, [x]);
    EventsConcat(a, b);
    CountKindConcat(Events(a) + Events([x]), Events(b), k);
    CountKindConcat(Events(a), Events([x]), k);
    CountKindConcat(Events(a), Events(b), k);
    assert Events([x])[..0] == [];
  }

  lemma MultisetRemove(s: seq<TimeEntry>, t: seq<TimeEntry>, j: nat)
    requires multiset(s) == multiset(t) && s != [] && j < |t| && t[j] == s[|s| - 1]
    ensures multiset(s[..|s| - 1]) == multiset(t[..j] + t[j + 1..])
  {
    assert s == s[..|s| - 1] + [s[|s| - 1]];
    assert t == t[..j] + [t[j]] + t[j + 1..];
    assert multiset(s) == multiset(s[..|s| - 1]) + multiset{t[j]};
    assert multiset(t) == multiset(t[..j] + t[j + 1..]) + multiset{t[j]};
    assert multiset(s[..|s| - 1]) == multiset(s) - multiset{t[j]};
    assert multiset(t[..j] + t[j + 1..]) == multiset(t) - multiset{t[j]};
  }

  /** Counting by type does not depend on the order of the entries. */
  lemma {:induction false} CountKindPermutation(s: seq<TimeEntry>, t: seq<TimeEntry>, k: EntryType)
    requires multiset(s) == multiset(t)
    ensures CountKind(Events(s), k) == CountKind(Events(t), k)
    decreases |s|
  {
    if s == [] {
      assert |t| == |multiset(t)| == 0;
    } else {
      var x := s[|s| - 1];
      assert x in multiset(t);
      var j :| 0 <= j < |t| && t[j] == x;
      MultisetRemove(s, t, j);
      CountKindPermutation(s[..|s| - 1], t[..j] + t[j + 1..], k);
      CountKindRemove(t, j, k);
      CountKindSnoc(s, k);
    }
  }

  /** The count over entries is the count over all but the last, plus
      the last when it has type `k`. */
  lemma CountKindSnoc(s: seq<TimeEntry>, k: EntryType)
    requires s != []
    ensures CountKind(Events(s), k) ==
      CountKind(Events(s[..|s| - 1]), k) + (if s[|s| - 1].kind == k then 1 else 0)
  {
    assert Events(s)[..|s| - 1] == Events(s[..|s| - 1]);
  }
}

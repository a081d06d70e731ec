/**
 * The sorter view: the energy filter, the schedule and deadline lists
 * (filtered, then sorted by time), the tasks of a calendar cell and of the
 * selected-day pop-up, and the grid of the month with its leading blanks.
 *
 * `new Date(text)` is left to the caller: `time` maps a start or deadline
 * text to the instant it denotes.
 */
module Sorter {
  import opened Nodes
  import opened Planner

  /** `filterNodes`: energy filter 0 lets every energy through; roots never pass. */
  predicate Passes(n: Node, ef: int) {
    (ef == 0 || n.energy == ef) && !n.isRoot
  }

  /** `p` is a prefix of `s`. */
  predicate StartsWith(s: string, p: string) {
    |p| <= |s| && s[..|p|] == p
  }

  /** A deadline node or a scheduled node whose date text begins with the day. */
  predicate OnDay(n: Node, day: string) {
    (n.timeType == Deadline && n.ddl != "" && StartsWith(n.ddl, day)) ||
    (n.timeType == Schedule && n.scheduleStart != "" && StartsWith(n.scheduleStart, day))
  }

  /** The four filters of the view. */
  datatype Query =
    | ScheduleList(ef: int)
    | DeadlineList(ef: int)
    | Cell(ef: int, day: string)
    | Modal(day: string)

  predicate Matches(n: Node, q: Query) {
    match q
    case ScheduleList(ef) => HasStart(n) && Passes(n, ef)
    case DeadlineList(ef) => n.timeType == Deadline && n.ddl != "" && Passes(n, ef)
    case Cell(ef, day) => Passes(n, ef) && OnDay(n, day)
    case Modal(day) => OnDay(n, day)
  }

  /** The records that match a query, in the order given. */
  function Select(s: seq<Node>, q: Query): (r: seq<Node>)
    ensures forall x :: x in r <==> x in s && Matches(x, q)
    ensures multiset(r) <= multiset(s)
    ensures forall i :: 0 <= i < |r| ==> Matches(r[i], q)
  {
    if |s| == 0 then []
    else
      assert s == [s[0]] + s[1..];
      var rest := Select(s[1..], q);
      if Matches(s[0], q) then [s[0]] + rest else rest
  }

  /** A single record is kept exactly when it matches. */
  lemma SelectOne(x: Node, q: Query)
    ensures Select([x], q) == if Matches(x, q) then [x] else []
  {
    assert [x][1..] == [];
  }

  /** Selecting is done piece by piece: the kept records stay in their input order, each as often as it occurs. */
  lemma {:induction false} SelectAppend(a: seq<Node>, b: seq<Node>, q: Query)
    ensures Select(a + b, q) == Select(a, q) + Select(b, q)
  {
    if |a| == 0 {
      assert a + b == b;
    } else {
      var x, t := a[0], a[1..];
      var h := if Matches(x, q) then [x] else [];
      SplitFirst(a, b);
      SelectCons(x, t, q);
      SelectCons(x, t + b, q);
      SelectAppend(t, b, q);
      AppendAssoc(h, Select(t, q), Select(b, q));
    }
  }

  /** One step of the filter: the first record, if it matches, then the filtered rest. */
  lemma SelectCons(x: Node, t: seq<Node>, q: Query)
    ensures Select([x] + t, q) == (if Matches(x, q) then [x] else []) + Select(t, q)
  {
    assert ([x] + t)[0] == x && ([x] + t)[1..] == t;
  }

  lemma SplitFirst(a: seq<Node>, b: seq<Node>)
    requires |a| > 0
    ensures a == [a[0]] + a[1..] && a + b == [a[0]] + (a[1..] + b)
  {
  }

  lemma AppendAssoc(h: seq<Node>, u: seq<Node>, v: seq<Node>)
    ensures h + (u + v) == (h + u) + v
  {
  }

  /** A cell of the calendar shows, of the pop-up's tasks for its day, exactly those the energy filter lets through. */
  lemma CellIsFilteredModal(s: seq<Node>, ef: int, day: string, x: Node)
    ensures x in Select(s, Cell(ef, day)) <==> x in Select(s, Modal(day)) && Passes(x, ef)
  {
  }

  /** The pop-up skips the filter: a root with a deadline on the day is in the pop-up and in no cell. */
  lemma ModalShowsRoots(s: seq<Node>, ef: int, day: string, x: Node)
    requires x in s && x.isRoot && x.timeType == Deadline && x.ddl != "" && StartsWith(x.ddl, day)
    ensures x in Select(s, Modal(day)) && x !in Select(s, Cell(ef, day))
  {
  }

  /** A task created in a planner zone shows in the calendar cell of that zone's day. */
  lemma PlannerTaskOnCalendar(s: seq<Node>, f: Id, day: string, p: Period)
    requires Merge(PlannerTask(f), CreatedTaskData(day, p)) in s
    ensures Merge(PlannerTask(f), CreatedTaskData(day, p)) in Select(s, Cell(0, day))
  {
    var n := Merge(PlannerTask(f), CreatedTaskData(day, p));
    assert n.scheduleStart == StartText(day, p) && n.timeType == Schedule && !n.isRoot;
    assert |StartText(day, p)| > 0;
  }

  // ---------------------------------------------------------------- sorting

  /** The text each list sorts by. */
  function SortText(n: Node, q: Query): string {
    if q.DeadlineList? then n.ddl else n.scheduleStart
  }

  /** The instant a record is sorted by. */
  function Key(n: Node, q: Query, time: string -> int): int {
    time(SortText(n, q))
  }

  /** Sorted by `time` of the sort text, earliest first. */
  ghost predicate SortedBy(s: seq<Node>, q: Query, time: string -> int) {
    forall i, j :: 0 <= i < j < |s| ==> Key(s[i], q, time) <= Key(s[j], q, time)
  }

  /** Each record is not later than the next one. */
  predicate Ordered(s: seq<Node>, q: Query, time: string -> int) {
    forall i :: 0 <= i < |s| - 1 ==> Key(s[i], q, time) <= Key(s[i + 1], q, time)
  }

  /** Neighbours in order means every pair in order. */
  lemma {:induction false} OrderedIsSorted(s: seq<Node>, q: Query, time: string -> int)
    requires Ordered(s, q, time)
    ensures SortedBy(s, q, time)
  {
    if |s| > 1 {
      var t := s[1..];
      OrderedTail(s, q, time);
      OrderedIsSorted(t, q, time);
      forall i, j | 0 <= i < j < |s| ensures Key(s[i], q, time) <= Key(s[j], q, time) {
        if i > 0 {
          assert s[i] == t[i - 1] && s[j] == t[j - 1];
        } else if j > 1 {
          assert s[1] == t[0] && s[j] == t[j - 1];
        }
      }
    }
  }

  /** Dropping the first record keeps the rest in order. */
  lemma OrderedTail(s: seq<Node>, q: Query, time: string -> int)
    requires |s| > 0 && Ordered(s, q, time)
    ensures Ordered(s[1..], q, time)
  {
    var t := s[1..];
    forall i | 0 <= i < |t| - 1 ensures Key(t[i], q, time) <= Key(t[i + 1], q, time) {
      assert t[i] == s[i + 1] && t[i + 1] == s[i + 2];
    }
  }

  /** A record not later than the first of an ordered list can go in front of it. */
  lemma OrderedCons(a: Node, u: seq<Node>, q: Query, time: string -> int)
    requires Ordered(u, q, time) && (|u| == 0 || Key(a, q, time) <= Key(u[0], q, time))
    ensures Ordered([a] + u, q, time)
  {
    var r := [a] + u;
    forall i | 0 <= i < |r| - 1 ensures Key(r[i], q, time) <= Key(r[i + 1], q, time) {
      if i > 0 {
        assert r[i] == u[i - 1] && r[i + 1] == u[i];
      }
    }
  }

  /** Put `x` before the first element that is not earlier than it. */
  function Insert(x: Node, t: seq<Node>, q: Query, time: string -> int): (r: seq<Node>)
    ensures |r| == |t| + 1
    ensures multiset(r) == multiset(t) + multiset{x}
    ensures r[0] == x || (|t| > 0 && r[0] == t[0])
    ensures Ordered(t, q, time) ==> Ordered(r, q, time)
  {
    if |t| == 0 || Key(x, q, time) <= Key(t[0], q, time) then
      assert Ordered(t, q, time) ==> Ordered([x] + t, q, time) by {
        if Ordered(t, q, time) { OrderedCons(x, t, q, time); }
      }
      [x] + t
    else
      var t' := t[1..];
      assert t == [t[0]] + t';
      var u := Insert(x, t', q, time);
      assert Ordered(t, q, time) ==> Ordered([t[0]] + u, q, time) by {
        if Ordered(t, q, time) {
          OrderedTail(t, q, time);
          OrderedCons(t[0], u, q, time);
        }
      }
      [t[0]] + u
  }

  /** A stable insertion sort: Array.prototype.sort with a time comparator. */
  function Sort(s: seq<Node>, q: Query, time: string -> int): (r: seq<Node>)
    ensures |r| == |s| && multiset(r) == multiset(s)
    ensures Ordered(r, q, time)
  {
    if |s| == 0 then []
    else
      assert s == [s[0]] + s[1..];
      Insert(s[0], Sort(s[1..], q, time), q, time)
  }

  /** `scheduleTasks` and `ddlTasks`: the filtered records sorted by start or deadline. */
  function TaskList(s: seq<Node>, q: Query, time: string -> int): seq<Node>
    requires q.ScheduleList? || q.DeadlineList?
  {
    Sort(Select(s, q), q, time)
  }

  /** A list holds each record the filter accepts as often as the input does, sorted by time. */
  lemma TaskListSpec(s: seq<Node>, q: Query, time: string -> int)
    requires q.ScheduleList? || q.DeadlineList?
    ensures var r := TaskList(s, q, time);
      SortedBy(r, q, time) && multiset(r) == multiset(Select(s, q)) &&
      (forall x :: x in r <==> x in s && Matches(x, q))
  {
    var r := TaskList(s, q, time);
    OrderedIsSorted(r, q, time);
    forall x ensures x in r <==> x in Select(s, q) {
      assert x in r <==> x in multiset(r);
      assert x in Select(s, q) <==> x in multiset(Select(s, q));
    }
  }

  /** Sorting records already in order changes nothing. */
  lemma {:induction false} SortOrdered(s: seq<Node>, q: Query, time: string -> int)
    requires Ordered(s, q, time)
    ensures Sort(s, q, time) == s
  {
    if |s| > 0 {
      var t := s[1..];
      assert Sort(t, q, time) == t by {
        OrderedTail(s, q, time);
        SortOrdered(t, q, time);
      }
      assert s == [s[0]] + t;
      assert |t| == 0 || Key(s[0], q, time) <= Key(t[0], q, time);
      InsertInFront(s[0], t, q, time);
    }
  }

  /** Sorting twice sorts once. */
  lemma SortIdempotent(s: seq<Node>, q: Query, time: string -> int)
    ensures Sort(Sort(s, q, time), q, time) == Sort(s, q, time)
  {
    SortOrdered(Sort(s, q, time), q, time);
  }

  lemma InsertInFront(x: Node, t: seq<Node>, q: Query, time: string -> int)
    requires |t| == 0 || Key(x, q, time) <= Key(t[0], q, time)
    ensures Insert(x, t, q, time) == [x] + t
  {
  }

  // ---------------------------------------------------------------- month grid

  /** What a cell shows: at most four tasks, and how many more there are. */
  function CellShown(tasks: seq<Node>): (r: (seq<Node>, nat))
    ensures |r.0| <= 4 && |r.0| <= |tasks| && r.0 == tasks[..|r.0|]
    ensures |r.0| + r.1 == |tasks|
    ensures r.1 > 0 ==> |r.0| == 4
  {
    if |tasks| > 4 then (tasks[..4], |tasks| - 4) else (tasks, 0)
  }

  /** The blanks before day 1 on a grid whose weeks start on Monday, Sunday counting as day 7. */
  function LeadingBlanks(w: int): (b: int)
    requires 0 <= w < 7
    ensures 0 <= b < 7
    ensures b == (w + 6) % 7
  {
    (if w == 0 then 7 else w) - 1
  }

  /** The weekday of day `d` of a month whose first day has weekday `w` (0 is Sunday). */
  function Weekday(w: int, d: int): int
    requires 0 <= w < 7 && 1 <= d
  {
    (w + d - 1) % 7
  }

  /** Day `d` of the grid sits in the column of its weekday: Monday first, Sunday last. */
  lemma DayInWeekdayColumn(w: int, d: int)
    requires 0 <= w < 7 && 1 <= d
    ensures (LeadingBlanks(w) + d - 1) % 7 == (Weekday(w, d) + 6) % 7
  {
    var k := w + d - 1;
    assert LeadingBlanks(w) + d - 1 == k + 6 - 7 * (if w == 0 then 0 else 1);
    assert (k % 7 + 6) % 7 == (k + 6) % 7;
  }

  /** `renderCalendar`'s two loops: the leading blanks, then the days of the month. */
  method CalendarDays(w: int, daysInMonth: nat) returns (days: seq<Option<int>>)
    requires 0 <= w < 7
    ensures |days| == LeadingBlanks(w) + daysInMonth
    ensures forall i :: 0 <= i < LeadingBlanks(w) ==> days[i] == None
    ensures forall d :: 1 <= d <= daysInMonth ==> days[LeadingBlanks(w) + d - 1] == Some(d)
  {
    var start := if w == 0 then 7 else w;
    days := [];
    var i := 1;
    while i < start
      invariant 1 <= i <= start && |days| == i - 1
      invariant forall j :: 0 <= j < |days| ==> days[j] == None
    {
      days := days + [None];
      i := i + 1;
    }
    var b := |days|;
    i := 1;
    while i <= daysInMonth
      invariant 1 <= i <= daysInMonth + 1 && |days| == b + i - 1
      invariant forall j :: 0 <= j < b ==> days[j] == None
      invariant forall d :: 1 <= d < i ==> days[b + d - 1] == Some(d)
    {
      days := days + [Some(i)];
      i := i + 1;
    }
  }
}

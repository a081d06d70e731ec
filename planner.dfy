/**
 * The planner board: which nodes a (day, period) zone lists, what a drop
 * onto a zone writes into a node, what the remove button of a zone writes,
 * and the start time a task created in a zone gets.
 *
 * The board reads a scheduled node's date and hour through `new Date`,
 * which depends on the time zone; the model takes that reading as a
 * caller-supplied function `parse` from the start text to a `When`.
 */
module Planner {
  import opened Nodes

  /** The date and hour shown for a start text, as the caller's clock reads it. */
  datatype When = When(day: string, hour: int)

  /** The hours of a period: morning before 12, afternoon 12 to 17, evening from 18. */
  predicate HourIn(h: int, p: Period) {
    match p
    case Morning => h < 12
    case Afternoon => 12 <= h < 18
    case Evening => 18 <= h
  }

  /** The one period an hour falls in. */
  function PeriodOf(h: int): (p: Period)
    ensures HourIn(h, p)
    ensures forall q :: HourIn(h, q) ==> q == p
  {
    if h < 12 then Morning else if h < 18 then Afternoon else Evening
  }

  /** The node takes the schedule branch of the zone filter: a schedule with a non-empty start. */
  predicate HasStart(n: Node) {
    n.timeType == Schedule && n.scheduleStart != ""
  }

  /** The zone filter of `getTasksForPeriod` for one node, given the reading of its start. */
  predicate InZone(n: Node, start: When, day: string, p: Period) {
    if HasStart(n) then start.day == day && HourIn(start.hour, p)
    else Slot(day, p) in n.plannedSlots
  }

  /** `getTasksForPeriod`: the ids of the stored nodes a zone lists. */
  function TasksForPeriod(m: map<Id, Node>, parse: string -> When, day: string, p: Period): set<Id> {
    set k | k in m && InZone(m[k], parse(m[k].scheduleStart), day, p)
  }

  /** A scheduled node is listed by its start alone, whatever slots it also has. */
  lemma ScheduledIgnoresSlots(n: Node, start: When, day: string, p: Period, slots: seq<Slot>)
    requires HasStart(n)
    ensures InZone(n, start, day, p) == InZone(n.(plannedSlots := slots), start, day, p)
    ensures InZone(n, start, day, p) <==> start.day == day && p == PeriodOf(start.hour)
  {
  }

  /** Any other node is listed exactly where one of its slots names the zone. */
  lemma UnscheduledUsesSlots(n: Node, start: When, day: string, p: Period)
    requires !HasStart(n)
    ensures InZone(n, start, day, p) <==> Slot(day, p) in n.plannedSlots
  {
  }

  /** On its own day a scheduled node is listed in exactly one of the three zones, and on any other day in none. */
  lemma ScheduledInOneZone(m: map<Id, Node>, parse: string -> When, day: string, k: Id)
    requires k in m && HasStart(m[k])
    ensures parse(m[k].scheduleStart).day == day ==>
      k in TasksForPeriod(m, parse, day, PeriodOf(parse(m[k].scheduleStart).hour))
    ensures forall p, q :: k in TasksForPeriod(m, parse, day, p) && k in TasksForPeriod(m, parse, day, q) ==> p == q
    ensures parse(m[k].scheduleStart).day != day ==> forall p :: k !in TasksForPeriod(m, parse, day, p)
  {
  }

  // ---------------------------------------------------------------- start times

  /** The hour a drop or a new task in a zone starts at. */
  function DefaultHour(p: Period): (h: int)
    ensures 0 <= h < 24 && HourIn(h, p)
  {
    match p
    case Morning => 9
    case Afternoon => 14
    case Evening => 19
  }

  /** The decimal digit for `d`. */
  function Digit(d: int): (c: char)
    requires 0 <= d < 10
    ensures '0' <= c <= '9' && c as int - '0' as int == d
  {
    ('0' as int + d) as char
  }

  /** An hour written with two digits, a leading zero below ten. */
  function Pad2(h: int): (s: string)
    requires 0 <= h < 100
    ensures |s| == 2 && '0' <= s[0] <= '9' && '0' <= s[1] <= '9'
    ensures (s[0] as int - '0' as int) * 10 + (s[1] as int - '0' as int) == h
  {
    [Digit(h / 10), Digit(h % 10)]
  }

  /** The start text a zone writes: the day, a `T`, the two-digit hour and `:00`. */
  function StartText(day: string, p: Period): (s: string)
    ensures |s| == |day| + 6 && s[..|day|] == day && s[|day|] == 'T' && s[|day| + 3..] == ":00"
    ensures s[|day| + 1..|day| + 3] == Pad2(DefaultHour(p))
  {
    var s := day + "T" + Pad2(DefaultHour(p)) + ":00";
    assert s[|day| + 3..] == ":00";
    assert s[|day| + 1..|day| + 3] == Pad2(DefaultHour(p));
    s
  }

  /** The start texts of the three zones of a day differ. */
  lemma StartTextsApart(day: string, p: Period, q: Period)
    requires p != q
    ensures StartText(day, p) != StartText(day, q)
  {
    var s, t := StartText(day, p), StartText(day, q);
    assert s[|day| + 1..|day| + 3] != t[|day| + 1..|day| + 3];
  }

  /** The fields `handleCreateTask` passes to `createPlannerTask`. */
  function CreatedTaskData(day: string, p: Period): Patch {
    NoChange.(scheduleStart := Some(StartText(day, p)), timeType := Some(Schedule), showSpecificTime := Some(false))
  }

  /**
   * A task created in a zone is listed in that zone, provided the clock reads
   * the written start as that day and hour (a time zone at UTC).
   */
  lemma CreatedTaskInZone(f: Id, day: string, p: Period, parse: string -> When)
    requires parse(StartText(day, p)) == When(day, DefaultHour(p))
    ensures
      var n := Merge(PlannerTask(f), CreatedTaskData(day, p));
      HasStart(n) && n.scheduleStart == StartText(day, p) && InZone(n, parse(n.scheduleStart), day, p) &&
      !n.showSpecificTime
  {
    var n := Merge(PlannerTask(f), CreatedTaskData(day, p));
    assert n.scheduleStart == StartText(day, p) && n.timeType == Schedule;
    assert |StartText(day, p)| > 0;
  }

  // ---------------------------------------------------------------- drop

  /** A slot list that names no slot twice. */
  predicate NoDupSlots(s: seq<Slot>) {
    forall i, j :: 0 <= i < j < |s| ==> s[i] != s[j]
  }

  /** `handleDrop` on a stored node: the patch it hands to `updateNodeData`, or None when it writes nothing. */
  function DropPatch(n: Node, day: string, p: Period): Option<Patch> {
    if n.timeType == Schedule then Some(NoChange.(scheduleStart := Some(StartText(day, p))))
    else if Slot(day, p) in n.plannedSlots then None
    else Some(NoChange.(plannedSlots := Some(n.plannedSlots + [Slot(day, p)])))
  }

  /** The node after a drop. */
  function DroppedOn(n: Node, day: string, p: Period): (r: Node)
    ensures r.id == n.id && r.children == n.children && r.parentId == n.parentId && r.isRoot == n.isRoot
  {
    match DropPatch(n, day, p)
    case None => n
    case Some(patch) => Merge(n, patch)
  }

  /** A drop lists the node in the zone it was dropped on (for a schedule, when the clock reads the written start). */
  lemma DropLandsInZone(n: Node, day: string, p: Period, parse: string -> When)
    requires n.timeType == Schedule ==> parse(StartText(day, p)) == When(day, DefaultHour(p))
    ensures InZone(DroppedOn(n, day, p), parse(DroppedOn(n, day, p).scheduleStart), day, p)
  {
    var r := DroppedOn(n, day, p);
    if n.timeType == Schedule {
      assert r == Merge(n, NoChange.(scheduleStart := Some(StartText(day, p))));
      assert |StartText(day, p)| > 0 && HasStart(r);
      assert InZone(r, parse(r.scheduleStart), day, p);
    } else {
      assert Slot(day, p) in r.plannedSlots by {
        if Slot(day, p) !in n.plannedSlots {
          assert r.plannedSlots == n.plannedSlots + [Slot(day, p)];
        }
      }
      assert !HasStart(r);
    }
  }

  /** A drop on a node without a schedule adds the zone's slot and nothing else, and never a second copy. */
  lemma DropAddsSlotOnce(n: Node, day: string, p: Period)
    requires n.timeType != Schedule
    ensures var s := DroppedOn(n, day, p).plannedSlots;
      (forall x :: x in s <==> x in n.plannedSlots || x == Slot(day, p)) &&
      (NoDupSlots(n.plannedSlots) ==> NoDupSlots(s)) &&
      multiset(s)[Slot(day, p)] == if Slot(day, p) in n.plannedSlots then multiset(n.plannedSlots)[Slot(day, p)] else 1
  {
    var s := n.plannedSlots;
    var x := Slot(day, p);
    if x !in s {
      assert DroppedOn(n, day, p).plannedSlots == s + [x];
      assert multiset(s)[x] == 0;
    }
  }

  /** Dropping twice on the same zone is dropping once. */
  lemma DropIdempotent(n: Node, day: string, p: Period)
    ensures DroppedOn(DroppedOn(n, day, p), day, p) == DroppedOn(n, day, p)
  {
    var r := DroppedOn(n, day, p);
    if n.timeType == Schedule {
      var patch := NoChange.(scheduleStart := Some(StartText(day, p)));
      assert r == Merge(n, patch);
      assert DropPatch(r, day, p) == Some(patch) by {
        assert r.timeType == Schedule;
      }
      MergeIdempotent(n, patch);
    } else if Slot(day, p) in n.plannedSlots {
      assert r == n;
    } else {
      var patch := NoChange.(plannedSlots := Some(n.plannedSlots + [Slot(day, p)]));
      assert r == Merge(n, patch);
      assert DropPatch(r, day, p) == None by {
        assert r.timeType == n.timeType;
        assert r.plannedSlots == n.plannedSlots + [Slot(day, p)];
        assert Slot(day, p) in r.plannedSlots;
      }
    }
  }

  // ---------------------------------------------------------------- remove

  /** The slots without the one of `day` and `p`, the rest kept in order. */
  function Unplanned(s: seq<Slot>, day: string, p: Period): (r: seq<Slot>)
    ensures forall x :: x in r <==> x in s && x != Slot(day, p)
    ensures |r| <= |s|
  {
    if |s| == 0 then []
    else if s[0] == Slot(day, p) then Unplanned(s[1..], day, p)
    else [s[0]] + Unplanned(s[1..], day, p)
  }

  lemma {:induction false} UnplannedAbsent(s: seq<Slot>, day: string, p: Period)
    requires Slot(day, p) !in s
    ensures Unplanned(s, day, p) == s
  {
    if |s| > 0 {
      UnplannedAbsent(s[1..], day, p);
    }
  }

  lemma {:induction false} UnplannedConcat(a: seq<Slot>, b: seq<Slot>, day: string, p: Period)
    ensures Unplanned(a + b, day, p) == Unplanned(a, day, p) + Unplanned(b, day, p)
  {
    if |a| > 0 {
      assert (a + b)[1..] == a[1..] + b;
      UnplannedConcat(a[1..], b, day, p);
    } else {
      assert a + b == b;
    }
  }

  /** Removing a slot right after a drop added it gives back the slots before the drop. */
  lemma RemoveUndoesDrop(n: Node, day: string, p: Period)
    requires n.timeType != Schedule && Slot(day, p) !in n.plannedSlots
    ensures Unplanned(DroppedOn(n, day, p).plannedSlots, day, p) == n.plannedSlots
  {
    var s := n.plannedSlots;
    assert DroppedOn(n, day, p).plannedSlots == s + [Slot(day, p)];
    UnplannedConcat(s, [Slot(day, p)], day, p);
    UnplannedAbsent(s, day, p);
  }

  /** The patch the remove button of a zone writes for a node without a schedule. */
  function UnplanPatch(n: Node, day: string, p: Period): Patch {
    NoChange.(plannedSlots := Some(Unplanned(n.plannedSlots, day, p)))
  }

  /** The patch the remove button writes for a schedule, once confirmed. */
  const ClearSchedule: Patch := NoChange.(scheduleStart := Some(""), timeType := Some(NoTime))

  /** Removing takes a node without a schedule off that zone and leaves it in every other zone it was in. */
  lemma UnplanLeavesOtherZones(n: Node, day: string, p: Period, start: When, day': string, q: Period)
    requires !HasStart(n)
    ensures var r := Merge(n, UnplanPatch(n, day, p));
      !HasStart(r) && !InZone(r, start, day, p) &&
      ((day', q) != (day, p) ==> InZone(r, start, day', q) == InZone(n, start, day', q))
  {
  }

  /** After the schedule is cleared the node falls back to its slots. */
  lemma ClearedFallsBackToSlots(n: Node, start: When, day: string, p: Period)
    ensures var r := Merge(n, ClearSchedule);
      !HasStart(r) && (InZone(r, start, day, p) <==> Slot(day, p) in n.plannedSlots)
  {
  }

  /**
   * `removeTaskFromPlanner` on a node the board shows in the zone of `day`
   * and `p`, off the hidden parent: the patch it hands to `updateNodeData`,
   * or None when the user declines to clear the schedule.
   * As written it branches on the `timeType` tag alone.
   */
  function RemovalAsWritten(n: Node, day: string, p: Period, confirmed: bool): Option<Patch> {
    if n.timeType == Schedule then (if confirmed then Some(ClearSchedule) else None)
    else Some(UnplanPatch(n, day, p))
  }

  /**
   * A node tagged `schedule` that also sits in the zone by a slot stays in
   * that zone after the confirmed removal: clearing the tag hands it back
   * to its slots, and the slot is kept. A `schedule` tag with an empty
   * start is what the type switch of the panel leaves on a slotted task.
   */
  lemma RemovalAsWrittenKeepsSlot(n: Node, day: string, p: Period, start: When)
    requires n.timeType == Schedule && Slot(day, p) in n.plannedSlots
    ensures n.scheduleStart == "" ==> InZone(n, start, day, p)
    ensures RemovalAsWritten(n, day, p, true) == Some(ClearSchedule)
    ensures InZone(Merge(n, ClearSchedule), start, day, p)
  {
  }

  /** The removal as intended: a confirmed clear of the start also drops the zone's slot. */
  function Removal(n: Node, day: string, p: Period, confirmed: bool): (r: Option<Patch>)
    ensures r.None? <==> n.timeType == Schedule && !confirmed
  {
    if n.timeType == Schedule then
      (if confirmed then Some(ClearSchedule.(plannedSlots := Some(Unplanned(n.plannedSlots, day, p)))) else None)
    else Some(UnplanPatch(n, day, p))
  }

  /** Whatever the node's tag, a removal that writes takes it out of the zone and keeps its other slots. */
  lemma RemovalLeavesZone(n: Node, day: string, p: Period, confirmed: bool, start: When)
    requires Removal(n, day, p, confirmed).Some?
    ensures var r := Merge(n, Removal(n, day, p, confirmed).value);
      !HasStart(r) && !InZone(r, start, day, p) &&
      (forall x :: x in r.plannedSlots <==> x in n.plannedSlots && x != Slot(day, p))
  {
  }
}

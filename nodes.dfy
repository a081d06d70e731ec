/**
 * The node record of the mind-map store, the attribute patches that the
 * properties panel and the planner merge into a record, the records that
 * the editor creates, and the helpers on child-id lists (indexOf, splice,
 * filter, swap) that the structural edits use.
 */
module Nodes {

  datatype Option<T> = None | Some(value: T)

  /**
   * A node or page id. The editor only ever compares ids for equality and
   * uses them as keys, never looks at their characters, so the model
   * numbers them. A generated id (at most nine base-36 characters) is never
   * the hidden planner parent's longer name, so fresh ids differ from
   * `PLANNER_HIDDEN_ROOT`.
   */
  type Id = int

  /** Parent id of tasks created directly on the planner board; no record is ever stored under it. */
  const PLANNER_HIDDEN_ROOT: Id := 0

  datatype Period = Morning | Afternoon | Evening

  /** A manual placement of a node on the planner board. */
  datatype Slot = Slot(date: string, period: Period)

  /** The `timeType` tag: null, 'ddl' or 'schedule'. */
  datatype TimeType = NoTime | Deadline | Schedule

  /** The energy tag the editor offers: 0 (none) to 5. */
  type Energy = e: int | 0 <= e <= 5

  datatype Node = Node(
    id: Id,
    text: string,
    children: seq<Id>,
    parentId: Option<Id>,
    isRoot: bool,
    collapsed: bool,
    completed: bool,
    energy: Energy,
    timeType: TimeType,
    ddl: string,
    scheduleStart: string,
    scheduleEnd: string,
    showSpecificTime: bool,
    notes: string,
    plannedSlots: seq<Slot>,
    isHeading: bool,
    isNew: bool)

  datatype Page = Page(id: Id, title: string, rootId: Id)

  /**
   * The attribute fields that callers of `updateNodeData` and
   * `createPlannerTask` pass; a field left `None` is absent from the object
   * being spread.
   */
  datatype Patch = Patch(
    isHeading: Option<bool>,
    timeType: Option<TimeType>,
    ddl: Option<string>,
    showSpecificTime: Option<bool>,
    scheduleStart: Option<string>,
    scheduleEnd: Option<string>,
    energy: Option<Energy>,
    notes: Option<string>,
    plannedSlots: Option<seq<Slot>>)

  const NoChange: Patch := Patch(None, None, None, None, None, None, None, None, None)

  function Pick<T>(o: Option<T>, d: T): T {
    match o
    case Some(v) => v
    case None => d
  }

  /** The shallow merge of a patch into a record: every field the patch carries wins. */
  function Merge(n: Node, p: Patch): (r: Node)
    ensures r.id == n.id && r.children == n.children && r.parentId == n.parentId && r.isRoot == n.isRoot
    ensures r.text == n.text && r.completed == n.completed && r.collapsed == n.collapsed && r.isNew == n.isNew
    ensures p.isHeading.Some? ==> r.isHeading == p.isHeading.value
    ensures p.isHeading.None? ==> r.isHeading == n.isHeading
    ensures p.plannedSlots.Some? ==> r.plannedSlots == p.plannedSlots.value
    ensures p.plannedSlots.None? ==> r.plannedSlots == n.plannedSlots
    ensures p.timeType.Some? ==> r.timeType == p.timeType.value
    ensures p.timeType.None? ==> r.timeType == n.timeType
    ensures p.scheduleStart.Some? ==> r.scheduleStart == p.scheduleStart.value
    ensures p.scheduleStart.None? ==> r.scheduleStart == n.scheduleStart
    ensures p.ddl.Some? ==> r.ddl == p.ddl.value
    ensures p.ddl.None? ==> r.ddl == n.ddl
    ensures p.showSpecificTime.Some? ==> r.showSpecificTime == p.showSpecificTime.value
    ensures p.showSpecificTime.None? ==> r.showSpecificTime == n.showSpecificTime
    ensures p.scheduleEnd.Some? ==> r.scheduleEnd == p.scheduleEnd.value
    ensures p.scheduleEnd.None? ==> r.scheduleEnd == n.scheduleEnd
    ensures p.energy.Some? ==> r.energy == p.energy.value
    ensures p.energy.None? ==> r.energy == n.energy
    ensures p.notes.Some? ==> r.notes == p.notes.value
    ensures p.notes.None? ==> r.notes == n.notes
  {
    n.(isHeading := Pick(p.isHeading, n.isHeading),
       timeType := Pick(p.timeType, n.timeType),
       ddl := Pick(p.ddl, n.ddl),
       showSpecificTime := Pick(p.showSpecificTime, n.showSpecificTime),
       scheduleStart := Pick(p.scheduleStart, n.scheduleStart),
       scheduleEnd := Pick(p.scheduleEnd, n.scheduleEnd),
       energy := Pick(p.energy, n.energy),
       notes := Pick(p.notes, n.notes),
       plannedSlots := Pick(p.plannedSlots, n.plannedSlots))
  }

  /** Merging the same patch twice is merging it once; merging nothing changes nothing. */
  lemma MergeIdempotent(n: Node, p: Patch)
    ensures Merge(Merge(n, p), p) == Merge(n, p)
    ensures Merge(n, NoChange) == n
  {
  }

  /** The record `addSiblingNode` and `addChildNode` create. */
  function NewTask(id: Id, parent: Id): (r: Node)
    ensures r.id == id && r.parentId == Some(parent) && r.children == []
    ensures !r.isRoot && !r.isHeading && !r.completed && !r.collapsed && r.isNew
    ensures r.energy == 0 && r.timeType == NoTime && r.plannedSlots == []
  {
    Node(id, "", [], Some(parent), false, false, false, 0, NoTime, "", "", "", false, "", [], false, true)
  }

  /** The record `createPlannerTask` starts from before spreading its task data. */
  function PlannerTask(id: Id): (r: Node)
    ensures r.id == id && r.parentId == Some(PLANNER_HIDDEN_ROOT) && r.children == []
    ensures !r.isRoot && r.timeType == Schedule && r.isNew
  {
    NewTask(id, PLANNER_HIDDEN_ROOT).(timeType := Schedule)
  }

  /** The root record `addNewPage` creates for a new page. */
  function NewRoot(id: Id): (r: Node)
    ensures r.id == id && r.parentId == None && r.isRoot && r.children == []
  {
    Node(id, "新项目目标", [], None, true, false, false, 0, NoTime, "", "", "", false, "", [], false, false)
  }

  predicate NoDup(s: seq<Id>) {
    forall i, j :: 0 <= i < j < |s| ==> s[i] != s[j]
  }

  /** The first position of `x`, or -1 when it is absent. */
  function IndexOf(s: seq<Id>, x: Id): (i: int)
    ensures -1 <= i < |s|
    ensures i == -1 <==> x !in s
    ensures 0 <= i ==> s[i] == x && x !in s[..i]
  {
    if |s| == 0 then -1
    else if s[0] == x then 0
    else
      var j := IndexOf(s[1..], x);
      assert s[1..][..if j < 0 then 0 else j] == s[1..if j < 0 then 1 else j + 1];
      if j == -1 then -1 else j + 1
  }

  lemma IndexOfUnique(s: seq<Id>, i: int)
    requires NoDup(s) && 0 <= i < |s|
    ensures IndexOf(s, s[i]) == i
  {
    assert s[i] in s;
  }

  /** A copy with `x` inserted so that it sits at position `i`. */
  function InsertAt(s: seq<Id>, i: nat, x: Id): (r: seq<Id>)
    requires i <= |s|
    ensures |r| == |s| + 1 && r[i] == x
    ensures forall k :: 0 <= k < i ==> r[k] == s[k]
    ensures forall k :: i <= k < |s| ==> r[k + 1] == s[k]
    ensures forall y :: y in r <==> y == x || y in s
  {
    s[..i] + [x] + s[i..]
  }

  lemma InsertAtNoDup(s: seq<Id>, i: nat, x: Id)
    requires i <= |s| && NoDup(s) && x !in s
    ensures NoDup(InsertAt(s, i, x))
  {
    var r := InsertAt(s, i, x);
    forall a, b | 0 <= a < b < |r| ensures r[a] != r[b] {
      var sa := if a < i then a else a - 1;
      var sb := if b < i then b else b - 1;
      if a != i && b != i {
        assert r[a] == s[sa] && r[b] == s[sb] && sa < sb;
      } else if a == i {
        assert r[b] == s[sb];
      } else {
        assert r[a] == s[sa];
      }
    }
  }

  /** Every occurrence of `x` dropped, the rest kept in order. */
  function Without(s: seq<Id>, x: Id): (r: seq<Id>)
    ensures x !in r && |r| <= |s|
    ensures forall y :: y != x ==> (y in r <==> y in s)
  {
    if |s| == 0 then []
    else if s[0] == x then Without(s[1..], x)
    else [s[0]] + Without(s[1..], x)
  }

  lemma {:induction false} WithoutAbsent(s: seq<Id>, x: Id)
    requires x !in s
    ensures Without(s, x) == s
  {
    if |s| > 0 {
      WithoutAbsent(s[1..], x);
    }
  }

  lemma {:induction false} WithoutNoDup(s: seq<Id>, x: Id)
    requires NoDup(s)
    ensures NoDup(Without(s, x))
  {
    if |s| > 0 {
      assert NoDup(s[1..]) by {
        forall a, b | 0 <= a < b < |s| - 1 ensures s[1..][a] != s[1..][b] {
          assert s[a + 1] != s[b + 1];
        }
      }
      WithoutNoDup(s[1..], x);
      if s[0] != x {
        var t := Without(s[1..], x);
        assert s[0] !in t by {
          assert s[0] !in s[1..] by {
            forall k | 0 <= k < |s| - 1 ensures s[1..][k] != s[0] {
              assert s[0] != s[k + 1];
            }
          }
        }
        forall a, b | 0 <= a < b < |t| + 1 ensures ([s[0]] + t)[a] != ([s[0]] + t)[b] {
          if a == 0 {
            assert ([s[0]] + t)[b] == t[b - 1];
          } else {
            assert ([s[0]] + t)[a] == t[a - 1] && ([s[0]] + t)[b] == t[b - 1];
          }
        }
      }
    }
  }

  lemma {:induction false} WithoutConcat(a: seq<Id>, b: seq<Id>, x: Id)
    ensures Without(a + b, x) == Without(a, x) + Without(b, x)
  {
    if |a| > 0 {
      assert (a + b)[1..] == a[1..] + b;
      WithoutConcat(a[1..], b, x);
    } else {
      assert a + b == b;
    }
  }

  /** Taking a freshly inserted id back out gives the original list. */
  lemma WithoutInserted(s: seq<Id>, i: nat, x: Id)
    requires i <= |s| && x !in s
    ensures Without(InsertAt(s, i, x), x) == s
  {
    var a, b := s[..i], s[i..];
    assert x !in a && x !in b by {
      assert forall y :: y in a ==> y in s;
      assert forall y :: y in b ==> y in s;
    }
    calc {
      Without(InsertAt(s, i, x), x);
    == { assert InsertAt(s, i, x) == (a + [x]) + b; }
      Without((a + [x]) + b, x);
    == { WithoutConcat(a + [x], b, x); }
      Without(a + [x], x) + Without(b, x);
    == { WithoutConcat(a, [x], x); assert Without([x], x) == []; }
      Without(a, x) + Without(b, x);
    == { WithoutAbsent(a, x); WithoutAbsent(b, x); }
      a + b;
    == { assert a + b == s; }
      s;
    }
  }

  /** In a list without duplicates, removing the element at `i` closes the gap at `i`. */
  lemma {:induction false} WithoutAt(s: seq<Id>, i: nat)
    requires NoDup(s) && i < |s|
    ensures Without(s, s[i]) == s[..i] + s[i + 1..]
  {
    var x := s[i];
    assert NoDup(s[1..]) by {
      forall a, b | 0 <= a < b < |s| - 1 ensures s[1..][a] != s[1..][b] {
        assert s[a + 1] != s[b + 1];
      }
    }
    if i == 0 {
      assert x !in s[1..] by {
        forall k | 0 <= k < |s| - 1 ensures s[1..][k] != x {
          assert s[k + 1] != s[0];
        }
      }
      WithoutAbsent(s[1..], x);
    } else {
      assert s[0] != x;
      WithoutAt(s[1..], i - 1);
      assert s[1..][i - 1] == x;
      calc {
        Without(s, x);
        [s[0]] + Without(s[1..], x);
        [s[0]] + (s[1..][..i - 1] + s[1..][i..]);
        { assert [s[0]] + s[1..][..i - 1] == s[..i]; assert s[1..][i..] == s[i + 1..]; }
        s[..i] + s[i + 1..];
      }
    }
  }

  /** The elements at `i` and `j` exchanged, on a copy. */
  function Swap(s: seq<Id>, i: nat, j: nat): (r: seq<Id>)
    requires i < |s| && j < |s|
    ensures |r| == |s| && r[i] == s[j] && r[j] == s[i]
    ensures forall k :: 0 <= k < |s| && k != i && k != j ==> r[k] == s[k]
  {
    s[i := s[j]][j := s[i]]
  }

  /** A swap keeps the same ids, each as often as before. */
  lemma SwapPermutes(s: seq<Id>, i: nat, j: nat)
    requires i < |s| && j < |s|
    ensures multiset(Swap(s, i, j)) == multiset(s)
  {
  }

  lemma SwapMembers(s: seq<Id>, i: nat, j: nat)
    requires i < |s| && j < |s|
    ensures forall c :: c in Swap(s, i, j) <==> c in s
  {
    var r := Swap(s, i, j);
    forall c | c in r ensures c in s {
      var k :| 0 <= k < |r| && r[k] == c;
      assert s[if k == i then j else if k == j then i else k] == c;
    }
    forall c | c in s ensures c in r {
      var k :| 0 <= k < |s| && s[k] == c;
      assert r[if k == i then j else if k == j then i else k] == c;
    }
  }

  lemma SwapNoDup(s: seq<Id>, i: nat, j: nat)
    requires i < |s| && j < |s| && NoDup(s)
    ensures NoDup(Swap(s, i, j))
  {
    var r := Swap(s, i, j);
    forall a, b | 0 <= a < b < |r| ensures r[a] != r[b] {
      var sa := if a == i then j else if a == j then i else a;
      var sb := if b == i then j else if b == j then i else b;
      assert r[a] == s[sa] && r[b] == s[sb] && sa != sb;
    }
  }

  lemma SwapTwice(s: seq<Id>, i: nat, j: nat)
    requires i < |s| && j < |s|
    ensures Swap(Swap(s, i, j), j, i) == s
  {
  }
}

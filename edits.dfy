/**
 * The node map each structural edit of the editor installs, as a function
 * of the map it reads, and what each edit does to the tree.
 *
 * The source reads a record through the key it holds (`nodes[id]`) and in
 * a few places writes it back under the record's own `id` field; the two
 * agree in every well-formed map (`Tree.Consistent`), and the model uses the
 * key throughout.
 */
module Edits {
  import opened Nodes
  import opened Chains
  import opened Tree

  /** Every record of `m` outside `touched` is still in `r`, unchanged. */
  ghost predicate Others(m: map<Id, Node>, r: map<Id, Node>, touched: set<Id>) {
    forall k :: k in m && k !in touched ==> k in r && r[k] == m[k]
  }

  /** `k` is stored and so is the node its `parentId` names. */
  predicate HasStoredParent(m: map<Id, Node>, k: Id) {
    k in m && m[k].parentId.Some? && m[k].parentId.value in m
  }

  // ---------------------------------------------------------------- attributes

  /** `updateNodeText`: the record with a new text. */
  function WithText(m: map<Id, Node>, k: Id, t: string): map<Id, Node>
    requires k in m
  {
    m[k := m[k].(text := t)]
  }

  /** `updateNodeData`: the record with a patch merged in. */
  function WithData(m: map<Id, Node>, k: Id, p: Patch): map<Id, Node>
    requires k in m
  {
    m[k := Merge(m[k], p)]
  }

  /** `toggleComplete`. */
  function CompleteToggled(m: map<Id, Node>, k: Id): map<Id, Node>
    requires k in m
  {
    m[k := m[k].(completed := !m[k].completed)]
  }

  /** `toggleCollapse`. */
  function CollapseToggled(m: map<Id, Node>, k: Id): map<Id, Node>
    requires k in m
  {
    m[k := m[k].(collapsed := !m[k].collapsed)]
  }

  /** `handleNodeFocus`: a focused new node stops being new; any other focus leaves the map alone. */
  function Seen(m: map<Id, Node>, k: Id): map<Id, Node> {
    if k in m && m[k].isNew then m[k := m[k].(isNew := false)] else m
  }

  /** The root record `addNewPage` installs. */
  function RootAdded(m: map<Id, Node>, r: Id): map<Id, Node> {
    m[r := NewRoot(r)]
  }

  // ---------------------------------------------------------------- inserts

  /** `addSiblingNode`: a no-op on a root; otherwise a fresh task right after `cur` in its parent's list. */
  function SiblingAdded(m: map<Id, Node>, cur: Id, f: Id): map<Id, Node>
    requires cur in m && (!m[cur].isRoot ==> HasStoredParent(m, cur))
  {
    if m[cur].isRoot then m else SiblingAddedUnder(m, cur, m[cur].parentId.value, f)
  }

  /** The write of `addSiblingNode` for the task `cur` under the parent `p`. */
  function SiblingAddedUnder(m: map<Id, Node>, cur: Id, p: Id, f: Id): map<Id, Node>
    requires p in m
  {
    m[f := NewTask(f, p)][p := m[p].(children := InsertAt(m[p].children, IndexOf(m[p].children, cur) + 1, f))]
  }

  /** `addChildNode`: a fresh task appended to the parent's list, which is expanded. */
  function ChildAdded(m: map<Id, Node>, p: Id, f: Id): map<Id, Node>
    requires p in m
  {
    m[f := NewTask(f, p)][p := m[p].(children := m[p].children + [f], collapsed := false)]
  }

  /** `createPlannerTask`: a fresh planner-only task with the given fields spread over the defaults. */
  function PlannerTaskCreated(m: map<Id, Node>, f: Id, data: Patch): map<Id, Node> {
    m[f := Merge(PlannerTask(f), data)]
  }

  // ---------------------------------------------------------------- outdent

  /** The records `outdentNode` dereferences exist. */
  predicate OutdentDefined(m: map<Id, Node>, n: Id) {
    n in m &&
    (!m[n].isRoot ==>
       HasStoredParent(m, n) &&
       (!m[m[n].parentId.value].isRoot ==> HasStoredParent(m, m[n].parentId.value)))
  }

  /** `outdentNode`: the node leaves its parent's list and follows the parent in the grandparent's list. */
  function Outdented(m: map<Id, Node>, n: Id): map<Id, Node>
    requires OutdentDefined(m, n)
  {
    if m[n].isRoot then m
    else
      var p := m[n].parentId.value;
      if m[p].isRoot then m
      else OutdentedUnder(m, n, p, m[p].parentId.value)
  }

  /** The write of `outdentNode` for the node `n`, its parent `p` and its grandparent `g`. */
  function OutdentedUnder(m: map<Id, Node>, n: Id, p: Id, g: Id): map<Id, Node>
    requires n in m && p in m && g in m
  {
    m[p := m[p].(children := Without(m[p].children, n))]
     [g := m[g].(children := InsertAt(m[g].children, IndexOf(m[g].children, p) + 1, n))]
     [n := m[n].(parentId := Some(g))]
  }

  // ---------------------------------------------------------------- delete

  /** The write `deleteNode` makes once it has the set `s` to delete. */
  function SubtreeRemoved(m: map<Id, Node>, n: Id, s: set<Id>): map<Id, Node>
    requires n in m
  {
    var po := m[n].parentId;
    var m1 :=
      if po.Some? && po.value != PLANNER_HIDDEN_ROOT && po.value in m
      then m[po.value := m[po.value].(children := Without(m[po.value].children, n))]
      else m;
    m1 - s
  }

  /** `deleteNode`: refused on a root, cancelled when the user declines to delete descendants too. */
  ghost function Deleted(m: map<Id, Node>, n: Id, confirmed: bool): map<Id, Node>
    requires n in m
  {
    if m[n].isRoot then m
    else if |Subtree(m, n)| > 1 && !confirmed then m
    else SubtreeRemoved(m, n, Subtree(m, n))
  }

  // ---------------------------------------------------------------- drop

  /** The ancestry check of `onDrop`: the target is the dragged node or lies below it. */
  ghost predicate DropRefused(m: map<Id, Node>, d: Id, t: Id)
    requires Ends(m, t)
  {
    d == t || d in Ancestors(m, t)
  }

  /** The dragged node taken out of its old parent's list, when that parent is stored. */
  function Detached(m: map<Id, Node>, d: Id): map<Id, Node>
    requires d in m
  {
    var po := m[d].parentId;
    if po.Some? && po.value in m
    then m[po.value := m[po.value].(children := Without(m[po.value].children, d))]
    else m
  }

  /** `onDrop` as written: the target's new list is built from the target record read before the detach. */
  function ReparentedAsWritten(m: map<Id, Node>, d: Id, t: Id): map<Id, Node>
    requires d in m && t in m
  {
    Detached(m, d)[t := m[t].(children := m[t].children + [d], collapsed := false)]
                  [d := m[d].(parentId := Some(t))]
  }

  /** `onDrop` as intended: the dragged node moves to the end of the target's list. */
  function Reparented(m: map<Id, Node>, d: Id, t: Id): map<Id, Node>
    requires d in m && t in m
  {
    var m1 := Detached(m, d);
    m1[t := m1[t].(children := m1[t].children + [d], collapsed := false)]
      [d := m[d].(parentId := Some(t))]
  }

  ghost function Dropped(m: map<Id, Node>, d: Id, t: Id): map<Id, Node>
    requires Acyclic(m) && d in m && t in m
  {
    AcyclicEnds(m, t);
    if DropRefused(m, d, t) then m else Reparented(m, d, t)
  }

  // ---------------------------------------------------------------- reorder

  /** The records `moveNodeOrder` dereferences exist and the node is in its parent's list. */
  predicate MoveDefined(m: map<Id, Node>, n: Id) {
    n in m && (!m[n].isRoot ==> HasStoredParent(m, n) && n in m[m[n].parentId.value].children)
  }

  /** `moveNodeOrder`: swap with the neighbour `dir` places away, unless that falls off the list. */
  function Moved(m: map<Id, Node>, n: Id, dir: int): map<Id, Node>
    requires MoveDefined(m, n)
  {
    if m[n].isRoot then m
    else
      var p := m[n].parentId.value;
      var kids := m[p].children;
      var i := IndexOf(kids, n);
      var j := i + dir;
      if j < 0 || j >= |kids| then m
      else m[p := m[p].(children := Swap(kids, i, j))]
  }

  /** The move would land inside the parent's list. */
  predicate MoveApplies(m: map<Id, Node>, n: Id, dir: int)
    requires MoveDefined(m, n)
  {
    !m[n].isRoot &&
    var kids := m[m[n].parentId.value].children;
    0 <= IndexOf(kids, n) + dir < |kids|
  }

  // ================================================================ properties

  /** A sibling sits right after the current node, the parent's list otherwise unchanged. */
  lemma SiblingAddedSpec(m: map<Id, Node>, cur: Id, f: Id)
    requires Consistent(m) && cur in m && (!m[cur].isRoot ==> HasStoredParent(m, cur)) && f !in m
    ensures m[cur].isRoot ==> SiblingAdded(m, cur, f) == m
    ensures !m[cur].isRoot ==>
      var r := SiblingAdded(m, cur, f);
      var p := m[cur].parentId.value;
      var i := IndexOf(m[p].children, cur);
      r.Keys == m.Keys + {f} && r[f] == NewTask(f, p) && Others(m, r, {p}) &&
      r[p] == m[p].(children := r[p].children) &&
      0 <= i && r[p].children[i] == cur && r[p].children[i + 1] == f &&
      Without(r[p].children, f) == m[p].children
  {
    if !m[cur].isRoot {
      var p := m[cur].parentId.value;
      assert cur in m[p].children && f !in m[p].children by {
        assert ParentsListChildren(m) && ChildrenPointBack(m);
      }
      SiblingWrite(m, cur, f, p, SiblingAdded(m, cur, f), IndexOf(m[p].children, cur));
    }
  }

  lemma SiblingWrite(m: map<Id, Node>, cur: Id, f: Id, p: Id, r: map<Id, Node>, i: int)
    requires cur in m && !m[cur].isRoot && m[cur].parentId == Some(p) && p in m && f !in m
    requires cur in m[p].children && f !in m[p].children
    requires r == SiblingAdded(m, cur, f) && i == IndexOf(m[p].children, cur)
    ensures r.Keys == m.Keys + {f} && r[f] == NewTask(f, p) && Others(m, r, {p})
    ensures r[p] == m[p].(children := r[p].children)
    ensures 0 <= i && i + 1 < |r[p].children|
    ensures r[p].children[i] == cur && r[p].children[i + 1] == f
    ensures Without(r[p].children, f) == m[p].children
  {
    var t := InsertAt(m[p].children, i + 1, f);
    InsertedAfter(m[p].children, i, f, t);
    assert r == SiblingAddedUnder(m, cur, p, f);
    SiblingFields(m, cur, f, p);
  }

  lemma SiblingFields(m: map<Id, Node>, cur: Id, f: Id, p: Id)
    requires p in m && f !in m
    ensures SiblingAddedUnder(m, cur, p, f).Keys == m.Keys + {f}
    ensures SiblingAddedUnder(m, cur, p, f)[f] == NewTask(f, p)
    ensures Others(m, SiblingAddedUnder(m, cur, p, f), {p})
    ensures SiblingAddedUnder(m, cur, p, f)[p] == m[p].(children := InsertAt(m[p].children, IndexOf(m[p].children, cur) + 1, f))
  {
  }

  /** A child goes at the end of the parent's list and the parent is expanded. */
  lemma ChildAddedSpec(m: map<Id, Node>, p: Id, f: Id)
    requires Consistent(m) && p in m && f !in m
    ensures
      var r := ChildAdded(m, p, f);
      r.Keys == m.Keys + {f} && r[f] == NewTask(f, p) && Others(m, r, {p}) &&
      r[p] == m[p].(children := r[p].children, collapsed := false) &&
      r[p].children[|r[p].children| - 1] == f &&
      Without(r[p].children, f) == m[p].children
  {
    var r := ChildAdded(m, p, f);
    assert f !in m[p].children;
    WithoutConcat(m[p].children, [f], f);
    WithoutAbsent(m[p].children, f);
    assert Without([f], f) == [];
  }

  /** The new node of any insert has no children, so deleting it removes it alone. */
  lemma LeafSubtree(m: map<Id, Node>, f: Id)
    requires f in m && m[f].children == []
    ensures Subtree(m, f) == {f}
  {
    ClosedContainsSubtree(m, f, {f});
  }

  /** Removing a leaf `f` listed by a stored parent `p` writes the parent's list without `f` and drops `f`. */
  lemma LeafRemoved(r: map<Id, Node>, f: Id, p: Id, confirmed: bool)
    requires f in r && r[f].children == [] && !r[f].isRoot && r[f].parentId == Some(p)
    requires p in r && p != PLANNER_HIDDEN_ROOT && p != f
    ensures Deleted(r, f, confirmed) == r[p := r[p].(children := Without(r[p].children, f))] - {f}
  {
    LeafSubtree(r, f);
  }

  /** Deleting a freshly added sibling gives back the map before the insert. */
  lemma DeleteUndoesAddSibling(m: map<Id, Node>, cur: Id, f: Id, confirmed: bool)
    requires Consistent(m) && HasStoredParent(m, cur) && !m[cur].isRoot && f !in m
    ensures f in SiblingAdded(m, cur, f)
    ensures Deleted(SiblingAdded(m, cur, f), f, confirmed) == m
  {
    var p := m[cur].parentId.value;
    assert cur in m[p].children && f !in m[p].children && p != PLANNER_HIDDEN_ROOT by {
      assert ParentsListChildren(m) && ChildrenPointBack(m) && NoHiddenRecord(m);
    }
    SiblingAddedRemoved(m, cur, f, p, confirmed);
  }

  lemma SiblingAddedRemoved(m: map<Id, Node>, cur: Id, f: Id, p: Id, confirmed: bool)
    requires cur in m && !m[cur].isRoot && m[cur].parentId == Some(p) && p in m && f !in m
    requires f !in m[p].children && p != PLANNER_HIDDEN_ROOT
    ensures f in SiblingAdded(m, cur, f)
    ensures Deleted(SiblingAdded(m, cur, f), f, confirmed) == m
  {
    assert SiblingAdded(m, cur, f) == SiblingAddedUnder(m, cur, p, f);
    LeafInsertRemoved(m, p, IndexOf(m[p].children, cur) + 1, f, confirmed, SiblingAddedUnder(m, cur, p, f));
  }

  /** Deleting a freshly added child gives back the map before the insert, expanded. */
  lemma DeleteUndoesAddChild(m: map<Id, Node>, p: Id, f: Id, confirmed: bool)
    requires Consistent(m) && p in m && f !in m
    ensures f in ChildAdded(m, p, f)
    ensures Deleted(ChildAdded(m, p, f), f, confirmed) == m[p := m[p].(collapsed := false)]
  {
    assert f !in m[p].children && p != PLANNER_HIDDEN_ROOT;
    ChildAddedRemoved(m, p, f, confirmed);
  }

  lemma ChildAddedRemoved(m: map<Id, Node>, p: Id, f: Id, confirmed: bool)
    requires p in m && f !in m && f !in m[p].children && p != PLANNER_HIDDEN_ROOT
    ensures f in ChildAdded(m, p, f)
    ensures Deleted(ChildAdded(m, p, f), f, confirmed) == m[p := m[p].(collapsed := false)]
  {
    var base := m[p := m[p].(collapsed := false)];
    var kids := InsertAt(m[p].children, |m[p].children|, f);
    assert kids == m[p].children + [f];
    var b := base[p].(children := kids);
    assert b == m[p].(children := m[p].children + [f], collapsed := false);
    assert ChildAdded(m, p, f) == base[f := NewTask(f, p)][p := b] by {
      RewriteBeforeFresh(m, p, m[p].(collapsed := false), f, NewTask(f, p), b);
    }
    LeafInsertRemoved(base, p, |m[p].children|, f, confirmed, ChildAdded(m, p, f));
  }

  /** A write to `p` that a later write to `p` overwrites makes no difference. */
  lemma RewriteBeforeFresh(m: map<Id, Node>, p: Id, a: Node, f: Id, v: Node, b: Node)
    requires p != f
    ensures m[p := a][f := v][p := b] == m[f := v][p := b]
  {
  }

  /** Inserting a leaf `f` at position `i` of `p`'s list and deleting it again. */
  lemma LeafInsertRemoved(base: map<Id, Node>, p: Id, i: nat, f: Id, confirmed: bool, r: map<Id, Node>)
    requires p in base && f !in base && f !in base[p].children && p != PLANNER_HIDDEN_ROOT && i <= |base[p].children|
    requires r == base[f := NewTask(f, p)][p := base[p].(children := InsertAt(base[p].children, i, f))]
    ensures f in r && Deleted(r, f, confirmed) == base
  {
    var x := base[p].(children := InsertAt(base[p].children, i, f));
    var y := r[p].(children := Without(r[p].children, f));
    assert y == base[p] by {
      assert r[p] == x;
      WithoutInserted(base[p].children, i, f);
      ChildrenBack(base[p], InsertAt(base[p].children, i, f));
    }
    assert r[p := y] - {f} == base by {
      UpdateTwice(base[f := NewTask(f, p)], p, x, base[p]);
      FreshWriteDropped(base, f, NewTask(f, p), p);
    }
    LeafRemoved(r, f, p, confirmed);
  }

  /** Writing a fresh key, writing back a stored record and dropping the fresh key again gives the map. */
  lemma FreshWriteDropped(m: map<Id, Node>, f: Id, v: Node, p: Id)
    requires f !in m && p in m
    ensures m[f := v][p := m[p]] - {f} == m
  {
    var u := m[f := v][p := m[p]] - {f};
    assert u.Keys == m.Keys;
  }

  /** Deleting a freshly created planner task gives back the map before it. */
  lemma DeleteUndoesCreatePlannerTask(m: map<Id, Node>, f: Id, data: Patch, confirmed: bool)
    requires f !in m
    ensures f in PlannerTaskCreated(m, f, data)
    ensures Deleted(PlannerTaskCreated(m, f, data), f, confirmed) == m
  {
    var r := PlannerTaskCreated(m, f, data);
    LeafSubtree(r, f);
    assert Deleted(r, f, confirmed) == r - {f};
    assert (r - {f}).Keys == m.Keys;
  }

  /** An outdent takes the node out of its parent's list and puts it right after the parent, under the grandparent. */
  lemma OutdentedSpec(m: map<Id, Node>, n: Id)
    requires Consistent(m) && OutdentDefined(m, n)
    ensures m[n].isRoot || m[m[n].parentId.value].isRoot ==> Outdented(m, n) == m
    ensures !m[n].isRoot && !m[m[n].parentId.value].isRoot ==>
      var r := Outdented(m, n);
      var p := m[n].parentId.value;
      var g := m[p].parentId.value;
      var i := IndexOf(m[p].children, n);
      var j := IndexOf(m[g].children, p);
      n != p && p != g && g != n &&
      r.Keys == m.Keys && Others(m, r, {n, p, g}) &&
      r[n] == m[n].(parentId := Some(g)) &&
      r[p] == m[p].(children := m[p].children[..i] + m[p].children[i + 1..]) &&
      0 <= i && 0 <= j &&
      r[g] == m[g].(children := r[g].children) &&
      r[g].children[j] == p && r[g].children[j + 1] == n &&
      Without(r[g].children, n) == m[g].children
  {
    if !m[n].isRoot && !m[m[n].parentId.value].isRoot {
      var p := m[n].parentId.value;
      var g := m[p].parentId.value;
      NoShortCycles(m, n);
      assert n in m[p].children && p in m[g].children && n !in m[g].children && NoDup(m[p].children);
      OutdentFacts(m, n, p, g, Outdented(m, n), IndexOf(m[p].children, n), IndexOf(m[g].children, p));
    }
  }

  /** The outdent `r` of `n` under its parent `p` and grandparent `g`, position by position. */
  lemma OutdentFacts(m: map<Id, Node>, n: Id, p: Id, g: Id, r: map<Id, Node>, i: int, j: int)
    requires OutdentDefined(m, n) && !m[n].isRoot && m[n].parentId == Some(p)
    requires !m[p].isRoot && m[p].parentId == Some(g)
    requires n != p && p != g && g != n
    requires n in m[p].children && p in m[g].children && n !in m[g].children && NoDup(m[p].children)
    requires r == Outdented(m, n) && i == IndexOf(m[p].children, n) && j == IndexOf(m[g].children, p)
    ensures r.Keys == m.Keys && Others(m, r, {n, p, g})
    ensures r[n] == m[n].(parentId := Some(g))
    ensures 0 <= i < |m[p].children| && 0 <= j
    ensures r[p] == m[p].(children := m[p].children[..i] + m[p].children[i + 1..])
    ensures r[g] == m[g].(children := r[g].children) && j + 1 < |r[g].children|
    ensures r[g].children[j] == p && r[g].children[j + 1] == n
    ensures Without(r[g].children, n) == m[g].children
  {
    OutdentWrite(m, n, p, g);
    OutdentWriteOthers(m, n, p, g);
    var t := InsertAt(m[g].children, j + 1, n);
    assert t[j] == p && t[j + 1] == n && Without(t, n) == m[g].children by {
      InsertedAfter(m[g].children, j, n, t);
    }
    assert Without(m[p].children, n) == m[p].children[..i] + m[p].children[i + 1..] by {
      WithoutAt(m[p].children, i);
    }
  }

  lemma OutdentWrite(m: map<Id, Node>, n: Id, p: Id, g: Id)
    requires OutdentDefined(m, n) && !m[n].isRoot && m[n].parentId == Some(p)
    requires !m[p].isRoot && m[p].parentId == Some(g)
    requires n != p && p != g && g != n
    ensures Outdented(m, n)[n] == m[n].(parentId := Some(g))
    ensures Outdented(m, n)[p] == m[p].(children := Without(m[p].children, n))
    ensures Outdented(m, n)[g] == m[g].(children := InsertAt(m[g].children, IndexOf(m[g].children, p) + 1, n))
  {
    assert Outdented(m, n) == OutdentedUnder(m, n, p, g);
  }

  /** An outdent rewrites only the node, its parent and its grandparent. */
  lemma OutdentWriteOthers(m: map<Id, Node>, n: Id, p: Id, g: Id)
    requires OutdentDefined(m, n) && !m[n].isRoot && m[n].parentId == Some(p)
    requires !m[p].isRoot && m[p].parentId == Some(g)
    ensures Outdented(m, n).Keys == m.Keys && Others(m, Outdented(m, n), {n, p, g})
  {
    assert Outdented(m, n) == OutdentedUnder(m, n, p, g);
  }

  /** A fresh id inserted right after position `j` follows the element at `j`, and taking it out again restores the list. */
  lemma InsertedAfter(s: seq<Id>, j: int, x: Id, t: seq<Id>)
    requires 0 <= j < |s| && x !in s && t == InsertAt(s, j + 1, x)
    ensures |t| == |s| + 1 && t[j] == s[j] && t[j + 1] == x && Without(t, x) == s
  {
    WithoutInserted(s, j + 1, x);
  }

  /** A node is not its own parent, nor its own grandparent, nor its parent's grandparent. */
  lemma NoShortCycles(m: map<Id, Node>, n: Id)
    requires Consistent(m) && HasStoredParent(m, n)
    ensures m[n].parentId.value != n
    ensures HasStoredParent(m, m[n].parentId.value) ==>
      var p := m[n].parentId.value;
      var g := m[p].parentId.value;
      p != g && g != n
  {
    var p := m[n].parentId.value;
    if p == n {
      assert IsCycle(m, [n]);
      AcyclicHasNoCycle(m, [n]);
      assert false;
    }
    if HasStoredParent(m, p) {
      var g := m[p].parentId.value;
      if p == g {
        assert IsCycle(m, [p]);
        AcyclicHasNoCycle(m, [p]);
        assert false;
      }
      if g == n {
        assert IsCycle(m, [n, p]);
        AcyclicHasNoCycle(m, [n, p]);
        assert false;
      }
    }
  }

  /**
   * Deleting a node removes exactly it and its descendants, takes it out of
   * its parent's list unless that parent is the hidden planner parent, and
   * leaves every other record alone.
   */
  lemma DeletedSpec(m: map<Id, Node>, n: Id, confirmed: bool)
    requires Consistent(m) && n in m
    ensures m[n].isRoot || (|Subtree(m, n)| > 1 && !confirmed) ==> Deleted(m, n, confirmed) == m
    ensures !m[n].isRoot && (|Subtree(m, n)| <= 1 || confirmed) ==>
      var r := Deleted(m, n, confirmed);
      var p := m[n].parentId.value;
      (forall x :: x in m ==> (x in r <==> n !in Ancestors(m, x))) &&
      r.Keys == m.Keys - Subtree(m, n) &&
      (p in m ==>
         (p in r &&
          var i := IndexOf(m[p].children, n);
          0 <= i && r[p] == m[p].(children := m[p].children[..i] + m[p].children[i + 1..]))) &&
      Others(m, r, Subtree(m, n) + {p})
  {
    if !m[n].isRoot && (|Subtree(m, n)| <= 1 || confirmed) {
      DeletedKeys(m, n, Subtree(m, n));
      DeletedParent(m, n, Subtree(m, n));
    }
  }

  lemma DeletedKeys(m: map<Id, Node>, n: Id, s: set<Id>)
    requires Consistent(m) && n in m && !m[n].isRoot && s == Subtree(m, n)
    ensures
      var r := SubtreeRemoved(m, n, s);
      (forall x :: x in m ==> (x in r <==> n !in Ancestors(m, x))) &&
      r.Keys == m.Keys - s &&
      Others(m, r, s + {m[n].parentId.value})
  {
    var r := SubtreeRemoved(m, n, s);
    RemoveWrite(m, n, s);
    forall x | x in m ensures x in r <==> n !in Ancestors(m, x) {
      SubtreeIsDescendants(m, n, x);
    }
  }

  lemma DeletedParent(m: map<Id, Node>, n: Id, s: set<Id>)
    requires Consistent(m) && n in m && !m[n].isRoot && s == Subtree(m, n)
    ensures
      var r := SubtreeRemoved(m, n, s);
      var p := m[n].parentId.value;
      p in m ==>
        (p in r &&
         var i := IndexOf(m[p].children, n);
         0 <= i && r[p] == m[p].(children := m[p].children[..i] + m[p].children[i + 1..]))
  {
    var p := m[n].parentId.value;
    if p in m {
      assert p !in s by {
        ParentNotBelow(m, n);
      }
      assert n in m[p].children && NoDup(m[p].children) && p != PLANNER_HIDDEN_ROOT;
      RemoveWrite(m, n, s);
      WithoutAt(m[p].children, IndexOf(m[p].children, n));
    }
  }

  /** The write of `deleteNode` for a given set to delete. */
  lemma RemoveWrite(m: map<Id, Node>, n: Id, s: set<Id>)
    requires n in m
    ensures
      var r := SubtreeRemoved(m, n, s);
      var po := m[n].parentId;
      r.Keys == m.Keys - s &&
      Others(m, r, s + (if po.Some? then {po.value} else {})) &&
      (po.Some? && po.value != PLANNER_HIDDEN_ROOT && po.value in m && po.value !in s ==>
         r[po.value] == m[po.value].(children := Without(m[po.value].children, n)))
  {
  }

  /** A drop onto the dragged node's own parent passes the ancestry check. */
  lemma DropOntoParentAllowed(m: map<Id, Node>, d: Id)
    requires Consistent(m) && HasStoredParent(m, d)
    ensures Ends(m, m[d].parentId.value)
    ensures !DropRefused(m, d, m[d].parentId.value)
  {
    var t := m[d].parentId.value;
    NoShortCycles(m, d);
    AcyclicEnds(m, t);
    SubtreeIsDescendants(m, d, t);
    ParentNotBelow(m, d);
  }

  /** The written `onDrop` lists the dragged node twice when it is dropped onto its own parent. */
  lemma DropOntoParentDuplicates(m: map<Id, Node>, d: Id)
    requires Consistent(m) && HasStoredParent(m, d)
    ensures
      var t := m[d].parentId.value;
      var r := ReparentedAsWritten(m, d, t);
      t in r && multiset(r[t].children)[d] == 2 && !NoDup(r[t].children) && !Consistent(r)
  {
    var t := m[d].parentId.value;
    var r := ReparentedAsWritten(m, d, t);
    NoShortCycles(m, d);
    var kids := m[t].children;
    assert d in kids;
    var i := IndexOf(kids, d);
    assert r[t].children == kids + [d];
    assert multiset(kids)[d] == 1 by {
      assert kids == kids[..i] + [d] + kids[i + 1..];
      assert d !in kids[..i];
      assert d !in kids[i + 1..] by {
        forall k | i + 1 <= k < |kids| ensures kids[k] != d {
          assert kids[i] != kids[k];
        }
      }
    }
    assert (kids + [d])[i] == d && (kids + [d])[|kids|] == d;
  }

  /** Away from the dragged node's own parent, the written `onDrop` and the intended one agree. */
  lemma DropAgreesUnlessOntoParent(m: map<Id, Node>, d: Id, t: Id)
    requires d in m && t in m && m[d].parentId != Some(t)
    ensures ReparentedAsWritten(m, d, t) == Reparented(m, d, t)
  {
  }

  /**
   * A drop that passes the ancestry check takes the dragged node out of its
   * old parent's list, appends it once to the target's list, expands the
   * target and points the dragged node at it.
   */
  lemma DroppedSpec(m: map<Id, Node>, d: Id, t: Id)
    requires Consistent(m) && d in m && t in m
    ensures Ends(m, t)
    ensures DropRefused(m, d, t) ==> Dropped(m, d, t) == m
    ensures !DropRefused(m, d, t) ==>
      var r := Dropped(m, d, t);
      var po := m[d].parentId;
      var before := if po == Some(t) then Without(m[t].children, d) else m[t].children;
      r.Keys == m.Keys &&
      r[d] == m[d].(parentId := Some(t)) &&
      r[t] == m[t].(children := before + [d], collapsed := false) &&
      d !in before && Without(r[t].children, d) == before &&
      (po.Some? && po.value in m && po.value != t ==>
         r[po.value] == m[po.value].(children := Without(m[po.value].children, d))) &&
      Others(m, r, {d, t} + (if po.Some? then {po.value} else {}))
  {
    AcyclicEnds(m, t);
    if !DropRefused(m, d, t) {
      var po := m[d].parentId;
      assert po != Some(d) by {
        if HasStoredParent(m, d) {
          NoShortCycles(m, d);
        }
      }
      assert po != Some(t) ==> d !in m[t].children;
      DropWrite(m, d, t, if po == Some(t) then Without(m[t].children, d) else m[t].children);
      DropWriteOthers(m, d, t);
    }
  }

  /** The write of an allowed drop, on the target: the dragged node appended once, the target expanded. */
  lemma DropWrite(m: map<Id, Node>, d: Id, t: Id, before: seq<Id>)
    requires d in m && t in m && d != t && m[d].parentId != Some(d)
    requires m[d].parentId != Some(t) ==> d !in m[t].children
    requires before == if m[d].parentId == Some(t) then Without(m[t].children, d) else m[t].children
    ensures Reparented(m, d, t)[t] == m[t].(children := before + [d], collapsed := false)
    ensures d !in before && Without(Reparented(m, d, t)[t].children, d) == before
  {
    DetachedAt(m, d, t, before);
    ChildrenTwice(m[t], before, before + [d]);
    AppendedRemoved(before, d);
  }

  /** The detach step leaves the target with the list `before`. */
  lemma DetachedAt(m: map<Id, Node>, d: Id, t: Id, before: seq<Id>)
    requires d in m && t in m
    requires before == if m[d].parentId == Some(t) then Without(m[t].children, d) else m[t].children
    ensures Detached(m, d)[t] == m[t].(children := before)
  {
  }

  /** The write of an allowed drop, elsewhere: the dragged node repointed, its old parent's list without it. */
  lemma DropWriteOthers(m: map<Id, Node>, d: Id, t: Id)
    requires d in m && t in m && d != t && m[d].parentId != Some(d)
    ensures
      var r := Reparented(m, d, t);
      var po := m[d].parentId;
      r.Keys == m.Keys &&
      r[d] == m[d].(parentId := Some(t)) &&
      (po.Some? && po.value in m && po.value != t ==>
         r[po.value] == m[po.value].(children := Without(m[po.value].children, d))) &&
      Others(m, r, {d, t} + (if po.Some? then {po.value} else {}))
  {
    DetachedSpec(m, d);
  }

  /** The detach step of a drop: only the old parent's list changes, and it loses the dragged node. */
  lemma DetachedSpec(m: map<Id, Node>, d: Id)
    requires d in m && m[d].parentId != Some(d)
    ensures
      var r := Detached(m, d);
      var po := m[d].parentId;
      r.Keys == m.Keys && r[d] == m[d] &&
      Others(m, r, if po.Some? then {po.value} else {}) &&
      (po.Some? && po.value in m ==> r[po.value] == m[po.value].(children := Without(m[po.value].children, d)))
  {
  }

  /** Taking a freshly appended id back out gives the list before. */
  lemma AppendedRemoved(s: seq<Id>, x: Id)
    requires x !in s
    ensures Without(s + [x], x) == s
  {
    WithoutConcat(s, [x], x);
    WithoutAbsent(s, x);
    assert Without([x], x) == [];
  }

  /** A move swaps the node with its neighbour and changes nothing else; it is a no-op off the ends. */
  lemma MovedSpec(m: map<Id, Node>, n: Id, dir: int)
    requires MoveDefined(m, n)
    ensures !MoveApplies(m, n, dir) ==> Moved(m, n, dir) == m
    ensures MoveApplies(m, n, dir) ==>
      var r := Moved(m, n, dir);
      var p := m[n].parentId.value;
      var kids := m[p].children;
      var i := IndexOf(kids, n);
      r.Keys == m.Keys && Others(m, r, {p}) &&
      r[p] == m[p].(children := r[p].children) &&
      |r[p].children| == |kids| && r[p].children[i + dir] == n && r[p].children[i] == kids[i + dir] &&
      (forall k :: 0 <= k < |kids| && k != i && k != i + dir ==> r[p].children[k] == kids[k]) &&
      multiset(r[p].children) == multiset(kids)
  {
    if MoveApplies(m, n, dir) {
      var p := m[n].parentId.value;
      var kids := m[p].children;
      SwapPermutes(kids, IndexOf(kids, n), IndexOf(kids, n) + dir);
    }
  }

  /** Moving a node and then moving it back the other way restores the map, provided the first move was applied. */
  lemma MoveThenBack(m: map<Id, Node>, n: Id, dir: int)
    requires MoveDefined(m, n) && MoveApplies(m, n, dir)
    requires NoDup(m[m[n].parentId.value].children)
    ensures MoveDefined(Moved(m, n, dir), n)
    ensures Moved(Moved(m, n, dir), n, -dir) == m
  {
    var p := m[n].parentId.value;
    var i := IndexOf(m[p].children, n);
    MoveForward(m, n, dir, p, i);
    MoveBack(m, Moved(m, n, dir), n, dir, p, i);
  }

  lemma MoveForward(m: map<Id, Node>, n: Id, dir: int, p: Id, i: int)
    requires MoveDefined(m, n) && MoveApplies(m, n, dir)
    requires p == m[n].parentId.value && i == IndexOf(m[p].children, n) && NoDup(m[p].children)
    ensures
      var r := Moved(m, n, dir);
      r == m[p := m[p].(children := Swap(m[p].children, i, i + dir))] &&
      MoveDefined(r, n) && MoveApplies(r, n, -dir) &&
      r[n].parentId == m[n].parentId && IndexOf(r[p].children, n) == i + dir
  {
    var kids := m[p].children;
    var s := Swap(kids, i, i + dir);
    var r := m[p := m[p].(children := s)];
    MovedApplied(m, n, dir, p, i);
    assert IndexOf(s, n) == i + dir by {
      SwapNoDup(kids, i, i + dir);
      IndexOfUnique(s, i + dir);
    }
    assert s[i + dir] == n;
    assert r[n].parentId == m[n].parentId && !r[n].isRoot;
  }

  lemma MoveBack(m: map<Id, Node>, r: map<Id, Node>, n: Id, dir: int, p: Id, i: int)
    requires p in m && 0 <= i < |m[p].children| && 0 <= i + dir < |m[p].children|
    requires r == m[p := m[p].(children := Swap(m[p].children, i, i + dir))]
    requires MoveDefined(r, n) && MoveApplies(r, n, -dir)
    requires p == r[n].parentId.value && IndexOf(r[p].children, n) == i + dir
    ensures Moved(r, n, -dir) == m
  {
    MovedApplied(r, n, -dir, p, i + dir);
    SwapBack(m, r, Moved(r, n, -dir), p, i, i + dir, i + dir + -dir);
  }

  /** Swapping two places of one child list and swapping them again gives the map back. */
  lemma SwapBack(m: map<Id, Node>, r: map<Id, Node>, q: map<Id, Node>, p: Id, i: int, j: int, k: int)
    requires p in m && 0 <= i < |m[p].children| && 0 <= j < |m[p].children| && k == i
    requires r == m[p := m[p].(children := Swap(m[p].children, i, j))]
    requires q == r[p := r[p].(children := Swap(r[p].children, j, k))]
    ensures q == m
  {
    var s := m[p].children;
    var x := m[p].(children := Swap(s, i, j));
    var y := r[p].(children := Swap(r[p].children, j, k));
    assert y == m[p] by {
      assert r[p] == x;
      SwapTwice(s, i, j);
      ChildrenBack(m[p], Swap(s, i, j));
    }
    assert r[p := y] == m by {
      UpdateTwice(m, p, x, m[p]);
      UpdateSelf(m, p);
    }
  }

  /** Setting a record's child list and then setting the old one back gives the record. */
  lemma ChildrenBack(n: Node, c: seq<Id>)
    ensures n.(children := c).(children := n.children) == n
  {
  }

  /** Setting a child list over another one, and expanding, is setting the last one and expanding. */
  lemma ChildrenTwice(n: Node, a: seq<Id>, b: seq<Id>)
    ensures n.(children := a).(children := b, collapsed := false) == n.(children := b, collapsed := false)
  {
  }

  lemma UpdateTwice(m: map<Id, Node>, k: Id, a: Node, b: Node)
    ensures m[k := a][k := b] == m[k := b]
  {
  }

  lemma UpdateSelf(m: map<Id, Node>, k: Id)
    requires k in m
    ensures m[k := m[k]] == m
  {
  }

  /** The write of an applied move, for the parent `p` and the position `i` the move reads. */
  lemma MovedApplied(m: map<Id, Node>, n: Id, dir: int, p: Id, i: int)
    requires MoveDefined(m, n) && MoveApplies(m, n, dir)
    requires p == m[n].parentId.value && i == IndexOf(m[p].children, n)
    ensures Moved(m, n, dir) == m[p := m[p].(children := Swap(m[p].children, i, i + dir))]
  {
  }

  /** Writing back the record a map had under `k` gives that map. */
  lemma UpdateSame(r: map<Id, Node>, m: map<Id, Node>, k: Id)
    requires k in m && r.Keys == m.Keys && Others(m, r, {k})
    ensures r[k := m[k]] == m
  {
    var u := r[k := m[k]];
    assert u.Keys == m.Keys;
    forall j | j in m ensures u[j] == m[j] {
      if j != k {
        assert j !in {k};
      }
    }
  }
}

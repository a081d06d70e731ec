/**
 * The editor's state and its handlers: the node map, the undo stack of
 * whole-map snapshots, the page list and the active page. Each handler
 * installs the map its specification function in `Edits` computes, and
 * keeps the node map and every snapshot well formed.
 *
 * Fresh ids from `generateId` and the answers to `window.confirm` are
 * parameters; an `alert` is a returned flag.
 */
module Store {
  import opened Nodes
  import opened Chains
  import opened Tree
  import opened History
  import opened Pages
  import opened Edits
  import opened Shape
  import opened Walks
  import opened Planner
  import opened Seed

  /** Every snapshot on the stack is well formed. */
  ghost predicate AllConsistent(h: seq<map<Id, Node>>) {
    forall i :: 0 <= i < |h| ==> Consistent(h[i])
  }

  lemma PushKeepsConsistent(h: seq<map<Id, Node>>, s: map<Id, Node>)
    requires AllConsistent(h) && Consistent(s)
    ensures AllConsistent(Push(h, s))
  {
    var r := Push(h, s);
    forall i | 0 <= i < |r| ensures Consistent(r[i]) {
      if i < |r| - 1 {
        assert r[i] == r[..|r| - 1][i] == h[|h| - (|r| - 1) + i];
      }
    }
  }

  /**
   * `addNewPage` installs its root without a snapshot, so an undo right
   * after it restores the map of the edit before: the new page stays listed
   * and still shows the new root, but no record is left for that root,
   * while the restored map itself is well formed.
   */
  lemma UndoAfterNewPage(m: map<Id, Node>, h: seq<map<Id, Node>>, pages: seq<Page>, rid: Id, pid: Id)
    requires AllConsistent(h) && |h| > 0
    requires forall i :: 0 <= i < |h| ==> rid !in h[i]
    requires forall i :: 0 <= i < |pages| ==> pages[i].id != pid && pages[i].rootId != rid
    ensures rid in RootAdded(m, rid)
    ensures RootOfPage(pages + [NewPage(pid, rid)], pid) == Some(rid)
    ensures rid !in Undone(RootAdded(m, rid), h).0
    ensures Consistent(Undone(RootAdded(m, rid), h).0)
    ensures Undone(RootAdded(m, rid), h).1 == h[..|h| - 1]
  {
    NewPageFound(pages, pid, rid);
    assert rid !in h[|h| - 1];
  }

  /** Delete every collected id from a copy of the map, one key at a time. */
  method DeleteKeys(m: map<Id, Node>, s: set<Id>) returns (r: map<Id, Node>)
    ensures r == m - s
  {
    r := m;
    var left := s;
    while left != {}
      invariant left <= s
      invariant r == m - (s - left)
      decreases |left|
    {
      HasMember(left);
      var x :| x in left;
      OneKeyMore(m, s, left, x);
      r := r - {x};
      left := left - {x};
    }
  }

  /** Copy the parent's list into a fresh array and swap two cells of the copy. */
  method SwappedCopy(kids: seq<Id>, i: nat, j: nat) returns (r: seq<Id>)
    requires i < |kids| && j < |kids|
    ensures r == Swap(kids, i, j)
  {
    var a := new Id[|kids|](k requires 0 <= k < |kids| => kids[k]);
    a[i], a[j] := a[j], a[i];
    r := a[..];
  }

  lemma HasMember(s: set<Id>)
    requires s != {}
    ensures exists x :: x in s
  {
    if forall x :: x !in s {
      assert false;
    }
  }

  lemma OneKeyMore(m: map<Id, Node>, s: set<Id>, left: set<Id>, x: Id)
    requires x in left && left <= s
    ensures m - (s - left) - {x} == m - (s - (left - {x}))
  {
  }

  class NodeStore {
    var nodes: map<Id, Node>
    var history: seq<map<Id, Node>>
    var pages: seq<Page>
    var activePageId: Id

    ghost predicate Valid()
      reads this
    {
      Consistent(nodes) && |history| <= KEPT + 1 && AllConsistent(history)
    }

    /** A first start: the sample data and an empty undo stack. */
    constructor (today: string)
      ensures Valid()
      ensures nodes == SeedNodes(today) && history == [] && pages == SeedPages() && activePageId == FIRST_PAGE
    {
      nodes := SeedNodes(today);
      history := [];
      pages := SeedPages();
      activePageId := FIRST_PAGE;
      SeedConsistent(today);
    }

    /** `setNodesWithHistory`: push the map being replaced, then install the new one. */
    method SetNodesWithHistory(next: map<Id, Node>)
      requires Valid() && Consistent(next)
      modifies this
      ensures Valid()
      ensures nodes == next && history == Push(old(history), old(nodes))
      ensures pages == old(pages) && activePageId == old(activePageId)
    {
      PushKeepsConsistent(history, nodes);
      history := Push(history, nodes);
      nodes := next;
    }

    /** `setNodes`: install the new map, the undo stack untouched. */
    method SetNodes(next: map<Id, Node>)
      requires Valid() && Consistent(next)
      modifies this
      ensures Valid()
      ensures nodes == next && history == old(history)
      ensures pages == old(pages) && activePageId == old(activePageId)
    {
      nodes := next;
    }

    /** `handleUndo`: nothing on an empty stack; otherwise restore the newest snapshot and pop it. */
    method Undo()
      requires Valid()
      modifies this
      ensures Valid()
      ensures (nodes, history) == Undone(old(nodes), old(history))
      ensures pages == old(pages) && activePageId == old(activePageId)
    {
      if |history| == 0 {
        return;
      }
      var previous := history[|history| - 1];
      history := history[..|history| - 1];
      nodes := previous;
    }

    // ---------------------------------------------------------------- attributes

    method UpdateNodeText(k: Id, t: string)
      requires Valid() && k in nodes
      modifies this
      ensures Valid()
      ensures nodes == WithText(old(nodes), k, t) && history == old(history)
      ensures pages == old(pages) && activePageId == old(activePageId)
    {
      WithTextKeepsShape(nodes, k, t);
      SetNodes(nodes[k := nodes[k].(text := t)]);
    }

    method UpdateNodeData(k: Id, p: Patch)
      requires Valid() && k in nodes
      modifies this
      ensures Valid()
      ensures nodes == WithData(old(nodes), k, p) && history == Push(old(history), old(nodes))
      ensures pages == old(pages) && activePageId == old(activePageId)
    {
      WithDataKeepsShape(nodes, k, p);
      SetNodesWithHistory(nodes[k := Merge(nodes[k], p)]);
    }

    method ToggleComplete(k: Id)
      requires Valid() && k in nodes
      modifies this
      ensures Valid()
      ensures nodes == CompleteToggled(old(nodes), k) && history == Push(old(history), old(nodes))
      ensures pages == old(pages) && activePageId == old(activePageId)
    {
      CompleteToggledKeepsShape(nodes, k);
      SetNodesWithHistory(nodes[k := nodes[k].(completed := !nodes[k].completed)]);
    }

    method ToggleCollapse(k: Id)
      requires Valid() && k in nodes
      modifies this
      ensures Valid()
      ensures nodes == CollapseToggled(old(nodes), k) && history == old(history)
      ensures pages == old(pages) && activePageId == old(activePageId)
    {
      CollapseToggledKeepsShape(nodes, k);
      SetNodes(nodes[k := nodes[k].(collapsed := !nodes[k].collapsed)]);
    }

    /** `handleNodeFocus`: the focused node stops being new. */
    method HandleNodeFocus(k: Id)
      requires Valid()
      modifies this
      ensures Valid()
      ensures nodes == Seen(old(nodes), k) && history == old(history)
      ensures pages == old(pages) && activePageId == old(activePageId)
    {
      if k in nodes && nodes[k].isNew {
        SeenKeepsShape(nodes, k);
        SetNodes(nodes[k := nodes[k].(isNew := false)]);
      }
    }

    /** The heading switch of the panel, offered at the depth `getNodeDepth` reports. */
    method ToggleHeading(k: Id) returns (offered: bool)
      requires Valid() && k in nodes
      modifies this
      ensures Valid()
      ensures Ends(old(nodes), k) && offered == CanBeHeading(old(nodes)[k], Depth(old(nodes), k))
      ensures offered ==> nodes == HeadingToggled(old(nodes), k) && history == Push(old(history), old(nodes))
      ensures !offered ==> nodes == old(nodes) && history == old(history)
      ensures pages == old(pages) && activePageId == old(activePageId)
    {
      var depth := GetNodeDepth(nodes, k);
      offered := CanBeHeading(nodes[k], depth);
      if offered {
        UpdateNodeData(k, NoChange.(isHeading := Some(!nodes[k].isHeading)));
      }
    }

    // ---------------------------------------------------------------- inserts

    /** `addSiblingNode`: nothing on a root; otherwise the fresh task `f` right after `cur`. */
    method AddSiblingNode(cur: Id, f: Id)
      requires Valid() && cur in nodes && (!nodes[cur].isRoot ==> HasStoredParent(nodes, cur))
      requires f !in nodes && f != PLANNER_HIDDEN_ROOT
      modifies this
      ensures Valid()
      ensures nodes == SiblingAdded(old(nodes), cur, f)
      ensures history == if old(nodes)[cur].isRoot then old(history) else Push(old(history), old(nodes))
      ensures pages == old(pages) && activePageId == old(activePageId)
    {
      var node := nodes[cur];
      if node.isRoot {
        return;
      }
      var next := SiblingAddedUnder(nodes, cur, node.parentId.value, f);
      assert Consistent(next) by {
        assert next == SiblingAdded(nodes, cur, f);
        SiblingAddedKeepsShape(nodes, cur, f);
      }
      SetNodesWithHistory(next);
    }

    /** `addChildNode`: the fresh task `f` at the end of the parent's list, which is expanded. */
    method AddChildNode(p: Id, f: Id)
      requires Valid() && p in nodes && f !in nodes && f != PLANNER_HIDDEN_ROOT
      modifies this
      ensures Valid()
      ensures nodes == ChildAdded(old(nodes), p, f) && history == Push(old(history), old(nodes))
      ensures pages == old(pages) && activePageId == old(activePageId)
    {
      ChildAddedKeepsShape(nodes, p, f);
      SetNodesWithHistory(ChildAdded(nodes, p, f));
    }

    /** `createPlannerTask`: the fresh task `f` under the hidden planner parent. */
    method CreatePlannerTask(f: Id, data: Patch)
      requires Valid() && f !in nodes && f != PLANNER_HIDDEN_ROOT
      modifies this
      ensures Valid()
      ensures nodes == PlannerTaskCreated(old(nodes), f, data) && history == Push(old(history), old(nodes))
      ensures pages == old(pages) && activePageId == old(activePageId)
    {
      PlannerTaskCreatedKeepsShape(nodes, f, data);
      SetNodesWithHistory(nodes[f := Merge(PlannerTask(f), data)]);
    }

    /** `handleCreateTask` of a planner zone: a task starting at the zone's default hour. */
    method PlannerCreateTask(f: Id, day: string, p: Period)
      requires Valid() && f !in nodes && f != PLANNER_HIDDEN_ROOT
      modifies this
      ensures Valid()
      ensures nodes == PlannerTaskCreated(old(nodes), f, CreatedTaskData(day, p))
      ensures history == Push(old(history), old(nodes))
      ensures pages == old(pages) && activePageId == old(activePageId)
    {
      CreatePlannerTask(f, CreatedTaskData(day, p));
    }

    // ---------------------------------------------------------------- outdent

    /** `outdentNode`: nothing on a root or a child of a root. */
    method OutdentNode(n: Id)
      requires Valid() && OutdentDefined(nodes, n)
      modifies this
      ensures Valid()
      ensures nodes == Outdented(old(nodes), n)
      ensures history == (if old(nodes)[n].isRoot || old(nodes)[old(nodes)[n].parentId.value].isRoot
                          then old(history) else Push(old(history), old(nodes)))
      ensures pages == old(pages) && activePageId == old(activePageId)
    {
      var node := nodes[n];
      if node.isRoot {
        return;
      }
      var p := node.parentId.value;
      var parent := nodes[p];
      if parent.isRoot {
        return;
      }
      var g := parent.parentId.value;
      var gk := nodes[g].children;
      var pk := Without(parent.children, n);
      var gk' := InsertAt(gk, IndexOf(gk, p) + 1, n);
      var next := nodes[p := nodes[p].(children := pk)][g := nodes[g].(children := gk')]
                       [n := nodes[n].(parentId := Some(g))];
      assert Consistent(next) by {
        assert next == Outdented(nodes, n);
        OutdentedKeepsShape(nodes, n);
      }
      SetNodesWithHistory(next);
    }

    // ---------------------------------------------------------------- delete

    /**
     * `deleteNode`: refused on a root (the alert), cancelled when the node
     * has descendants and the user does not confirm; otherwise the subtree
     * collected from `n` is deleted key by key from a copy of the map.
     */
    method DeleteNode(n: Id, confirmed: bool) returns (deleted: bool)
      requires Valid() && n in nodes
      modifies this
      ensures Valid()
      ensures nodes == Deleted(old(nodes), n, confirmed)
      ensures deleted <==> !old(nodes)[n].isRoot && (|Subtree(old(nodes), n)| <= 1 || confirmed)
      ensures history == if deleted then Push(old(history), old(nodes)) else old(history)
      ensures pages == old(pages) && activePageId == old(activePageId)
    {
      var node := nodes[n];
      if node.isRoot {
        return false;
      }
      var doomed := CollectSubtree(nodes, n);
      if |doomed| > 1 && !confirmed {
        return false;
      }
      var next := nodes;
      var po := node.parentId;
      if po.Some? && po.value != PLANNER_HIDDEN_ROOT && po.value in next {
        next := next[po.value := next[po.value].(children := Without(next[po.value].children, n))];
      }
      next := DeleteKeys(next, doomed);
      assert Consistent(next) by {
        assert next == SubtreeRemoved(nodes, n, doomed) == Deleted(nodes, n, confirmed);
        DeletedKeepsShape(nodes, n, confirmed);
      }
      SetNodesWithHistory(next);
      deleted := true;
    }

    // ---------------------------------------------------------------- drop

    /**
     * `onDrop` of a node card (roots have no drag handle): refused when the
     * target is the dragged node or below it; otherwise the dragged node
     * moves to the end of the target's list.
     */
    method OnDrop(d: Id, t: Id) returns (refused: bool)
      requires Valid() && d in nodes && t in nodes && !nodes[d].isRoot
      modifies this
      ensures Valid()
      ensures Ends(old(nodes), t) && refused == DropRefused(old(nodes), d, t)
      ensures nodes == Dropped(old(nodes), d, t)
      ensures history == if refused then old(history) else Push(old(history), old(nodes))
      ensures pages == old(pages) && activePageId == old(activePageId)
    {
      refused := CheckDrop(nodes, d, t);
      if refused {
        return;
      }
      var dragged := nodes[d];
      var next := nodes;
      if dragged.parentId.Some? && dragged.parentId.value in nodes {
        var oldParent := nodes[dragged.parentId.value];
        next := next[oldParent.id := oldParent.(children := Without(oldParent.children, d))];
      }
      assert next == Detached(nodes, d);
      var target := next[t];
      next := next[t := target.(children := target.children + [d], collapsed := false)];
      next := next[d := dragged.(parentId := Some(t))];
      DroppedKeepsShape(nodes, d, t);
      SetNodesWithHistory(next);
    }

    // ---------------------------------------------------------------- reorder

    /** `moveNodeOrder`: swap, in a copy of the parent's list, the node with its neighbour `dir` places away. */
    method MoveNodeOrder(n: Id, dir: int)
      requires Valid() && MoveDefined(nodes, n)
      modifies this
      ensures Valid()
      ensures nodes == Moved(old(nodes), n, dir)
      ensures history == if MoveApplies(old(nodes), n, dir) then Push(old(history), old(nodes)) else old(history)
      ensures pages == old(pages) && activePageId == old(activePageId)
    {
      var node := nodes[n];
      if node.isRoot {
        return;
      }
      var p := node.parentId.value;
      var kids := nodes[p].children;
      var i := IndexOf(kids, n);
      var j := i + dir;
      if j < 0 || j >= |kids| {
        return;
      }
      var swapped := SwappedCopy(kids, i, j);
      var next := nodes[p := nodes[p].(children := swapped)];
      assert Consistent(next) by {
        assert next == Moved(nodes, n, dir);
        MovedKeepsShape(nodes, n, dir);
      }
      SetNodesWithHistory(next);
    }

    // ---------------------------------------------------------------- pages

    method UpdatePageTitle(pid: Id, title: string)
      requires Valid()
      modifies this
      ensures Valid()
      ensures pages == Retitled(old(pages), pid, title)
      ensures nodes == old(nodes) && history == old(history) && activePageId == old(activePageId)
    {
      pages := Retitled(pages, pid, title);
    }

    /** `addNewPage`: a fresh root and a page for it, made active; the undo stack is not touched. */
    method AddNewPage(rid: Id, pid: Id)
      requires Valid() && rid !in nodes && rid != PLANNER_HIDDEN_ROOT
      modifies this
      ensures Valid()
      ensures nodes == RootAdded(old(nodes), rid) && history == old(history)
      ensures pages == old(pages) + [NewPage(pid, rid)] && activePageId == pid
    {
      RootAddedKeepsShape(nodes, rid);
      SetNodes(nodes[rid := NewRoot(rid)]);
      pages := pages + [NewPage(pid, rid)];
      activePageId := pid;
    }

    /** The page switch of `jumpToTask`: the page the node belongs to becomes active, if it has one. */
    method JumpToTask(k: Id)
      requires Valid()
      modifies this
      ensures Valid()
      ensures Ends(nodes, k)
      ensures activePageId == match PageOfNode(nodes, pages, k) case Some(q) => q case None => old(activePageId)
      ensures nodes == old(nodes) && history == old(history) && pages == old(pages)
    {
      var target := FindPageIdForNode(nodes, pages, k);
      if target.Some? {
        activePageId := target.value;
      }
    }

    // ---------------------------------------------------------------- planner

    /** `handleDrop` of a planner zone: nothing for an unknown id or a slot already there. */
    method PlannerDrop(k: Id, day: string, p: Period)
      requires Valid()
      modifies this
      ensures Valid()
      ensures k !in old(nodes) || DropPatch(old(nodes)[k], day, p).None? ==>
        nodes == old(nodes) && history == old(history)
      ensures k in old(nodes) && DropPatch(old(nodes)[k], day, p).Some? ==>
        nodes == WithData(old(nodes), k, DropPatch(old(nodes)[k], day, p).value) &&
        history == Push(old(history), old(nodes))
      ensures pages == old(pages) && activePageId == old(activePageId)
    {
      if k !in nodes {
        return;
      }
      var patch := DropPatch(nodes[k], day, p);
      if patch.Some? {
        UpdateNodeData(k, patch.value);
      }
    }

    /**
     * `removeTaskFromPlanner`: a task of the hidden parent is deleted once
     * confirmed; any other task is taken off the zone by `Planner.Removal`.
     */
    method RemoveTaskFromPlanner(k: Id, day: string, p: Period, confirmed: bool, confirmedDescendants: bool)
      requires Valid() && k in nodes
      modifies this
      ensures Valid()
      ensures old(nodes)[k].parentId == Some(PLANNER_HIDDEN_ROOT) ==>
        nodes == (if confirmed then Deleted(old(nodes), k, confirmedDescendants) else old(nodes)) &&
        history == if confirmed && !old(nodes)[k].isRoot && (|Subtree(old(nodes), k)| <= 1 || confirmedDescendants)
                   then Push(old(history), old(nodes)) else old(history)
      ensures old(nodes)[k].parentId != Some(PLANNER_HIDDEN_ROOT) ==>
        match Removal(old(nodes)[k], day, p, confirmed)
        case None => nodes == old(nodes) && history == old(history)
        case Some(q) => nodes == WithData(old(nodes), k, q) && history == Push(old(history), old(nodes))
      ensures pages == old(pages) && activePageId == old(activePageId)
    {
      if nodes[k].parentId == Some(PLANNER_HIDDEN_ROOT) {
        if confirmed {
          var _ := DeleteNode(k, confirmedDescendants);
        }
        return;
      }
      var patch := Removal(nodes[k], day, p, confirmed);
      if patch.Some? {
        UpdateNodeData(k, patch.value);
      }
    }
  }
}

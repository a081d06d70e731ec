/**
 * Every structural edit keeps the node map well formed (`Tree.Consistent`):
 * each parent lists each child once, children point back, roots are
 * exactly the parentless nodes, and parent links never go round in a circle.
 */
module Shape {
  import opened Nodes
  import opened Chains
  import opened Tree
  import opened Edits

  /** Nothing in a well-formed map points at an id that is neither stored nor the hidden planner parent. */
  lemma Unreferenced(m: map<Id, Node>, f: Id)
    requires Consistent(m) && f !in m && f != PLANNER_HIDDEN_ROOT
    ensures forall j :: Up(m, j) != Some(f)
    ensures forall k :: k in m ==> f !in m[k].children
  {
    assert ParentsKnown(m) && ChildrenPointBack(m);
  }

  /** Two records agree on everything the shape depends on, except the order of the children. */
  ghost predicate SameLinks(a: Node, b: Node) {
    a.id == b.id && a.parentId == b.parentId && a.isRoot == b.isRoot &&
    NoDup(a.children) == NoDup(b.children) && forall c :: c in a.children <==> c in b.children
  }

  /** Rewriting records without touching their links, or only reordering children, keeps the shape. */
  lemma SameLinksKeepShape(m: map<Id, Node>, r: map<Id, Node>)
    requires Consistent(m) && r.Keys == m.Keys
    requires forall j :: j in m ==> SameLinks(r[j], m[j])
    ensures Consistent(r)
  {
    assert forall j :: Up(r, j) == Up(m, j);
    AcyclicWeaken(m, r);
    SameLinksPointBack(m, r);
    SameLinksListed(m, r);
  }

  lemma SameLinksPointBack(m: map<Id, Node>, r: map<Id, Node>)
    requires ChildrenPointBack(m) && r.Keys == m.Keys
    requires forall j :: j in m ==> SameLinks(r[j], m[j])
    ensures ChildrenPointBack(r)
  {
    forall k, c | k in r && c in r[k].children ensures c in r && r[c].parentId == Some(k) {
      assert SameLinks(r[k], m[k]) && c in m[k].children;
      assert SameLinks(r[c], m[c]);
    }
  }

  lemma SameLinksListed(m: map<Id, Node>, r: map<Id, Node>)
    requires ParentsListChildren(m) && ChildListsDistinct(m) && r.Keys == m.Keys
    requires forall j :: j in m ==> SameLinks(r[j], m[j])
    ensures ParentsListChildren(r) && ChildListsDistinct(r)
  {
    forall k | k in r && r[k].parentId.Some? && r[k].parentId.value in r
      ensures k in r[r[k].parentId.value].children
    {
      var q := r[k].parentId.value;
      assert SameLinks(r[k], m[k]) && SameLinks(r[q], m[q]);
    }
    forall k | k in r ensures NoDup(r[k].children) {
      assert SameLinks(r[k], m[k]);
    }
  }

  /** An edit that rewrites one record without touching its links. */
  lemma AttributeEditKeepsShape(m: map<Id, Node>, k: Id, n: Node)
    requires Consistent(m) && k in m
    requires n.id == m[k].id && n.children == m[k].children
    requires n.parentId == m[k].parentId && n.isRoot == m[k].isRoot
    ensures Consistent(m[k := n])
  {
    SameLinksKeepShape(m, m[k := n]);
  }

  lemma WithTextKeepsShape(m: map<Id, Node>, k: Id, t: string)
    requires Consistent(m) && k in m
    ensures Consistent(WithText(m, k, t))
  {
    AttributeEditKeepsShape(m, k, m[k].(text := t));
  }

  lemma WithDataKeepsShape(m: map<Id, Node>, k: Id, p: Patch)
    requires Consistent(m) && k in m
    ensures Consistent(WithData(m, k, p))
  {
    AttributeEditKeepsShape(m, k, Merge(m[k], p));
  }

  lemma CompleteToggledKeepsShape(m: map<Id, Node>, k: Id)
    requires Consistent(m) && k in m
    ensures Consistent(CompleteToggled(m, k))
  {
    AttributeEditKeepsShape(m, k, m[k].(completed := !m[k].completed));
  }

  lemma CollapseToggledKeepsShape(m: map<Id, Node>, k: Id)
    requires Consistent(m) && k in m
    ensures Consistent(CollapseToggled(m, k))
  {
    AttributeEditKeepsShape(m, k, m[k].(collapsed := !m[k].collapsed));
  }

  lemma SeenKeepsShape(m: map<Id, Node>, k: Id)
    requires Consistent(m)
    ensures Consistent(Seen(m, k))
  {
    if k in m && m[k].isNew {
      AttributeEditKeepsShape(m, k, m[k].(isNew := false));
    }
  }

  /** A fresh root with no children. */
  lemma RootAddedKeepsShape(m: map<Id, Node>, k: Id)
    requires Consistent(m) && k !in m && k != PLANNER_HIDDEN_ROOT
    ensures Consistent(RootAdded(m, k))
  {
    var r := RootAdded(m, k);
    Unreferenced(m, k);
    assert forall j :: Up(r, j) == Up(m, j) || Up(r, j).None?;
    AcyclicWeaken(m, r);
    assert ChildrenPointBack(r) by {
      assert ChildrenPointBack(m);
    }
    assert ParentsListChildren(r) by {
      assert ParentsListChildren(m);
    }
  }

  /**
   * A fresh leaf `f` under a stored parent `p` whose list gains `f` and
   * nothing else; the parent's other fields may change, not its links.
   */
  lemma LeafInsertKeepsShape(m: map<Id, Node>, p: Id, f: Id, leaf: Node, pr: Node, r: map<Id, Node>)
    requires Consistent(m) && p in m && f !in m && f != PLANNER_HIDDEN_ROOT
    requires leaf.id == f && leaf.parentId == Some(p) && !leaf.isRoot && leaf.children == []
    requires pr.id == p && pr.parentId == m[p].parentId && pr.isRoot == m[p].isRoot
    requires NoDup(pr.children) && forall c :: c in pr.children <==> c == f || c in m[p].children
    requires r == m[f := leaf][p := pr]
    ensures Consistent(r)
  {
    Unreferenced(m, f);
    LeafInsertAcyclic(m, p, f, leaf, pr);
    LeafInsertLinks(m, p, f, leaf, pr);
  }

  lemma LeafInsertAcyclic(m: map<Id, Node>, p: Id, f: Id, leaf: Node, pr: Node)
    requires Acyclic(m) && p in m && f !in m && p != f
    requires forall j :: Up(m, j) != Some(f)
    requires leaf.parentId == Some(p) && pr.parentId == m[p].parentId
    ensures Acyclic(m[f := leaf][p := pr])
  {
    var r := m[f := leaf][p := pr];
    assert forall j :: j != f ==> Up(r, j) == Up(m, j);
    AcyclicEnds(m, p);
    var n: nat :| EndsWithin(m, p, n);
    AvoidsUnreferenced(m, p, f, n);
    AcyclicRedirect(m, r, f, p, n);
  }

  lemma LeafInsertLinks(m: map<Id, Node>, p: Id, f: Id, leaf: Node, pr: Node)
    requires ChildrenPointBack(m) && ParentsListChildren(m)
    requires p in m && f !in m
    requires forall j :: Up(m, j) != Some(f)
    requires forall k :: k in m ==> f !in m[k].children
    requires leaf.parentId == Some(p) && leaf.children == []
    requires pr.parentId == m[p].parentId
    requires forall c :: c in pr.children <==> c == f || c in m[p].children
    ensures ChildrenPointBack(m[f := leaf][p := pr])
    ensures ParentsListChildren(m[f := leaf][p := pr])
  {
    var r := m[f := leaf][p := pr];
    forall k, c | k in r && c in r[k].children ensures c in r && r[c].parentId == Some(k) {
      if k == p {
        if c != f {
          assert c in m[p].children;
          assert c in m && m[c].parentId == Some(p);
        }
      } else {
        assert k != f && r[k] == m[k];
        assert c in m && m[c].parentId == Some(k);
        assert c != f;
      }
    }
    forall k | k in r && r[k].parentId.Some? && r[k].parentId.value in r
      ensures k in r[r[k].parentId.value].children
    {
      if k != f {
        var q := m[k].parentId.value;
        assert r[k].parentId == m[k].parentId;
        assert Up(m, k) == Some(q) && q != f && q in m;
        assert k in m[q].children;
      }
    }
  }

  lemma SiblingAddedKeepsShape(m: map<Id, Node>, cur: Id, f: Id)
    requires Consistent(m) && cur in m && (!m[cur].isRoot ==> HasStoredParent(m, cur))
    requires f !in m && f != PLANNER_HIDDEN_ROOT
    ensures Consistent(SiblingAdded(m, cur, f))
  {
    if !m[cur].isRoot {
      var p := m[cur].parentId.value;
      var kids := m[p].children;
      var i := IndexOf(kids, cur) + 1;
      assert f !in kids by {
        Unreferenced(m, f);
      }
      InsertAtNoDup(kids, i, f);
      var pr := m[p].(children := InsertAt(kids, i, f));
      assert m[p].id == p && p in m && p != f;
      assert SiblingAdded(m, cur, f) == m[f := NewTask(f, p)][p := pr];
      LeafInsertKeepsShape(m, p, f, NewTask(f, p), pr, SiblingAdded(m, cur, f));
    }
  }

  lemma ChildAddedKeepsShape(m: map<Id, Node>, p: Id, f: Id)
    requires Consistent(m) && p in m && f !in m && f != PLANNER_HIDDEN_ROOT
    ensures Consistent(ChildAdded(m, p, f))
  {
    var kids := m[p].children;
    assert f !in kids by {
      Unreferenced(m, f);
    }
    InsertAtNoDup(kids, |kids|, f);
    assert InsertAt(kids, |kids|, f) == kids + [f];
    var pr := m[p].(children := kids + [f], collapsed := false);
    assert m[p].id == p && p != f;
    assert ChildAdded(m, p, f) == m[f := NewTask(f, p)][p := pr];
    LeafInsertKeepsShape(m, p, f, NewTask(f, p), pr, ChildAdded(m, p, f));
  }

  /** A planner task hangs off the hidden planner parent, which no list names. */
  lemma PlannerTaskCreatedKeepsShape(m: map<Id, Node>, f: Id, data: Patch)
    requires Consistent(m) && f !in m && f != PLANNER_HIDDEN_ROOT
    ensures Consistent(PlannerTaskCreated(m, f, data))
  {
    var r := PlannerTaskCreated(m, f, data);
    Unreferenced(m, f);
    assert forall j :: j != f ==> Up(r, j) == Up(m, j);
    assert AvoidsWithin(m, PLANNER_HIDDEN_ROOT, f, 0);
    AcyclicRedirect(m, r, f, PLANNER_HIDDEN_ROOT, 0);
    assert ChildrenPointBack(r) by {
      assert ChildrenPointBack(m);
    }
    assert ParentsListChildren(r) by {
      assert ParentsListChildren(m) && ParentsKnown(m);
    }
  }

  /** A reorder that keeps the set of children and their distinctness keeps the shape. */
  lemma ChildrenReorderedKeepsShape(m: map<Id, Node>, p: Id, kids: seq<Id>)
    requires Consistent(m) && p in m
    requires NoDup(kids) && forall c :: c in kids <==> c in m[p].children
    ensures Consistent(m[p := m[p].(children := kids)])
  {
    var r := m[p := m[p].(children := kids)];
    forall j | j in m ensures SameLinks(r[j], m[j]) {
      if j == p {
        assert NoDup(m[p].children) by {
          assert ChildListsDistinct(m);
        }
      }
    }
    SameLinksKeepShape(m, r);
  }

  lemma MovedKeepsShape(m: map<Id, Node>, n: Id, dir: int)
    requires Consistent(m) && MoveDefined(m, n)
    ensures Consistent(Moved(m, n, dir))
  {
    if MoveApplies(m, n, dir) {
      var p := m[n].parentId.value;
      var kids := m[p].children;
      var i := IndexOf(kids, n);
      var s := Swap(kids, i, i + dir);
      SwapNoDup(kids, i, i + dir);
      SwapMembers(kids, i, i + dir);
      ChildrenReorderedKeepsShape(m, p, s);
      MovedApplied(m, n, dir, p, i);
    }
  }

  // ---------------------------------------------------------------- outdent

  lemma OutdentedKeepsShape(m: map<Id, Node>, n: Id)
    requires Consistent(m) && OutdentDefined(m, n)
    ensures Consistent(Outdented(m, n))
  {
    if !m[n].isRoot && !m[m[n].parentId.value].isRoot {
      var p := m[n].parentId.value;
      var g := m[p].parentId.value;
      NoShortCycles(m, n);
      OutdentShape(m, n, p, g);
    }
  }

  /** The outdent of `n` from `p` to `g` keeps every part of the invariant. */
  lemma OutdentShape(m: map<Id, Node>, n: Id, p: Id, g: Id)
    requires Consistent(m) && OutdentDefined(m, n) && !m[n].isRoot && m[n].parentId == Some(p)
    requires !m[p].isRoot && m[p].parentId == Some(g) && n != p && p != g && g != n
    ensures Consistent(Outdented(m, n))
  {
    OutdentWriteFields(m, n, p, g);
    OutdentWriteOthers(m, n, p, g);
    OutdentShapeAt(m, Outdented(m, n), n, p, g);
  }

  /** The fields an outdent writes, one by one. */
  lemma OutdentWriteFields(m: map<Id, Node>, n: Id, p: Id, g: Id)
    requires OutdentDefined(m, n) && !m[n].isRoot && m[n].parentId == Some(p)
    requires !m[p].isRoot && m[p].parentId == Some(g) && n != p && p != g && g != n
    ensures Outdented(m, n)[n].id == m[n].id && Outdented(m, n)[n].isRoot == m[n].isRoot
    ensures Outdented(m, n)[n].children == m[n].children && Outdented(m, n)[n].parentId == Some(g)
    ensures Outdented(m, n)[p].id == m[p].id && Outdented(m, n)[p].isRoot == m[p].isRoot
    ensures Outdented(m, n)[p].parentId == m[p].parentId
    ensures Outdented(m, n)[p].children == Without(m[p].children, n)
    ensures Outdented(m, n)[g].id == m[g].id && Outdented(m, n)[g].isRoot == m[g].isRoot
    ensures Outdented(m, n)[g].parentId == m[g].parentId
    ensures Outdented(m, n)[g].children == InsertAt(m[g].children, IndexOf(m[g].children, p) + 1, n)
  {
    OutdentWrite(m, n, p, g);
  }

  /** A map written with the fields of an outdent keeps the invariant. */
  lemma OutdentShapeAt(m: map<Id, Node>, r: map<Id, Node>, n: Id, p: Id, g: Id)
    requires Consistent(m)
    requires n in m && p in m && g in m && n != p && p != g && g != n
    requires m[n].parentId == Some(p) && m[p].parentId == Some(g) && !m[n].isRoot
    requires r.Keys == m.Keys && Others(m, r, {n, p, g})
    requires r[n].id == m[n].id && r[n].isRoot == m[n].isRoot
    requires r[n].children == m[n].children && r[n].parentId == Some(g)
    requires r[p].id == m[p].id && r[p].isRoot == m[p].isRoot
    requires r[p].parentId == m[p].parentId
    requires r[p].children == Without(m[p].children, n)
    requires r[g].id == m[g].id && r[g].isRoot == m[g].isRoot
    requires r[g].parentId == m[g].parentId
    requires r[g].children == InsertAt(m[g].children, IndexOf(m[g].children, p) + 1, n)
    ensures Consistent(r)
  {
    var gk := m[g].children;
    var gk' := InsertAt(gk, IndexOf(gk, p) + 1, n);
    assert NoDup(gk') by {
      assert p in gk && n !in gk && NoDup(gk) by {
        assert ChildrenPointBack(m) && ParentsListChildren(m) && ChildListsDistinct(m);
      }
      InsertAtNoDup(gk, IndexOf(gk, p) + 1, n);
    }
    OutdentShapeOf(m, r, n, p, g, gk');
  }

  /** Any map written the way an outdent writes one keeps the invariant. */
  lemma OutdentShapeOf(m: map<Id, Node>, r: map<Id, Node>, n: Id, p: Id, g: Id, gk': seq<Id>)
    requires Consistent(m) && NoDup(gk')
    requires n in m && p in m && g in m && n != p && p != g && g != n
    requires m[n].parentId == Some(p) && m[p].parentId == Some(g) && !m[n].isRoot
    requires r.Keys == m.Keys && Others(m, r, {n, p, g})
    requires r[n].id == m[n].id && r[n].isRoot == m[n].isRoot && r[n].children == m[n].children
    requires r[n].parentId == Some(g)
    requires r[p].id == m[p].id && r[p].isRoot == m[p].isRoot && r[p].parentId == m[p].parentId
    requires r[p].children == Without(m[p].children, n)
    requires r[g].id == m[g].id && r[g].isRoot == m[g].isRoot && r[g].parentId == m[g].parentId
    requires r[g].children == gk' && forall c :: c in gk' <==> c == n || c in m[g].children
    ensures Consistent(r)
  {
    OutdentAcyclic(m, r, n, p, g, gk');
    OutdentTops(m, r, n, p, g, gk');
    OutdentDistinct(m, r, n, p, g, gk');
    OutdentPointBack(m, r, n, p, g, gk');
    OutdentListed(m, r, n, p, g, gk');
  }

  lemma OutdentAcyclic(m: map<Id, Node>, r: map<Id, Node>, n: Id, p: Id, g: Id, gk': seq<Id>)
    requires Acyclic(m)
    requires n in m && p in m && g in m && n != p && p != g && g != n
    requires m[n].parentId == Some(p) && m[p].parentId == Some(g) && !m[n].isRoot
    requires r.Keys == m.Keys && Others(m, r, {n, p, g})
    requires r[n].id == m[n].id && r[n].isRoot == m[n].isRoot && r[n].children == m[n].children
    requires r[n].parentId == Some(g)
    requires r[p].id == m[p].id && r[p].isRoot == m[p].isRoot && r[p].parentId == m[p].parentId
    requires r[p].children == Without(m[p].children, n)
    requires r[g].id == m[g].id && r[g].isRoot == m[g].isRoot && r[g].parentId == m[g].parentId
    requires r[g].children == gk' && forall c :: c in gk' <==> c == n || c in m[g].children
    ensures Acyclic(r)
  {
    Untouched(m, r, n, p, g);
    assert forall j :: j != n ==> Up(r, j) == Up(m, j);
    AcyclicShortcut(m, r, n);
  }

  /** The grandparent's parent is none of the three nodes an outdent touches. */
  lemma NoCycleOfThree(m: map<Id, Node>, n: Id, p: Id, g: Id)
    requires Acyclic(m) && n in m && p in m && g in m
    requires m[n].parentId == Some(p) && m[p].parentId == Some(g)
    ensures m[g].parentId != Some(n) && m[g].parentId != Some(p) && m[g].parentId != Some(g)
  {
    AcyclicHasNoCycle(m, [g]);
    AcyclicHasNoCycle(m, [p, g]);
    AcyclicHasNoCycle(m, [g, p, n]);
  }

  /** Ids, roots and parent pointers stay well formed. */
  lemma OutdentTops(m: map<Id, Node>, r: map<Id, Node>, n: Id, p: Id, g: Id, gk': seq<Id>)
    requires NoHiddenRecord(m) && KeysAreIds(m) && RootsAreTops(m) && ParentsKnown(m)
    requires n in m && p in m && g in m && n != p && p != g && g != n
    requires m[n].parentId == Some(p) && m[p].parentId == Some(g) && !m[n].isRoot
    requires r.Keys == m.Keys && Others(m, r, {n, p, g})
    requires r[n].id == m[n].id && r[n].isRoot == m[n].isRoot && r[n].children == m[n].children
    requires r[n].parentId == Some(g)
    requires r[p].id == m[p].id && r[p].isRoot == m[p].isRoot && r[p].parentId == m[p].parentId
    requires r[p].children == Without(m[p].children, n)
    requires r[g].id == m[g].id && r[g].isRoot == m[g].isRoot && r[g].parentId == m[g].parentId
    requires r[g].children == gk' && forall c :: c in gk' <==> c == n || c in m[g].children
    ensures NoHiddenRecord(r) && KeysAreIds(r) && RootsAreTops(r) && ParentsKnown(r)
  {
    Untouched(m, r, n, p, g);
  }

  lemma OutdentDistinct(m: map<Id, Node>, r: map<Id, Node>, n: Id, p: Id, g: Id, gk': seq<Id>)
    requires ChildListsDistinct(m) && NoDup(gk')
    requires n in m && p in m && g in m && n != p && p != g && g != n
    requires m[n].parentId == Some(p) && m[p].parentId == Some(g) && !m[n].isRoot
    requires r.Keys == m.Keys && Others(m, r, {n, p, g})
    requires r[n].id == m[n].id && r[n].isRoot == m[n].isRoot && r[n].children == m[n].children
    requires r[n].parentId == Some(g)
    requires r[p].id == m[p].id && r[p].isRoot == m[p].isRoot && r[p].parentId == m[p].parentId
    requires r[p].children == Without(m[p].children, n)
    requires r[g].id == m[g].id && r[g].isRoot == m[g].isRoot && r[g].parentId == m[g].parentId
    requires r[g].children == gk' && forall c :: c in gk' <==> c == n || c in m[g].children
    ensures ChildListsDistinct(r)
  {
    WithoutNoDup(m[p].children, n);
    Untouched(m, r, n, p, g);
    forall k | k in r ensures NoDup(r[k].children) {
      if k != p && k != g {
        assert r[k].children == m[k].children;
      }
    }
  }

  /** The records an outdent does not name keep their fields. */
  lemma Untouched(m: map<Id, Node>, r: map<Id, Node>, n: Id, p: Id, g: Id)
    requires n in m && p in m && g in m && n != p && p != g && g != n
    requires r.Keys == m.Keys && Others(m, r, {n, p, g})
    requires r[n].id == m[n].id && r[n].isRoot == m[n].isRoot && r[n].children == m[n].children
    requires r[p].id == m[p].id && r[p].isRoot == m[p].isRoot && r[p].parentId == m[p].parentId
    requires r[g].id == m[g].id && r[g].isRoot == m[g].isRoot && r[g].parentId == m[g].parentId
    ensures forall k :: k in m ==> r[k].id == m[k].id && r[k].isRoot == m[k].isRoot
    ensures forall k :: k in m && k != n ==> r[k].parentId == m[k].parentId
    ensures forall k :: k in m && k != p && k != g ==> r[k].children == m[k].children
  {
    forall k | k in m && k != n && k != p && k != g ensures r[k] == m[k] {
      assert k !in {n, p, g};
    }
  }

  lemma OutdentPointBack(m: map<Id, Node>, r: map<Id, Node>, n: Id, p: Id, g: Id, gk': seq<Id>)
    requires Acyclic(m) && ChildrenPointBack(m)
    requires n in m && p in m && g in m && n != p && p != g && g != n
    requires m[n].parentId == Some(p) && m[p].parentId == Some(g) && !m[n].isRoot
    requires r.Keys == m.Keys && Others(m, r, {n, p, g})
    requires r[n].id == m[n].id && r[n].isRoot == m[n].isRoot && r[n].children == m[n].children
    requires r[n].parentId == Some(g)
    requires r[p].id == m[p].id && r[p].isRoot == m[p].isRoot && r[p].parentId == m[p].parentId
    requires r[p].children == Without(m[p].children, n)
    requires r[g].id == m[g].id && r[g].isRoot == m[g].isRoot && r[g].parentId == m[g].parentId
    requires r[g].children == gk' && forall c :: c in gk' <==> c == n || c in m[g].children
    ensures ChildrenPointBack(r)
  {
    Untouched(m, r, n, p, g);
    NoCycleOfThree(m, n, p, g);
    forall k, c | k in r && c in r[k].children ensures c in r && r[c].parentId == Some(k) {
      if k == g && c == n {
      } else {
        assert c in m[k].children;
        assert c in m && m[c].parentId == Some(k);
        assert c != n;
      }
    }
  }

  lemma OutdentListed(m: map<Id, Node>, r: map<Id, Node>, n: Id, p: Id, g: Id, gk': seq<Id>)
    requires ParentsListChildren(m)
    requires n in m && p in m && g in m && n != p && p != g && g != n
    requires m[n].parentId == Some(p) && m[p].parentId == Some(g) && !m[n].isRoot
    requires r.Keys == m.Keys && Others(m, r, {n, p, g})
    requires r[n].id == m[n].id && r[n].isRoot == m[n].isRoot && r[n].children == m[n].children
    requires r[n].parentId == Some(g)
    requires r[p].id == m[p].id && r[p].isRoot == m[p].isRoot && r[p].parentId == m[p].parentId
    requires r[p].children == Without(m[p].children, n)
    requires r[g].id == m[g].id && r[g].isRoot == m[g].isRoot && r[g].parentId == m[g].parentId
    requires r[g].children == gk' && forall c :: c in gk' <==> c == n || c in m[g].children
    ensures ParentsListChildren(r)
  {
    Untouched(m, r, n, p, g);
    forall k | k in r && r[k].parentId.Some? && r[k].parentId.value in r
      ensures k in r[r[k].parentId.value].children
    {
      if k != n {
        var q := m[k].parentId.value;
        assert r[k].parentId == m[k].parentId && q in m;
        assert k in m[q].children;
      }
    }
  }

  // ---------------------------------------------------------------- delete

  /** A subtree is closed under `children`. */
  lemma SubtreeClosed(m: map<Id, Node>, n: Id)
    ensures forall y, c :: y in Subtree(m, n) && y in m && c in m[y].children ==> c in Subtree(m, n)
  {
    forall y, c | y in Subtree(m, n) && y in m && c in m[y].children
      ensures c in Subtree(m, n)
    {
      ReachableStep(m, n, y, c);
    }
  }

  /** Below `n`, only `n` itself has a parent outside the subtree. */
  lemma EntersOnlyAtTop(m: map<Id, Node>, n: Id)
    requires ChildrenPointBack(m)
    ensures forall k, c :: k in m && c in m[k].children && c != n && c in Subtree(m, n) ==> k in Subtree(m, n)
  {
    forall k, c | k in m && c in m[k].children && c != n && c in Subtree(m, n)
      ensures k in Subtree(m, n)
    {
      var q :| IsPath(m, q) && q[0] == n && q[|q| - 1] == c;
      assert |q| >= 2;
      var y := q[|q| - 2];
      assert y in m && c in m[y].children;
      assert m[c].parentId == Some(y) && m[c].parentId == Some(k);
      var q' := q[..|q| - 1];
      assert IsPath(m, q') && q'[0] == n && q'[|q'| - 1] == k;
    }
  }

  lemma DeletedKeepsShape(m: map<Id, Node>, n: Id, confirmed: bool)
    requires Consistent(m) && n in m
    ensures Consistent(Deleted(m, n, confirmed))
  {
    if !m[n].isRoot && (|Subtree(m, n)| <= 1 || confirmed) {
      var s := Subtree(m, n);
      var r := SubtreeRemoved(m, n, s);
      var p := m[n].parentId.value;
      assert Deleted(m, n, confirmed) == r;
      assert Consistent(r) by {
        SubtreeClosed(m, n);
        EntersOnlyAtTop(m, n);
        if p in m {
          ParentNotBelow(m, n);
        }
        assert forall j :: Up(r, j) == Up(m, j) || Up(r, j).None?;
        AcyclicWeaken(m, r);
        RemoveWrite(m, n, s);
        RemovedLinks(m, r, n, s, p);
      }
    }
  }

  lemma RemovedLinks(m: map<Id, Node>, r: map<Id, Node>, n: Id, s: set<Id>, p: Id)
    requires NoHiddenRecord(m) && KeysAreIds(m) && RootsAreTops(m) && ParentsKnown(m)
    requires ChildrenPointBack(m) && ParentsListChildren(m) && ChildListsDistinct(m)
    requires n in m && n in s && m[n].parentId == Some(p)
    requires p in m ==> p !in s
    requires forall y, c :: y in s && y in m && c in m[y].children ==> c in s
    requires forall k, c :: k in m && c in m[k].children && c != n && c in s ==> k in s
    requires r.Keys == m.Keys - s && Others(m, r, s + {p})
    requires p in m ==> r[p] == m[p].(children := Without(m[p].children, n))
    ensures NoHiddenRecord(r) && KeysAreIds(r) && RootsAreTops(r) && ParentsKnown(r)
    ensures ChildrenPointBack(r) && ParentsListChildren(r) && ChildListsDistinct(r)
  {
    RemovedFields(m, r, s, p, n);
    assert ChildListsDistinct(r) by {
      forall k | k in r ensures NoDup(r[k].children) {
        if k == p {
          WithoutNoDup(m[p].children, n);
        } else {
          assert r[k].children == m[k].children;
        }
      }
    }
    assert ParentsKnown(r) by {
      forall k | k in r && r[k].parentId.Some? && r[k].parentId.value != PLANNER_HIDDEN_ROOT
        ensures r[k].parentId.value in r
      {
        var x := m[k].parentId.value;
        assert r[k].parentId == m[k].parentId && x in m;
        assert k in m[x].children;
        assert k !in s;
      }
    }
    RemovedPointBack(m, r, n, s, p);
    RemovedListed(m, r, n, s, p);
  }

  /** Which fields of which records a delete changes. */
  lemma RemovedFields(m: map<Id, Node>, r: map<Id, Node>, s: set<Id>, p: Id, n: Id)
    requires r.Keys == m.Keys - s && Others(m, r, s + {p})
    requires p in r ==> p in m && r[p] == m[p].(children := Without(m[p].children, n))
    ensures forall k :: k in r ==> r[k].id == m[k].id && r[k].isRoot == m[k].isRoot
    ensures forall k :: k in r ==> r[k].parentId == m[k].parentId
    ensures forall k :: k in r && k != p ==> r[k].children == m[k].children
  {
    forall k | k in r && k != p ensures r[k] == m[k] {
      assert k !in s + {p};
    }
  }

  lemma RemovedPointBack(m: map<Id, Node>, r: map<Id, Node>, n: Id, s: set<Id>, p: Id)
    requires ChildrenPointBack(m)
    requires n in m && n in s && m[n].parentId == Some(p)
    requires forall k, c :: k in m && c in m[k].children && c != n && c in s ==> k in s
    requires r.Keys == m.Keys - s
    requires forall k :: k in r ==> r[k].parentId == m[k].parentId
    requires forall k :: k in r && k != p ==> r[k].children == m[k].children
    requires p in r ==> r[p].children == Without(m[p].children, n)
    ensures ChildrenPointBack(r)
  {
    forall k, c | k in r && c in r[k].children ensures c in r && r[c].parentId == Some(k) {
      assert c in m[k].children;
      assert c in m && m[c].parentId == Some(k);
      assert c != n;
    }
  }

  lemma RemovedListed(m: map<Id, Node>, r: map<Id, Node>, n: Id, s: set<Id>, p: Id)
    requires ParentsListChildren(m)
    requires n in s
    requires r.Keys == m.Keys - s
    requires forall k :: k in r ==> r[k].parentId == m[k].parentId
    requires forall k :: k in r && k != p ==> r[k].children == m[k].children
    requires p in r ==> r[p].children == Without(m[p].children, n)
    ensures ParentsListChildren(r)
  {
    forall k | k in r && r[k].parentId.Some? && r[k].parentId.value in r
      ensures k in r[r[k].parentId.value].children
    {
      var x := m[k].parentId.value;
      assert r[k].parentId == m[k].parentId && x in m;
      assert k in m[x].children;
    }
  }

  // ---------------------------------------------------------------- drop

  /** A drop that passes the ancestry check keeps a non-root dragged node's map well formed. */
  lemma DroppedKeepsShape(m: map<Id, Node>, d: Id, t: Id)
    requires Consistent(m) && d in m && t in m && !m[d].isRoot
    ensures Consistent(Dropped(m, d, t))
  {
    AcyclicEnds(m, t);
    if !DropRefused(m, d, t) {
      var r := Reparented(m, d, t);
      var q := m[d].parentId.value;
      assert q != d by {
        assert RootsAreTops(m) && ParentsKnown(m);
        if q in m {
          NoShortCycles(m, d);
        }
      }
      assert q != t ==> d !in m[t].children by {
        assert ChildrenPointBack(m);
      }
      if q in m {
        assert NoDup(m[q].children) by {
          assert ChildListsDistinct(m);
        }
        WithoutNoDup(m[q].children, d);
      }
      assert NoDup(m[t].children) by {
        assert ChildListsDistinct(m);
      }
      DropAcyclic(m, r, d, t);
      var before := if q == t then Without(m[t].children, d) else m[t].children;
      DropWrite(m, d, t, before);
      DropWriteOthers(m, d, t);
      assert NoDup(before);
      DropLinks(m, r, d, t, q, before);
    }
  }

  lemma DropAcyclic(m: map<Id, Node>, r: map<Id, Node>, d: Id, t: Id)
    requires Acyclic(m) && d in m && t in m && d != t
    requires Ends(m, t) && d !in Ancestors(m, t)
    requires r == Reparented(m, d, t)
    ensures Acyclic(r)
  {
    var n: nat :| EndsWithin(m, t, n);
    AncestorsAt(m, t, n);
    AvoidsFromChain(m, t, d, n);
    assert forall j :: j != d ==> Up(r, j) == Up(m, j);
    AcyclicRedirect(m, r, d, t, n);
  }

  lemma DropLinks(m: map<Id, Node>, r: map<Id, Node>, d: Id, t: Id, q: Id, before: seq<Id>)
    requires NoHiddenRecord(m) && KeysAreIds(m) && RootsAreTops(m) && ParentsKnown(m)
    requires ChildrenPointBack(m) && ParentsListChildren(m) && ChildListsDistinct(m)
    requires d in m && t in m && d != t && !m[d].isRoot && m[d].parentId == Some(q) && q != d
    requires before == if q == t then Without(m[t].children, d) else m[t].children
    requires d !in before && NoDup(before)
    requires q in m ==> NoDup(Without(m[q].children, d))
    requires r.Keys == m.Keys && Others(m, r, {d, t, q})
    requires r[d] == m[d].(parentId := Some(t))
    requires r[t] == m[t].(children := before + [d], collapsed := false)
    requires q in m && q != t ==> r[q] == m[q].(children := Without(m[q].children, d))
    ensures NoHiddenRecord(r) && KeysAreIds(r) && RootsAreTops(r) && ParentsKnown(r)
    ensures ChildrenPointBack(r) && ParentsListChildren(r) && ChildListsDistinct(r)
  {
    DropFields(m, r, d, t, q, before);
    assert NoDup(before + [d]) by {
      forall a, b | 0 <= a < b < |before| + 1 ensures (before + [d])[a] != (before + [d])[b] {
        if b == |before| {
          assert (before + [d])[a] == before[a];
        } else {
          assert (before + [d])[a] == before[a] && (before + [d])[b] == before[b];
        }
      }
    }
    assert ChildListsDistinct(r) by {
      forall k | k in r ensures NoDup(r[k].children) {
        if k != t && k != q {
          assert r[k].children == m[k].children;
        }
      }
    }
    DropPointBack(m, r, d, t, q, before);
    DropListed(m, r, d, t, q, before);
  }

  /** Which fields of which records a drop changes. */
  lemma DropFields(m: map<Id, Node>, r: map<Id, Node>, d: Id, t: Id, q: Id, before: seq<Id>)
    requires d in m && t in m && d != t && q != d
    requires r.Keys == m.Keys && Others(m, r, {d, t, q})
    requires r[d] == m[d].(parentId := Some(t))
    requires r[t] == m[t].(children := before + [d], collapsed := false)
    requires q in m && q != t ==> r[q] == m[q].(children := Without(m[q].children, d))
    ensures forall k :: k in m ==> r[k].id == m[k].id && r[k].isRoot == m[k].isRoot
    ensures forall k :: k in m && k != d ==> r[k].parentId == m[k].parentId
    ensures forall k :: k in m && k != t && k != q ==> r[k].children == m[k].children
  {
    forall k | k in m && k != d && k != t && k != q ensures r[k] == m[k] {
      assert k !in {d, t, q};
    }
  }

  lemma DropPointBack(m: map<Id, Node>, r: map<Id, Node>, d: Id, t: Id, q: Id, before: seq<Id>)
    requires ChildrenPointBack(m)
    requires d in m && t in m && d != t && m[d].parentId == Some(q) && q != d
    requires before == if q == t then Without(m[t].children, d) else m[t].children
    requires r.Keys == m.Keys
    requires forall k :: k in m && k != d ==> r[k].parentId == m[k].parentId
    requires forall k :: k in m && k != t && k != q ==> r[k].children == m[k].children
    requires r[d].parentId == Some(t) && r[t].children == before + [d]
    requires q in m && q != t ==> r[q].children == Without(m[q].children, d)
    ensures ChildrenPointBack(r)
  {
    forall k, c | k in r && c in r[k].children ensures c in r && r[c].parentId == Some(k) {
      if k == t && c == d {
      } else {
        if k == t {
          assert c in before;
        }
        assert c in m[k].children;
        assert c in m && m[c].parentId == Some(k);
        assert c != d;
      }
    }
  }

  lemma DropListed(m: map<Id, Node>, r: map<Id, Node>, d: Id, t: Id, q: Id, before: seq<Id>)
    requires ParentsListChildren(m)
    requires d in m && t in m && d != t && m[d].parentId == Some(q) && q != d
    requires before == if q == t then Without(m[t].children, d) else m[t].children
    requires r.Keys == m.Keys
    requires forall k :: k in m && k != d ==> r[k].parentId == m[k].parentId
    requires forall k :: k in m && k != t && k != q ==> r[k].children == m[k].children
    requires r[d].parentId == Some(t) && r[t].children == before + [d]
    requires q in m && q != t ==> r[q].children == Without(m[q].children, d)
    ensures ParentsListChildren(r)
  {
    forall k | k in r && r[k].parentId.Some? && r[k].parentId.value in r
      ensures k in r[r[k].parentId.value].children
    {
      if k != d {
        var x := m[k].parentId.value;
        assert r[k].parentId == m[k].parentId && x in m;
        assert k in m[x].children;
        if x == t {
          assert k in before;
        }
      }
    }
  }
}

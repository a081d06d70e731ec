/**
 * The shape every edit keeps the node map in, and reachability through
 * `children` lists, which is what `deleteNode` removes and what the mind map
 * renders from a page's root.
 */
module Tree {
  import opened Nodes
  import opened Chains

  /** The hidden planner parent has no record. */
  ghost predicate NoHiddenRecord(m: map<Id, Node>) {
    PLANNER_HIDDEN_ROOT !in m
  }

  /** Every record is stored under its own id. */
  ghost predicate KeysAreIds(m: map<Id, Node>) {
    forall k :: k in m ==> m[k].id == k
  }

  /** Exactly the roots have no parent. */
  ghost predicate RootsAreTops(m: map<Id, Node>) {
    forall k :: k in m ==> (m[k].isRoot <==> m[k].parentId.None?)
  }

  /** A parent id names the hidden planner parent or a stored node. */
  ghost predicate ParentsKnown(m: map<Id, Node>) {
    forall k :: k in m && m[k].parentId.Some? ==>
      m[k].parentId.value == PLANNER_HIDDEN_ROOT || m[k].parentId.value in m
  }

  /** Every child id names a stored node whose parent is the listing node. */
  ghost predicate ChildrenPointBack(m: map<Id, Node>) {
    forall k, c :: k in m && c in m[k].children ==> c in m && m[c].parentId == Some(k)
  }

  /** A stored node is listed by its stored parent. */
  ghost predicate ParentsListChildren(m: map<Id, Node>) {
    forall k :: k in m && m[k].parentId.Some? && m[k].parentId.value in m ==>
      k in m[m[k].parentId.value].children
  }

  /** No child list names a node twice. */
  ghost predicate ChildListsDistinct(m: map<Id, Node>) {
    forall k :: k in m ==> NoDup(m[k].children)
  }

  /** The shape every edit keeps the node map in. */
  ghost predicate Consistent(m: map<Id, Node>) {
    NoHiddenRecord(m) && KeysAreIds(m) && RootsAreTops(m) && ParentsKnown(m) &&
    ChildrenPointBack(m) && ParentsListChildren(m) && ChildListsDistinct(m) && Acyclic(m)
  }

  /** `p` descends through `children` lists, each step from a stored node to one of its children. */
  ghost predicate IsPath(m: map<Id, Node>, p: seq<Id>) {
    |p| >= 1 && forall i :: 0 <= i < |p| - 1 ==> p[i] in m && p[i + 1] in m[p[i]].children
  }

  ghost predicate Reachable(m: map<Id, Node>, r: Id, x: Id) {
    exists p :: IsPath(m, p) && p[0] == r && p[|p| - 1] == x
  }

  /** Every id some `children` list names. */
  function AllChildren(m: map<Id, Node>): set<Id> {
    set k, c | k in m && c in m[k].children :: c
  }

  lemma InAllChildren(m: map<Id, Node>, k: Id, c: Id)
    requires k in m && c in m[k].children
    ensures c in AllChildren(m)
  {
  }

  /** `r` and everything below it: what `collect` in `deleteNode` gathers. */
  ghost function Subtree(m: map<Id, Node>, r: Id): (s: set<Id>)
    ensures r in s
    ensures forall x :: x in s <==> Reachable(m, r, x)
  {
    assert IsPath(m, [r]);
    var s := set x | x in {r} + m.Keys + AllChildren(m) && Reachable(m, r, x);
    forall x | Reachable(m, r, x) ensures x in s {
      var p :| IsPath(m, p) && p[0] == r && p[|p| - 1] == x;
      if |p| > 1 {
        var y := p[|p| - 2];
        InAllChildren(m, y, x);
      } else {
        assert x == r;
      }
      assert x in {r} + m.Keys + AllChildren(m);
    }
    s
  }

  lemma ReachableRefl(m: map<Id, Node>, r: Id)
    ensures Reachable(m, r, r)
  {
    assert IsPath(m, [r]);
  }

  lemma ReachableStep(m: map<Id, Node>, r: Id, y: Id, x: Id)
    requires Reachable(m, r, y) && y in m && x in m[y].children
    ensures Reachable(m, r, x)
  {
    var p :| IsPath(m, p) && p[0] == r && p[|p| - 1] == y;
    assert IsPath(m, p + [x]);
  }

  /** A child of `r` reaches whatever it reaches from `r` too. */
  lemma ReachableThrough(m: map<Id, Node>, r: Id, c: Id, x: Id)
    requires r in m && c in m[r].children && Reachable(m, c, x)
    ensures Reachable(m, r, x)
  {
    var p :| IsPath(m, p) && p[0] == c && p[|p| - 1] == x;
    assert IsPath(m, [r] + p);
  }

  lemma {:induction false} PathInClosed(m: map<Id, Node>, p: seq<Id>, s: set<Id>, i: nat)
    requires IsPath(m, p) && p[0] in s && i < |p|
    requires forall y, c :: y in s && y in m && c in m[y].children ==> c in s
    ensures p[i] in s
  {
    if i > 0 {
      PathInClosed(m, p, s, i - 1);
    }
  }

  /** A set that holds `r` and is closed under `children` holds all of `r`'s subtree. */
  lemma ClosedContainsSubtree(m: map<Id, Node>, r: Id, s: set<Id>)
    requires r in s
    requires forall y, c :: y in s && y in m && c in m[y].children ==> c in s
    ensures Subtree(m, r) <= s
  {
    forall x | x in Subtree(m, r) ensures x in s {
      var p :| IsPath(m, p) && p[0] == r && p[|p| - 1] == x;
      PathInClosed(m, p, s, |p| - 1);
    }
  }

  /** In a well-formed map a path read backwards is a chain of parent links. */
  lemma PathIsParentChain(m: map<Id, Node>, p: seq<Id>)
    requires Consistent(m) && IsPath(m, p)
    ensures forall i :: 0 < i < |p| ==> p[i] in m && Up(m, p[i]) == Some(p[i - 1])
  {
    forall i | 0 < i < |p| ensures p[i] in m && Up(m, p[i]) == Some(p[i - 1]) {
      var j := i - 1;
      assert 0 <= j < |p| - 1;
      var k, c := p[j], p[j + 1];
      assert k in m && c in m[k].children;
      assert ChildrenPointBack(m);
      assert c in m && m[c].parentId == Some(k);
    }
  }

  /** A stored node's parent is never below it. */
  lemma ParentNotBelow(m: map<Id, Node>, n: Id)
    requires Consistent(m) && n in m && m[n].parentId.Some?
    ensures !Reachable(m, n, m[n].parentId.value)
  {
    if Reachable(m, n, m[n].parentId.value) {
      var p :| IsPath(m, p) && p[0] == n && p[|p| - 1] == m[n].parentId.value;
      PathIsParentChain(m, p);
      assert IsCycle(m, p);
      AcyclicHasNoCycle(m, p);
      assert false;
    }
  }

  /** The subtree of a stored node is exactly the stored nodes whose walk up passes through it. */
  lemma {:induction false} SubtreeIsDescendants(m: map<Id, Node>, n: Id, x: Id)
    requires Consistent(m) && n in m && x in m
    ensures Ends(m, x)
    ensures x in Subtree(m, n) <==> n in Ancestors(m, x)
    decreases |Ancestors(m, x)|
  {
    AncestorsUnfold(m, x);
    if x in Subtree(m, n) {
      var p :| IsPath(m, p) && p[0] == n && p[|p| - 1] == x;
      AncestorsAlongPath(m, p);
    } else if n in Ancestors(m, x) {
      if x != n {
        var q := m[x].parentId.value;
        AncestorsUnfold(m, q);
        AncestorsInMap(m, x);
        assert q in m;
        SubtreeIsDescendants(m, n, q);
        ReachableStep(m, n, q, x);
        assert false;
      } else {
        ReachableRefl(m, n);
        assert false;
      }
    }
  }

  lemma {:induction false} AncestorsAlongPath(m: map<Id, Node>, p: seq<Id>)
    requires Consistent(m) && IsPath(m, p) && p[0] in m
    ensures Ends(m, p[|p| - 1]) && p[0] in Ancestors(m, p[|p| - 1])
    decreases |p|
  {
    var x := p[|p| - 1];
    if |p| == 1 {
      AcyclicEnds(m, x);
      AncestorsUnfold(m, x);
    } else {
      var q := p[|p| - 2];
      assert IsPath(m, p[..|p| - 1]);
      AncestorsAlongPath(m, p[..|p| - 1]);
      AcyclicEnds(m, x);
      AncestorsUnfold(m, x);
    }
  }

  /**
   * The mind map renders a page's root at depth 0 and each child one level
   * deeper than its parent; along any path down from a root that depth is
   * what `getNodeDepth` computes.
   */
  lemma {:induction false} RenderDepthIsNodeDepth(m: map<Id, Node>, p: seq<Id>)
    requires Consistent(m) && IsPath(m, p) && p[0] in m && m[p[0]].isRoot
    ensures Ends(m, p[|p| - 1])
    ensures Depth(m, p[|p| - 1]) == |p| - 1
    decreases |p|
  {
    var x := p[|p| - 1];
    AcyclicEnds(m, x);
    DepthUnfold(m, x);
    if |p| > 1 {
      assert IsPath(m, p[..|p| - 1]);
      RenderDepthIsNodeDepth(m, p[..|p| - 1]);
    }
  }
}

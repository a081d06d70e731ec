/**
 * The loops of the editor that walk the map: `getNodeDepth`,
 * `findPageIdForNode` and the ancestry check of `onDrop` follow `parentId`
 * links upwards; the `collect` helper of `deleteNode` fills a visited set
 * downwards through `children`. Each is proved against its specification
 * function, and the specification functions' properties are lemmas here.
 */
module Walks {
  import opened Nodes
  import opened Chains
  import opened Tree
  import opened Pages
  import opened Edits
  import opened Shape

  // ---------------------------------------------------------------- depth

  /** `getNodeDepth`: count parent hops until a root, a node without parent or a missing id. */
  method GetNodeDepth(m: map<Id, Node>, k: Id) returns (d: nat)
    requires Acyclic(m)
    ensures Ends(m, k) && d == Depth(m, k)
  {
    AcyclicEnds(m, k);
    d := 0;
    var cur := k;
    while cur in m && m[cur].parentId.Some? && !m[cur].isRoot
      invariant Ends(m, cur)
      invariant d + Depth(m, cur) == Depth(m, k)
      decreases |Ancestors(m, cur)|
    {
      DepthUnfold(m, cur);
      AncestorsUnfold(m, cur);
      d := d + 1;
      cur := m[cur].parentId.value;
    }
    DepthUnfold(m, cur);
  }

  /** An unknown id and a root both have depth 0; a child of a root has depth 1. */
  lemma DepthAtTop(m: map<Id, Node>, k: Id)
    requires Consistent(m)
    ensures Ends(m, k)
    ensures k !in m || m[k].isRoot ==> Depth(m, k) == 0
    ensures HasStoredParent(m, k) && m[m[k].parentId.value].isRoot ==> Depth(m, k) == 1
  {
    AcyclicEnds(m, k);
    DepthUnfold(m, k);
    if HasStoredParent(m, k) {
      DepthUnfold(m, m[k].parentId.value);
    }
  }

  /** A planner task sits directly under the hidden parent, which has no record: depth 1. */
  lemma PlannerTaskDepth(m: map<Id, Node>, k: Id)
    requires Consistent(m) && k in m && m[k].parentId == Some(PLANNER_HIDDEN_ROOT)
    ensures Ends(m, k) && Depth(m, k) == 1
  {
    AcyclicEnds(m, k);
    DepthUnfold(m, k);
    DepthUnfold(m, PLANNER_HIDDEN_ROOT);
  }

  // ---------------------------------------------------------------- headings

  /** The panel offers the heading switch only off the root and at most two levels down. */
  predicate CanBeHeading(n: Node, depth: nat) {
    !n.isRoot && depth <= 2
  }

  /** The mind map draws a node as a heading only when it is flagged and the same gate holds. */
  predicate ShowsAsHeading(n: Node, depth: nat) {
    n.isHeading && CanBeHeading(n, depth)
  }

  /** What the heading switch installs: the flag flipped. */
  function HeadingToggled(m: map<Id, Node>, k: Id): map<Id, Node>
    requires k in m
  {
    WithData(m, k, NoChange.(isHeading := Some(!m[k].isHeading)))
  }

  /**
   * The switch the panel offers, at the depth `getNodeDepth` reports, turns
   * the heading look on or off for the node as the mind map draws it at
   * the depth it renders it at; the map the tree hangs in is unchanged
   * otherwise.
   */
  lemma HeadingSwitchShows(m: map<Id, Node>, p: seq<Id>)
    requires Consistent(m) && IsPath(m, p) && p[0] in m && m[p[0]].isRoot
    requires p[|p| - 1] in m && CanBeHeading(m[p[|p| - 1]], Depth(m, p[|p| - 1]))
    ensures
      var k := p[|p| - 1];
      var r := HeadingToggled(m, k);
      r.Keys == m.Keys && k in r &&
      ShowsAsHeading(r[k], |p| - 1) == !m[k].isHeading &&
      r[k].children == m[k].children && r[k].parentId == m[k].parentId
  {
    RenderDepthIsNodeDepth(m, p);
  }

  /**
   * Nothing keeps a heading at most two levels down: dropping it onto a
   * target two or more levels down puts it one level below the target, where
   * the flag stays set but the mind map no longer draws it as a heading.
   */
  lemma DropHidesHeading(m: map<Id, Node>, d: Id, t: Id)
    requires Consistent(m) && d in m && t in m && !m[d].isRoot && m[d].isHeading
    requires Ends(m, t) && !DropRefused(m, d, t) && Depth(m, t) >= 2
    ensures Consistent(Dropped(m, d, t)) && d in Dropped(m, d, t) && Ends(Dropped(m, d, t), d)
    ensures Dropped(m, d, t)[d].isHeading
    ensures Depth(Dropped(m, d, t), d) == Depth(m, t) + 1
    ensures !ShowsAsHeading(Dropped(m, d, t)[d], Depth(Dropped(m, d, t), d))
  {
    DroppedKeepsShape(m, d, t);
    var r := Reparented(m, d, t);
    assert Dropped(m, d, t) == r;
    ReparentedLinks(m, d, t);
    DepthUnderTarget(m, r, d, t);
  }

  /** A drop rewires only the dragged node: every other parent link and every root flag stays. */
  lemma ReparentedLinks(m: map<Id, Node>, d: Id, t: Id)
    requires d in m && t in m
    ensures d in Reparented(m, d, t) && Reparented(m, d, t)[d] == m[d].(parentId := Some(t))
    ensures forall j :: j != d ==> Up(Reparented(m, d, t), j) == Up(m, j)
    ensures forall j :: j in m ==> j in Reparented(m, d, t) && Reparented(m, d, t)[j].isRoot == m[j].isRoot
  {
  }

  /** A node pointed at a target whose walk never visits it sits one level below the target. */
  lemma DepthUnderTarget(m: map<Id, Node>, r: map<Id, Node>, d: Id, t: Id)
    requires Ends(m, t) && d in m && d != t && d !in Ancestors(m, t)
    requires Acyclic(r) && d in r && r[d].parentId == Some(t) && !r[d].isRoot
    requires forall j :: j != d ==> Up(r, j) == Up(m, j)
    requires forall j :: j in m ==> j in r && r[j].isRoot == m[j].isRoot
    ensures Ends(r, d) && Depth(r, d) == Depth(m, t) + 1
  {
    AcyclicEnds(r, d);
    AcyclicEnds(r, t);
    DepthUnfold(r, d);
    var n: nat :| EndsWithin(m, t, n);
    AncestorsAt(m, t, n);
    AvoidsFromChain(m, t, d, n);
    DepthAvoids(m, r, d, t, n);
  }

  // ---------------------------------------------------------------- page of a node

  /** What `findPageIdForNode` returns: the page of the root at the top of the walk, if the walk ends at a root. */
  ghost function PageOfNode(m: map<Id, Node>, pages: seq<Page>, k: Id): Option<Id>
    requires Ends(m, k)
  {
    match Top(m, k)
    case None => None
    case Some(t) => if t in m && m[t].isRoot then PageOfRoot(pages, m[t].id) else None
  }

  /** `findPageIdForNode`: walk to a node without parent, then look its page up if it is a root. */
  method FindPageIdForNode(m: map<Id, Node>, pages: seq<Page>, k: Id) returns (r: Option<Id>)
    requires Acyclic(m)
    ensures Ends(m, k) && r == PageOfNode(m, pages, k)
  {
    AcyclicEnds(m, k);
    var cur := k;
    while cur in m && m[cur].parentId.Some?
      invariant Ends(m, cur) && Top(m, cur) == Top(m, k)
      decreases |Ancestors(m, cur)|
    {
      TopUnfold(m, cur);
      AncestorsUnfold(m, cur);
      cur := m[cur].parentId.value;
    }
    TopUnfold(m, cur);
    if cur in m && m[cur].isRoot {
      r := PageOfRoot(pages, m[cur].id);
    } else {
      r := None;
    }
  }

  lemma {:induction false} TopAlongPath(m: map<Id, Node>, p: seq<Id>)
    requires Consistent(m) && IsPath(m, p) && p[0] in m && m[p[0]].parentId.None?
    ensures Ends(m, p[|p| - 1]) && Top(m, p[|p| - 1]) == Some(p[0])
    decreases |p|
  {
    var x := p[|p| - 1];
    AcyclicEnds(m, x);
    TopUnfold(m, x);
    if |p| > 1 {
      assert IsPath(m, p[..|p| - 1]);
      TopAlongPath(m, p[..|p| - 1]);
      PathIsParentChain(m, p);
    }
  }

  /** A node the mind map shows under a page's root belongs to the first page with that root. */
  lemma NodeUnderRootFindsPage(m: map<Id, Node>, pages: seq<Page>, p: seq<Id>)
    requires Consistent(m) && IsPath(m, p) && p[0] in m && m[p[0]].isRoot
    requires PageOfRoot(pages, p[0]).Some?
    ensures Ends(m, p[|p| - 1]) && PageOfNode(m, pages, p[|p| - 1]) == PageOfRoot(pages, p[0])
  {
    assert m[p[0]].parentId.None? && m[p[0]].id == p[0];
    TopAlongPath(m, p);
  }

  /** A planner task belongs to no page: its walk runs into the hidden parent, which has no record. */
  lemma PlannerTaskHasNoPage(m: map<Id, Node>, pages: seq<Page>, k: Id)
    requires Consistent(m) && k in m && m[k].parentId == Some(PLANNER_HIDDEN_ROOT)
    ensures Ends(m, k) && PageOfNode(m, pages, k) == None
  {
    AcyclicEnds(m, k);
    TopUnfold(m, k);
    TopUnfold(m, PLANNER_HIDDEN_ROOT);
  }

  // ---------------------------------------------------------------- ancestry check

  /** The check `onDrop` makes first: refuse a drop onto the dragged node itself or onto anything below it. */
  method CheckDrop(m: map<Id, Node>, d: Id, t: Id) returns (refused: bool)
    requires Acyclic(m) && KeysAreIds(m)
    ensures Ends(m, t) && refused == DropRefused(m, d, t)
  {
    AcyclicEnds(m, t);
    if d == t {
      return true;
    }
    var cur := t;
    while cur in m
      invariant Ends(m, cur)
      invariant DropRefused(m, d, t) <==> d in Ancestors(m, cur)
      decreases |Ancestors(m, cur)|
    {
      AncestorsUnfold(m, cur);
      if m[cur].id == d {
        return true;
      }
      if m[cur].parentId.None? {
        return false;
      }
      cur := m[cur].parentId.value;
    }
    AncestorsUnfold(m, cur);
    return false;
  }

  /** The check refuses exactly the targets inside the dragged node's subtree. */
  lemma RefusedIsInsideSubtree(m: map<Id, Node>, d: Id, t: Id)
    requires Consistent(m) && d in m && t in m
    ensures Ends(m, t)
    ensures DropRefused(m, d, t) <==> t in Subtree(m, d)
  {
    AcyclicEnds(m, t);
    SubtreeIsDescendants(m, d, t);
    AncestorsUnfold(m, t);
  }

  // ---------------------------------------------------------------- collect

  /** Every id the walk down can meet. */
  function Universe(m: map<Id, Node>): set<Id> {
    m.Keys + AllChildren(m)
  }

  lemma FewerLeft(u: set<Id>, v: set<Id>, w: set<Id>, x: Id)
    requires v <= w && x in u && x in w && x !in v
    ensures |u - w| < |u - v|
  {
    var a := u - w;
    var b := (u - v) - {x};
    assert b == a + (b - a) && a * (b - a) == {};
    assert |(u - v) - {x}| == |u - v| - 1;
  }

  /**
   * `collect(id)` of `deleteNode` on a visited set: it adds `id` and, when
   * `id` is new and stored, everything its children add; every id it adds
   * is reachable from `id`, and every stored id it adds has its children
   * in the result.
   */
  method Collect(m: map<Id, Node>, id: Id, visited: set<Id>) returns (out: set<Id>)
    requires id in Universe(m)
    ensures visited + {id} <= out
    ensures forall x :: x in out && x !in visited ==> Reachable(m, id, x)
    ensures forall y, c :: y in out && y !in visited && y in m && c in m[y].children ==> c in out
    decreases |Universe(m) - visited|
  {
    if id in visited {
      return visited;
    }
    out := visited + {id};
    ReachableRefl(m, id);
    if id in m {
      var kids := m[id].children;
      for i := 0 to |kids|
        invariant visited + {id} <= out
        invariant forall x :: x in out && x !in visited ==> Reachable(m, id, x)
        invariant forall y, c :: y in out && y !in visited && y != id && y in m && c in m[y].children ==> c in out
        invariant forall j :: 0 <= j < i ==> kids[j] in out
      {
        InAllChildren(m, id, kids[i]);
        FewerLeft(Universe(m), visited, out, id);
        var sub := Collect(m, kids[i], out);
        CollectStep(m, id, visited, out, sub, i);
        out := sub;
      }
    }
  }

  /** What one child's walk adds keeps the loop's facts and covers one more child. */
  lemma CollectStep(m: map<Id, Node>, id: Id, visited: set<Id>, out: set<Id>, sub: set<Id>, i: int)
    requires id in m && 0 <= i < |m[id].children|
    requires visited + {id} <= out
    requires forall x :: x in out && x !in visited ==> Reachable(m, id, x)
    requires forall y, c :: y in out && y !in visited && y != id && y in m && c in m[y].children ==> c in out
    requires forall j :: 0 <= j < i ==> m[id].children[j] in out
    requires out + {m[id].children[i]} <= sub
    requires forall x :: x in sub && x !in out ==> Reachable(m, m[id].children[i], x)
    requires forall y, c :: y in sub && y !in out && y in m && c in m[y].children ==> c in sub
    ensures visited + {id} <= sub
    ensures forall x :: x in sub && x !in visited ==> Reachable(m, id, x)
    ensures forall y, c :: y in sub && y !in visited && y != id && y in m && c in m[y].children ==> c in sub
    ensures forall j :: 0 <= j < i + 1 ==> m[id].children[j] in sub
  {
    var kids := m[id].children;
    forall x | x in sub && x !in visited ensures Reachable(m, id, x) {
      if x !in out {
        ReachableThrough(m, id, kids[i], x);
      }
    }
    forall j | 0 <= j < i + 1 ensures kids[j] in sub {
      if j < i {
        assert kids[j] in out;
      }
    }
  }

  /** `collect(nodeId)` from an empty set gathers exactly the subtree. */
  method CollectSubtree(m: map<Id, Node>, n: Id) returns (s: set<Id>)
    requires n in m
    ensures s == Subtree(m, n)
  {
    s := Collect(m, n, {});
    ClosedContainsSubtree(m, n, s);
    assert s <= Subtree(m, n) by {
      forall x | x in s ensures x in Subtree(m, n) {
        assert Reachable(m, n, x);
      }
    }
  }
}

/**
 * Walks up the `parentId` links of the node map. `getNodeDepth`,
 * `findPageIdForNode` and the ancestry check of `onDrop` all follow these
 * links in a `while` loop that ends only when it reaches a node without a
 * parent or an id that is not in the map; `Acyclic` says that every such
 * walk ends, and `Ancestors` lists the stored nodes a walk visits.
 */
module Chains {
  import opened Nodes

  /** One step of the walk: the parent id of a stored node, or None at a missing node or a node without parent. */
  function Up(m: map<Id, Node>, k: Id): Option<Id> {
    if k in m then m[k].parentId else None
  }

  /** The walk from `k` stops within `n` steps. */
  ghost predicate EndsWithin(m: map<Id, Node>, k: Id, n: nat)
    decreases n
  {
    Up(m, k).None? || (n > 0 && EndsWithin(m, Up(m, k).value, n - 1))
  }

  ghost predicate Ends(m: map<Id, Node>, k: Id) {
    exists n: nat :: EndsWithin(m, k, n)
  }

  /** No chain of `parentId` links goes round in a circle. */
  ghost predicate Acyclic(m: map<Id, Node>) {
    forall k :: k in m ==> Ends(m, k)
  }

  lemma AcyclicEnds(m: map<Id, Node>, k: Id)
    requires Acyclic(m)
    ensures Ends(m, k)
  {
    if k !in m {
      assert EndsWithin(m, k, 0);
    }
  }

  lemma {:induction false} EndsMono(m: map<Id, Node>, k: Id, n: nat, n': nat)
    requires EndsWithin(m, k, n) && n <= n'
    ensures EndsWithin(m, k, n')
    decreases n
  {
    if Up(m, k).Some? {
      EndsMono(m, Up(m, k).value, n - 1, n' - 1);
    }
  }

  /** The stored nodes visited by a walk from `k` cut off after `n` steps. */
  ghost function ChainWithin(m: map<Id, Node>, k: Id, n: nat): seq<Id>
    decreases n
  {
    if k !in m then []
    else if m[k].parentId.None? || n == 0 then [k]
    else [k] + ChainWithin(m, m[k].parentId.value, n - 1)
  }

  lemma {:induction false} ChainStable(m: map<Id, Node>, k: Id, n: nat, n': nat)
    requires EndsWithin(m, k, n) && n <= n'
    ensures ChainWithin(m, k, n) == ChainWithin(m, k, n')
    decreases n
  {
    if k in m && m[k].parentId.Some? {
      ChainStable(m, m[k].parentId.value, n - 1, n' - 1);
    }
  }

  /** The stored nodes a complete walk from `k` visits, `k` first. */
  ghost function Ancestors(m: map<Id, Node>, k: Id): seq<Id>
    requires Ends(m, k)
  {
    var n: nat :| EndsWithin(m, k, n);
    ChainWithin(m, k, n)
  }

  lemma AncestorsAt(m: map<Id, Node>, k: Id, n: nat)
    requires EndsWithin(m, k, n)
    ensures Ends(m, k) && Ancestors(m, k) == ChainWithin(m, k, n)
  {
    var n0: nat :| EndsWithin(m, k, n0) && Ancestors(m, k) == ChainWithin(m, k, n0);
    if n0 <= n {
      ChainStable(m, k, n0, n);
    } else {
      ChainStable(m, k, n, n0);
    }
  }

  /** One step of the walk, in terms of the complete walks. */
  lemma AncestorsUnfold(m: map<Id, Node>, k: Id)
    requires Ends(m, k)
    ensures k !in m ==> Ancestors(m, k) == []
    ensures k in m && m[k].parentId.None? ==> Ancestors(m, k) == [k]
    ensures k in m && m[k].parentId.Some? ==> Ends(m, m[k].parentId.value)
    ensures k in m && m[k].parentId.Some? ==>
      Ancestors(m, k) == [k] + Ancestors(m, m[k].parentId.value)
  {
    var n: nat :| EndsWithin(m, k, n);
    AncestorsAt(m, k, n);
    if k in m && m[k].parentId.Some? {
      AncestorsAt(m, m[k].parentId.value, n - 1);
    }
  }

  lemma {:induction false} ChainInMap(m: map<Id, Node>, k: Id, n: nat)
    ensures forall x :: x in ChainWithin(m, k, n) ==> x in m
    decreases n
  {
    if k in m && m[k].parentId.Some? && n > 0 {
      ChainInMap(m, m[k].parentId.value, n - 1);
    }
  }

  lemma AncestorsInMap(m: map<Id, Node>, k: Id)
    requires Ends(m, k)
    ensures forall x :: x in Ancestors(m, k) ==> x in m
  {
    var n: nat :| EndsWithin(m, k, n);
    AncestorsAt(m, k, n);
    ChainInMap(m, k, n);
  }

  /** `getNodeDepth` along a list of visited nodes: steps taken before a root, a node without parent or a missing node. */
  function DepthAlong(m: map<Id, Node>, a: seq<Id>): nat {
    if a == [] || a[0] !in m || m[a[0]].isRoot || m[a[0]].parentId.None? then 0
    else 1 + DepthAlong(m, a[1..])
  }

  /** The number `getNodeDepth` computes for `k`. */
  ghost function Depth(m: map<Id, Node>, k: Id): nat
    requires Ends(m, k)
  {
    DepthAlong(m, Ancestors(m, k))
  }

  /** The depth of a node is 0 at a root, a node without parent or an unknown id, and one more than its parent's otherwise. */
  lemma DepthUnfold(m: map<Id, Node>, k: Id)
    requires Ends(m, k)
    ensures k in m && m[k].parentId.Some? ==> Ends(m, m[k].parentId.value)
    ensures Depth(m, k) ==
      if k !in m || m[k].isRoot || m[k].parentId.None? then 0
      else 1 + Depth(m, m[k].parentId.value)
  {
    AncestorsUnfold(m, k);
    if k in m && m[k].parentId.Some? {
      assert ([k] + Ancestors(m, m[k].parentId.value))[1..] == Ancestors(m, m[k].parentId.value);
    }
  }

  /** The node a walk stops at when that node has no parent; None when the walk runs into a missing id. */
  function TopAlong(m: map<Id, Node>, a: seq<Id>): Option<Id> {
    if a == [] then None
    else
      var t := a[|a| - 1];
      if t in m && m[t].parentId.None? then Some(t) else None
  }

  ghost function Top(m: map<Id, Node>, k: Id): Option<Id>
    requires Ends(m, k)
  {
    TopAlong(m, Ancestors(m, k))
  }

  lemma TopUnfold(m: map<Id, Node>, k: Id)
    requires Ends(m, k)
    ensures k in m && m[k].parentId.Some? ==> Ends(m, m[k].parentId.value)
    ensures Top(m, k) ==
      if k !in m then None
      else if m[k].parentId.None? then Some(k)
      else Top(m, m[k].parentId.value)
  {
    AncestorsUnfold(m, k);
  }

  /** The walk from `k` stops within `n` steps without visiting `x`. */
  ghost predicate AvoidsWithin(m: map<Id, Node>, k: Id, x: Id, n: nat)
    decreases n
  {
    k != x && (Up(m, k).None? || (n > 0 && AvoidsWithin(m, Up(m, k).value, x, n - 1)))
  }

  /** A walk that ends without visiting a stored `x` does not list `x`, and the other way round. */
  lemma {:induction false} AvoidsFromChain(m: map<Id, Node>, k: Id, x: Id, n: nat)
    requires EndsWithin(m, k, n) && x in m && x !in ChainWithin(m, k, n)
    ensures AvoidsWithin(m, k, x, n)
    decreases n
  {
    if k in m && m[k].parentId.Some? {
      AvoidsFromChain(m, m[k].parentId.value, x, n - 1);
    }
  }

  /** Nothing points at `x`, so no walk that starts elsewhere visits it. */
  lemma {:induction false} AvoidsUnreferenced(m: map<Id, Node>, k: Id, x: Id, n: nat)
    requires EndsWithin(m, k, n) && k != x
    requires forall j :: Up(m, j) != Some(x)
    ensures AvoidsWithin(m, k, x, n)
    decreases n
  {
    if Up(m, k).Some? {
      AvoidsUnreferenced(m, Up(m, k).value, x, n - 1);
    }
  }

  /** Walks survive an edit that keeps or drops each parent link. */
  lemma {:induction false} EndsWeaken(m: map<Id, Node>, m': map<Id, Node>, k: Id, n: nat)
    requires forall j :: Up(m', j) == Up(m, j) || Up(m', j).None?
    requires EndsWithin(m, k, n)
    ensures EndsWithin(m', k, n)
    decreases n
  {
    if Up(m', k).Some? {
      EndsWeaken(m, m', Up(m, k).value, n - 1);
    }
  }

  lemma AcyclicWeaken(m: map<Id, Node>, m': map<Id, Node>)
    requires Acyclic(m)
    requires forall j :: Up(m', j) == Up(m, j) || Up(m', j).None?
    ensures Acyclic(m')
  {
    forall k | k in m' ensures Ends(m', k) {
      AcyclicEnds(m, k);
      var n: nat :| EndsWithin(m, k, n);
      EndsWeaken(m, m', k, n);
    }
  }

  lemma {:induction false} AvoidsTransfer(m: map<Id, Node>, m': map<Id, Node>, x: Id, t: Id, n: nat)
    requires forall j :: j != x ==> Up(m', j) == Up(m, j)
    requires AvoidsWithin(m, t, x, n)
    ensures EndsWithin(m', t, n)
    decreases n
  {
    if Up(m, t).Some? {
      AvoidsTransfer(m, m', x, Up(m, t).value, n - 1);
    }
  }

  /** A walk that never visits `x` counts the same depth after an edit that changes no other parent link or root flag. */
  lemma {:induction false} DepthAvoids(m: map<Id, Node>, m': map<Id, Node>, x: Id, k: Id, n: nat)
    requires forall j :: j != x ==> Up(m', j) == Up(m, j)
    requires forall j :: j != x && j in m && j in m' ==> m'[j].isRoot == m[j].isRoot
    requires AvoidsWithin(m, k, x, n) && Ends(m, k) && Ends(m', k)
    ensures Depth(m', k) == Depth(m, k)
    decreases n
  {
    DepthUnfold(m, k);
    DepthUnfold(m', k);
    if Up(m, k).Some? {
      DepthAvoids(m, m', x, Up(m, k).value, n - 1);
    }
  }

  /** Walks survive pointing one node `x` at a node `t` whose own walk never visits `x`. */
  lemma {:induction false} EndsRedirect(m: map<Id, Node>, m': map<Id, Node>, x: Id, t: Id, mt: nat, k: Id, n: nat)
    requires forall j :: j != x ==> Up(m', j) == Up(m, j)
    requires Up(m', x) == Some(t)
    requires AvoidsWithin(m, t, x, mt)
    requires EndsWithin(m, k, n)
    ensures EndsWithin(m', k, n + mt + 1)
    decreases n
  {
    if k == x {
      AvoidsTransfer(m, m', x, t, mt);
      EndsMono(m', t, mt, n + mt);
    } else if Up(m, k).Some? {
      EndsRedirect(m, m', x, t, mt, Up(m, k).value, n - 1);
    }
  }

  lemma AcyclicRedirect(m: map<Id, Node>, m': map<Id, Node>, x: Id, t: Id, mt: nat)
    requires Acyclic(m)
    requires forall j :: j != x ==> Up(m', j) == Up(m, j)
    requires Up(m', x) == Some(t)
    requires AvoidsWithin(m, t, x, mt)
    ensures Acyclic(m')
  {
    forall k | k in m' ensures Ends(m', k) {
      AcyclicEnds(m, k);
      var n: nat :| EndsWithin(m, k, n);
      EndsRedirect(m, m', x, t, mt, k, n);
    }
  }

  /** Walks survive pointing `x` at its grandparent. */
  lemma {:induction false} EndsShortcut(m: map<Id, Node>, m': map<Id, Node>, x: Id, k: Id, n: nat)
    requires forall j :: j != x ==> Up(m', j) == Up(m, j)
    requires Up(m, x).Some? && Up(m', x) == Up(m, Up(m, x).value)
    requires EndsWithin(m, k, n)
    ensures EndsWithin(m', k, n)
    decreases n
  {
    if k == x {
      var p := Up(m, x).value;
      if Up(m, p).Some? {
        var g := Up(m, p).value;
        EndsShortcut(m, m', x, g, n - 2);
        EndsMono(m', g, n - 2, n - 1);
      }
    } else if Up(m, k).Some? {
      EndsShortcut(m, m', x, Up(m, k).value, n - 1);
    }
  }

  lemma AcyclicShortcut(m: map<Id, Node>, m': map<Id, Node>, x: Id)
    requires Acyclic(m)
    requires forall j :: j != x ==> Up(m', j) == Up(m, j)
    requires Up(m, x).Some? && Up(m', x) == Up(m, Up(m, x).value)
    ensures Acyclic(m')
  {
    forall k | k in m' ensures Ends(m', k) {
      AcyclicEnds(m, k);
      var n: nat :| EndsWithin(m, k, n);
      EndsShortcut(m, m', x, k, n);
    }
  }

  /** A circle of parent links: `c[i-1]` is the parent of `c[i]` and the last node is the parent of the first. */
  ghost predicate IsCycle(m: map<Id, Node>, c: seq<Id>) {
    |c| >= 1 && Up(m, c[0]) == Some(c[|c| - 1]) &&
    forall i :: 0 < i < |c| ==> Up(m, c[i]) == Some(c[i - 1])
  }

  lemma {:induction false} CycleNeverEnds(m: map<Id, Node>, c: seq<Id>, n: nat)
    requires IsCycle(m, c)
    ensures forall i :: 0 <= i < |c| ==> !EndsWithin(m, c[i], n)
    decreases n
  {
    if n > 0 {
      CycleNeverEnds(m, c, n - 1);
    }
    forall i | 0 <= i < |c| ensures !EndsWithin(m, c[i], n) {
      var prev := if i == 0 then |c| - 1 else i - 1;
      assert Up(m, c[i]) == Some(c[prev]);
    }
  }

  /** An acyclic map has no circle of parent links. */
  lemma AcyclicHasNoCycle(m: map<Id, Node>, c: seq<Id>)
    requires Acyclic(m) && |c| >= 1
    ensures !IsCycle(m, c)
  {
    if IsCycle(m, c) {
      AcyclicEnds(m, c[0]);
      var n: nat :| EndsWithin(m, c[0], n);
      CycleNeverEnds(m, c, n);
      assert false;
    }
  }
}

/**
 * The page list: each page names the root of one tree. A lookup picks
 * the first match, `updatePageTitle` renames every page with the id, and
 * `addNewPage` appends.
 */
module Pages {
  import opened Nodes

  /** The id of the first page whose root is `rid`. */
  function PageOfRoot(pages: seq<Page>, rid: Id): (r: Option<Id>)
    ensures r.None? <==> forall i :: 0 <= i < |pages| ==> pages[i].rootId != rid
    ensures r.Some? ==>
      exists i :: 0 <= i < |pages| && pages[i].rootId == rid && pages[i].id == r.value &&
        forall j :: 0 <= j < i ==> pages[j].rootId != rid
  {
    if |pages| == 0 then None
    else if pages[0].rootId == rid then Some(pages[0].id)
    else
      var r := PageOfRoot(pages[1..], rid);
      assert forall i :: 1 <= i < |pages| ==> pages[i] == pages[1..][i - 1];
      r
  }

  /** The root of the first page with id `pid`: the tree the mind map shows. */
  function RootOfPage(pages: seq<Page>, pid: Id): (r: Option<Id>)
    ensures r.None? <==> forall i :: 0 <= i < |pages| ==> pages[i].id != pid
    ensures r.Some? ==>
      exists i :: 0 <= i < |pages| && pages[i].id == pid && pages[i].rootId == r.value &&
        forall j :: 0 <= j < i ==> pages[j].id != pid
  {
    if |pages| == 0 then None
    else if pages[0].id == pid then Some(pages[0].rootId)
    else
      var r := RootOfPage(pages[1..], pid);
      assert forall i :: 1 <= i < |pages| ==> pages[i] == pages[1..][i - 1];
      r
  }

  /** `updatePageTitle`: every page with the given id gets the new title. */
  function Retitled(pages: seq<Page>, pid: Id, title: string): (r: seq<Page>)
    ensures |r| == |pages|
    ensures forall i :: 0 <= i < |pages| ==>
      r[i].id == pages[i].id && r[i].rootId == pages[i].rootId &&
      r[i].title == (if pages[i].id == pid then title else pages[i].title)
  {
    if |pages| == 0 then []
    else
      var p := pages[0];
      [if p.id == pid then p.(title := title) else p] + Retitled(pages[1..], pid, title)
  }

  /** Renaming a page changes neither which page a tree belongs to nor which tree a page shows. */
  lemma {:induction false} RetitledKeepsLookups(pages: seq<Page>, pid: Id, title: string, rid: Id, q: Id)
    ensures PageOfRoot(Retitled(pages, pid, title), rid) == PageOfRoot(pages, rid)
    ensures RootOfPage(Retitled(pages, pid, title), q) == RootOfPage(pages, q)
  {
    if |pages| > 0 {
      var r := Retitled(pages, pid, title);
      assert r[1..] == Retitled(pages[1..], pid, title);
      RetitledKeepsLookups(pages[1..], pid, title, rid, q);
    }
  }

  /** The page `addNewPage` appends. */
  function NewPage(pid: Id, rid: Id): Page {
    Page(pid, "新项目", rid)
  }

  /** A lookup in a concatenation finds the first list's match first. */
  lemma LookupsInConcat(a: seq<Page>, b: seq<Page>, rid: Id, q: Id)
    ensures PageOfRoot(a + b, rid) == if PageOfRoot(a, rid).Some? then PageOfRoot(a, rid) else PageOfRoot(b, rid)
    ensures RootOfPage(a + b, q) == if RootOfPage(a, q).Some? then RootOfPage(a, q) else RootOfPage(b, q)
  {
    PageLookupInConcat(a, b, rid);
    RootLookupInConcat(a, b, q);
  }

  lemma {:induction false} PageLookupInConcat(a: seq<Page>, b: seq<Page>, rid: Id)
    ensures PageOfRoot(a + b, rid) == if PageOfRoot(a, rid).Some? then PageOfRoot(a, rid) else PageOfRoot(b, rid)
  {
    if |a| > 0 {
      assert (a + b)[1..] == a[1..] + b;
      PageLookupInConcat(a[1..], b, rid);
    } else {
      assert a + b == b;
    }
  }

  lemma {:induction false} RootLookupInConcat(a: seq<Page>, b: seq<Page>, q: Id)
    ensures RootOfPage(a + b, q) == if RootOfPage(a, q).Some? then RootOfPage(a, q) else RootOfPage(b, q)
  {
    if |a| > 0 {
      assert (a + b)[1..] == a[1..] + b;
      RootLookupInConcat(a[1..], b, q);
    } else {
      assert a + b == b;
    }
  }

  /** After `addNewPage` with fresh ids, the new page is the one its root belongs to and it shows that root. */
  lemma NewPageFound(pages: seq<Page>, pid: Id, rid: Id)
    requires forall i :: 0 <= i < |pages| ==> pages[i].id != pid && pages[i].rootId != rid
    ensures PageOfRoot(pages + [NewPage(pid, rid)], rid) == Some(pid)
    ensures RootOfPage(pages + [NewPage(pid, rid)], pid) == Some(rid)
  {
    LookupsInConcat(pages, [NewPage(pid, rid)], rid, pid);
  }

  /** Appending a page leaves every lookup that already succeeded alone. */
  lemma AppendKeepsLookups(pages: seq<Page>, pg: Page, rid: Id, q: Id)
    ensures PageOfRoot(pages, rid).Some? ==> PageOfRoot(pages + [pg], rid) == PageOfRoot(pages, rid)
    ensures RootOfPage(pages, q).Some? ==> RootOfPage(pages + [pg], q) == RootOfPage(pages, q)
  {
    LookupsInConcat(pages, [pg], rid, q);
  }
}

/**
 * The bounded undo stack of whole-map snapshots: `setNodesWithHistory`
 * keeps the last 20 snapshots and appends the map it is about to replace;
 * `handleUndo` restores the newest snapshot and pops it.
 */
module History {

  /** The most snapshots the stack keeps before appending a new one. */
  const KEPT: nat := 20

  /** Keep at most the newest `KEPT` snapshots of `h`, then add `s` on top. */
  function Push<T>(h: seq<T>, s: T): (r: seq<T>)
    ensures |r| <= KEPT + 1
    ensures |r| == (if |h| > KEPT then KEPT else |h|) + 1
    ensures r[|r| - 1] == s
    ensures r[..|r| - 1] == h[|h| - (|r| - 1)..]
  {
    var kept := if |h| > KEPT then h[|h| - KEPT..] else h;
    assert (kept + [s])[..|kept|] == kept;
    kept + [s]
  }

  /** While the stack holds at most 20 snapshots, a push forgets nothing. */
  lemma PushKeepsShortHistory<T>(h: seq<T>, s: T)
    requires |h| <= KEPT
    ensures Push(h, s) == h + [s]
  {
  }

  /** On a full stack a push forgets exactly the oldest snapshot. */
  lemma PushDropsOldest<T>(h: seq<T>, s: T)
    requires |h| == KEPT + 1
    ensures Push(h, s) == h[1..] + [s]
  {
  }

  /** What `handleUndo` leaves: the current map and stack on an empty stack, else the newest snapshot and the rest. */
  function Undone<T>(cur: T, h: seq<T>): (r: (T, seq<T>))
    ensures |h| == 0 ==> r == (cur, h)
    ensures |h| > 0 ==> r.0 == h[|h| - 1] && r.1 + [r.0] == h
  {
    if |h| == 0 then (cur, h) else (h[|h| - 1], h[..|h| - 1])
  }

  /** Undoing right after a recorded edit restores the map before the edit, and, below the bound, the stack too. */
  lemma UndoAfterPush<T>(before: T, after: T, h: seq<T>)
    ensures Undone(after, Push(h, before)).0 == before
    ensures |h| <= KEPT ==> Undone(after, Push(h, before)).1 == h
  {
    if |h| <= KEPT {
      PushKeepsShortHistory(h, before);
      assert (h + [before])[..|h|] == h;
    }
  }
}

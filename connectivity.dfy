/**
 * What the engine's connectivity evaluation computes, stated on a snapshot
 * of the map: a cell is connected exactly when a walk of hops whose facing
 * connector flags are both set leads to it from the start cell.
 */
module Connectivity {
  import opened Common
  import opened Cells

  /** A snapshot of Engine.Map: `g[i][j]` is the cell at Map[i, j]. */
  type Grid = seq<seq<Cell>>

  predicate InGrid(g: Grid, p: Pos)
  {
    0 <= p.i < |g| && 0 <= p.j < |g[p.i]|
  }

  function At(g: Grid, p: Pos): Cell
    requires InGrid(g, p)
  {
    g[p.i][p.j]
  }

  /**
   * The hop from `p` toward `d` that Engine.Connect crosses: both ends lie in
   * the grid, `p` has its flag toward `d` and the neighbour has the flag facing back.
   */
  ghost predicate Edge(g: Grid, p: Pos, d: Direction)
  {
    d != Any && InGrid(g, p) && InGrid(g, Step(p, d)) &&
    ResolveDirection(At(g, p), d) && ResolveDirection(At(g, Step(p, d)), Opposite(d))
  }

  ghost predicate Linked(g: Grid, p: Pos, q: Pos)
  {
    exists d :: Edge(g, p, d) && q == Step(p, d)
  }

  /** A non-empty sequence of cells, each hop between consecutive ones an `Edge`. */
  ghost predicate IsWalk(g: Grid, path: seq<Pos>)
  {
    |path| >= 1 && InGrid(g, path[0]) &&
    forall k :: 0 <= k < |path| - 1 ==> Linked(g, path[k], path[k + 1])
  }

  ghost predicate Reachable(g: Grid, s: Pos, c: Pos)
  {
    exists path :: IsWalk(g, path) && path[0] == s && path[|path| - 1] == c
  }

  /** Every connected cell passes the mark on across each of its edges. */
  ghost predicate Closed(g: Grid)
  {
    forall p, d :: Edge(g, p, d) && At(g, p).connected ==> At(g, Step(p, d)).connected
  }

  /** Two snapshots of the same shape whose cells agree on the four connector flags. */
  ghost predicate SameShape(g1: Grid, g2: Grid)
  {
    |g1| == |g2| &&
    (forall i :: 0 <= i < |g1| ==> |g1[i]| == |g2[i]|) &&
    forall p :: InGrid(g1, p) ==> SameFlags(At(g1, p), At(g2, p))
  }

  lemma ReachableStart(g: Grid, s: Pos)
    requires InGrid(g, s)
    ensures Reachable(g, s, s)
  {
    assert IsWalk(g, [s]);
  }

  lemma WalkInGrid(g: Grid, path: seq<Pos>, k: int)
    requires IsWalk(g, path) && 0 <= k < |path|
    ensures InGrid(g, path[k])
  {
    if k > 0 {
      assert Linked(g, path[k - 1], path[k]);
    }
  }

  /** Reachability is closed under one more hop. */
  lemma ReachableStep(g: Grid, s: Pos, p: Pos, d: Direction)
    requires Reachable(g, s, p) && Edge(g, p, d)
    ensures Reachable(g, s, Step(p, d))
  {
    var path :| IsWalk(g, path) && path[0] == s && path[|path| - 1] == p;
    var longer := path + [Step(p, d)];
    assert Linked(g, longer[|path| - 1], longer[|path|]);
    assert IsWalk(g, longer);
  }

  lemma {:induction false} WalkStaysConnected(g: Grid, path: seq<Pos>, k: nat)
    requires Closed(g) && IsWalk(g, path) && At(g, path[0]).connected
    requires k < |path|
    ensures InGrid(g, path[k]) && At(g, path[k]).connected
  {
    WalkInGrid(g, path, k);
    if k > 0 {
      WalkStaysConnected(g, path, k - 1);
      assert Linked(g, path[k - 1], path[k]);
      var d :| Edge(g, path[k - 1], d) && path[k] == Step(path[k - 1], d);
    }
  }

  /** A closed set of connected cells that holds the start holds every reachable cell. */
  lemma ClosedHoldsReachable(g: Grid, s: Pos, c: Pos)
    requires Closed(g) && InGrid(g, s) && At(g, s).connected
    requires Reachable(g, s, c)
    ensures InGrid(g, c) && At(g, c).connected
  {
    var path :| IsWalk(g, path) && path[0] == s && path[|path| - 1] == c;
    WalkInGrid(g, path, |path| - 1);
    WalkStaysConnected(g, path, |path| - 1);
  }

  lemma WalkSameShape(g1: Grid, g2: Grid, path: seq<Pos>)
    requires SameShape(g1, g2) && IsWalk(g1, path)
    ensures IsWalk(g2, path)
  {
    forall k | 0 <= k < |path| - 1
      ensures Linked(g2, path[k], path[k + 1])
    {
      assert Linked(g1, path[k], path[k + 1]);
      var d :| Edge(g1, path[k], d) && path[k + 1] == Step(path[k], d);
      assert Edge(g2, path[k], d);
    }
  }

  /**
   * Reachability reads nothing but the connector flags: `connected` and
   * `locked` never change which cells the evaluation reaches.
   */
  lemma ReachableFlagsOnly(g1: Grid, g2: Grid, s: Pos, c: Pos)
    requires SameShape(g1, g2)
    ensures Reachable(g1, s, c) <==> Reachable(g2, s, c)
  {
    assert SameShape(g2, g1);
    if Reachable(g1, s, c) {
      var path :| IsWalk(g1, path) && path[0] == s && path[|path| - 1] == c;
      WalkSameShape(g1, g2, path);
    }
    if Reachable(g2, s, c) {
      var path :| IsWalk(g2, path) && path[0] == s && path[|path| - 1] == c;
      WalkSameShape(g2, g1, path);
    }
  }

  /** A cell other than the start is reached only through a connector flag of its own. */
  lemma ReachedCellHasFlag(g: Grid, s: Pos, c: Pos)
    requires Reachable(g, s, c) && c != s
    ensures InGrid(g, c) && FlagCount(At(g, c)) > 0
  {
    var path :| IsWalk(g, path) && path[0] == s && path[|path| - 1] == c;
    var n := |path|;
    assert Linked(g, path[n - 2], path[n - 1]);
    var d :| Edge(g, path[n - 2], d) && c == Step(path[n - 2], d);
    assert ResolveDirection(At(g, c), Opposite(d));
  }

  /**
   * The outcome of the connectivity evaluation on a snapshot: a cell is
   * marked connected exactly when it is reachable from `s`.
   */
  ghost predicate MarksReachable(g: Grid, s: Pos)
  {
    forall p :: InGrid(g, p) ==> (At(g, p).connected <==> Reachable(g, s, p))
  }

  /** The start cell is always marked, whatever its own flags. */
  lemma StartMarked(g: Grid, s: Pos)
    requires MarksReachable(g, s) && InGrid(g, s)
    ensures At(g, s).connected
  {
    ReachableStart(g, s);
  }

  /** A marked cell other than the start has at least one connector flag set. */
  lemma MarkedCellHasFlag(g: Grid, s: Pos, p: Pos)
    requires MarksReachable(g, s) && InGrid(g, p) && p != s
    ensures At(g, p).connected ==> FlagCount(At(g, p)) > 0
  {
    if At(g, p).connected {
      ReachedCellHasFlag(g, s, p);
    }
  }

  /**
   * The marks are determined by the connector flags alone: two snapshots
   * with the same flags (whatever their locks or earlier marks) that both
   * satisfy MarksReachable carry the same marks. So the evaluation does not
   * depend on visiting order, locks or previous marks, and running it twice
   * changes nothing.
   */
  lemma MarksDetermined(g1: Grid, g2: Grid, s: Pos)
    requires SameShape(g1, g2) && MarksReachable(g1, s) && MarksReachable(g2, s)
    ensures forall p :: InGrid(g1, p) ==> At(g1, p).connected == At(g2, p).connected
  {
    forall p | InGrid(g1, p)
      ensures At(g1, p).connected == At(g2, p).connected
    {
      ReachableFlagsOnly(g1, g2, s, p);
    }
  }
}

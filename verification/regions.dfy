/** Closed regions of the grid, and the walks that cannot leave them. */
module Regions {
  import opened Grid

  /** The cells `S` can step into are all in `S`. */
  ghost predicate Closed(grid: Grid, s: set<Cell>)
    requires WellFormed(grid)
  {
    forall v, k :: v in s && 0 <= k < MoveCount() && Free(grid, Neighbour(v, k)) ==> Neighbour(v, k) in s
  }

  /** A walk that starts inside a closed region never leaves it. */
  lemma {:induction false} WalkStaysInClosedRegion(grid: Grid, s: set<Cell>, p: seq<Cell>)
    requires WellFormed(grid)
    requires Closed(grid, s)
    requires |p| > 0 && p[0] in s && Steps(grid, p)
    ensures forall i :: 0 <= i < |p| ==> p[i] in s
    decreases |p|
  {
    if |p| > 1 {
      var q := p[..|p| - 1];
      assert Steps(grid, q) by {
        forall i | 0 < i < |q| ensures Adjacent(q[i - 1], q[i]) && Free(grid, q[i]) {
          assert q[i - 1] == p[i - 1] && q[i] == p[i];
        }
      }
      WalkStaysInClosedRegion(grid, s, q);
      var last := p[|p| - 1];
      assert p[|p| - 2] == q[|q| - 1];
      assert Adjacent(p[|p| - 2], last) && Free(grid, last);
      AdjacentIsNeighbour(p[|p| - 2], last);
      var k :| 0 <= k < MoveCount() && last == Neighbour(p[|p| - 2], k);
      assert forall i :: 0 <= i < |p| - 1 ==> p[i] == q[i];
    }
  }

  /** No walk leads out of a closed region: what the exhausted frontier
      proves when the search returns `None`. */
  lemma ClosedRegionUnreachable(grid: Grid, s: set<Cell>, a: Cell, b: Cell)
    requires WellFormed(grid)
    requires Closed(grid, s) && a in s && b !in s
    ensures !Reachable(grid, a, b)
  {
    if Reachable(grid, a, b) {
      var p :| IsWalk(grid, p, a, b);
      WalkStaysInClosedRegion(grid, s, p);
    }
  }

}

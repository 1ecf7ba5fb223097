/** Reachability in particular obstacle layouts. Together with the search's
    contract (it returns a path exactly when the goal is reachable), the
    walled goal, the blocked row and the obstacle-free grid decide whether
    the search returns a path; the gap lemma constrains the path returned. */
module Layouts {
  import opened Grid

  /** A goal whose four neighbours are all blocked or off the grid cannot
      be reached from a start that is neither the goal nor next to it. */
  lemma WalledGoalUnreachable(grid: Grid, start: Cell, goal: Cell)
    requires WellFormed(grid)
    requires forall k :: 0 <= k < MoveCount() ==> !Free(grid, Neighbour(goal, k))
    requires start != goal && !Adjacent(start, goal)
    ensures !Reachable(grid, start, goal)
  {
    if Reachable(grid, start, goal) {
      var p :| IsWalk(grid, p, start, goal);
      var m := p[|p| - 2];
      assert Adjacent(m, goal);
      if |p| > 2 {
        assert Free(grid, m);
        AdjacentIsNeighbour(goal, m);
      }
    }
  }

  /** Rows change by at most one per step, so a walk that starts above row
      `r` and ends on or below it (or the other way round) enters row `r`
      at some step. */
  lemma {:induction false} WalkCrossesRow(grid: Grid, p: seq<Cell>, r: int)
    requires WellFormed(grid)
    requires |p| > 0 && Steps(grid, p)
    requires p[0].row < r <= p[|p| - 1].row || p[|p| - 1].row <= r < p[0].row
    ensures exists i :: 0 < i < |p| && p[i].row == r
    decreases |p|
  {
    var m, last := p[|p| - 2], p[|p| - 1];
    assert Adjacent(m, last);
    if (p[0].row < r && m.row < r) || (p[0].row > r && m.row > r) {
      assert last.row == r;
    } else {
      var q := p[..|p| - 1];
      assert Steps(grid, q) by {
        forall i | 0 < i < |q| ensures Adjacent(q[i - 1], q[i]) && Free(grid, q[i]) {
          assert q[i - 1] == p[i - 1] && q[i] == p[i];
        }
      }
      WalkCrossesRow(grid, q, r);
      var i: int :| 0 < i < |q| && q[i].row == r;
      assert p[i] == q[i];
    }
  }

  /** A row blocked in every column but `gap`: every walk from one side to
      the other passes through the gap. */
  lemma GapIsCrossed(grid: Grid, p: seq<Cell>, a: Cell, b: Cell, r: int, gap: int)
    requires WellFormed(grid)
    requires 0 <= r < |grid|
    requires forall c :: 0 <= c < Cols(grid) && c != gap ==> grid[r][c] == Blocked
    requires IsWalk(grid, p, a, b)
    requires a.row < r <= b.row || b.row <= r < a.row
    ensures Cell(r, gap) in p
  {
    WalkCrossesRow(grid, p, r);
    var i: int :| 0 < i < |p| && p[i].row == r;
    assert Free(grid, p[i]);
    assert p[i] == Cell(r, gap);
  }

  /** A row blocked in every column separates the cells above it from the
      cells below it. */
  lemma BlockedRowSeparates(grid: Grid, a: Cell, b: Cell, r: int)
    requires WellFormed(grid)
    requires 0 <= r < |grid|
    requires forall c :: 0 <= c < Cols(grid) ==> grid[r][c] == Blocked
    requires a.row < r <= b.row || b.row <= r < a.row
    ensures !Reachable(grid, a, b)
  {
    if Reachable(grid, a, b) {
      var p: seq<Cell> :| IsWalk(grid, p, a, b);
      WalkCrossesRow(grid, p, r);
    }
  }

  /** The walk that moves along the rows to `b`'s row, then along the
      columns to `b`. */
  function Staircase(a: Cell, b: Cell): seq<Cell>
    decreases Heuristic(a, b)
  {
    if a == b then [a] else [a] + Staircase(StepToward(a, b), b)
  }

  /** Between two in-bounds cells of an obstacle-free grid the staircase is
      a walk of `heuristic(a, b) + 1` cells, the fewest any walk can have
      (see `WalkLengthBound`). */
  lemma {:induction false} StaircaseIsWalk(grid: Grid, a: Cell, b: Cell)
    requires WellFormed(grid) && ObstacleFree(grid)
    requires InBounds(grid, a) && InBounds(grid, b)
    ensures IsWalk(grid, Staircase(a, b), a, b)
    ensures |Staircase(a, b)| == Heuristic(a, b) + 1
    decreases Heuristic(a, b)
  {
    if a != b {
      var s := StepToward(a, b);
      StaircaseIsWalk(grid, s, b);
      var p, q := Staircase(a, b), Staircase(s, b);
      assert p == [a] + q;
      forall i | 0 < i < |p| ensures Adjacent(p[i - 1], p[i]) && Free(grid, p[i]) {
        assert p[i] == q[i - 1];
        if i > 1 {
          assert p[i - 1] == q[i - 2];
        }
      }
    }
  }

  /** In an obstacle-free grid every in-bounds goal is reachable from every
      in-bounds start. */
  lemma ObstacleFreeReachable(grid: Grid, a: Cell, b: Cell)
    requires WellFormed(grid) && ObstacleFree(grid)
    requires InBounds(grid, a) && InBounds(grid, b)
    ensures Reachable(grid, a, b)
  {
    StaircaseIsWalk(grid, a, b);
  }

}

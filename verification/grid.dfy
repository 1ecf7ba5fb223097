/** Cells, the obstacle grid, the Manhattan heuristic and 4-connected walks. */
module Grid {

  /** A grid position `(row, col)`; compared by value. */
  datatype Cell = Cell(row: int, col: int)

  /** The obstacle grid as the caller supplies it: one sequence per row,
      a cell holding 1 is blocked, any other value is free. */
  type Grid = seq<seq<int>>

  const Blocked: int := 1

  /** The search bounds columns by `len(grid[0])` and then indexes
      `grid[r][c]`, so every row must be as long as the first. An empty grid
      qualifies: the row test fails first and `grid[0]` is never read. */
  predicate WellFormed(grid: Grid)
  {
    forall i :: 0 <= i < |grid| ==> |grid[i]| == Cols(grid)
  }

  /** `len(grid[0])`, for a grid that has a first row. */
  function Cols(grid: Grid): nat
  {
    if |grid| == 0 then 0 else |grid[0]|
  }

  predicate InBounds(grid: Grid, c: Cell)
    requires WellFormed(grid)
  {
    0 <= c.row < |grid| && 0 <= c.col < Cols(grid)
  }

  /** A cell a neighbour step may enter: inside the grid and not blocked. */
  predicate Free(grid: Grid, c: Cell)
    requires WellFormed(grid)
  {
    InBounds(grid, c) && grid[c.row][c.col] != Blocked
  }

  function Abs(x: int): nat
  {
    if x < 0 then -x else x
  }

  /** Manhattan distance between two cells. */
  function Heuristic(a: Cell, b: Cell): (d: nat)
    ensures d == 0 <==> a == b
  {
    Abs(a.row - b.row) + Abs(a.col - b.col)
  }

  lemma HeuristicSymmetric(a: Cell, b: Cell)
    ensures Heuristic(a, b) == Heuristic(b, a)
  {
  }

  lemma HeuristicTriangle(a: Cell, b: Cell, c: Cell)
    ensures Heuristic(a, c) <= Heuristic(a, b) + Heuristic(b, c)
  {
  }

  /** The four moves in the order the search tries them:
      up, down, left, right. */
  function Direction(k: nat): (int, int)
    requires k < MoveCount()
  {
    if k == 0 then (-1, 0)
    else if k == 1 then (1, 0)
    else if k == 2 then (0, -1)
    else (0, 1)
  }

  /** The number of moves: up, down, left and right. */
  function MoveCount(): nat
  {
    4
  }

  function Neighbour(c: Cell, k: nat): Cell
    requires k < MoveCount()
  {
    Cell(c.row + Direction(k).0, c.col + Direction(k).1)
  }

  /** 4-connectivity: one unit apart in exactly one coordinate. */
  predicate Adjacent(a: Cell, b: Cell)
  {
    Heuristic(a, b) == 1
  }

  /** The four moves reach exactly the adjacent cells. */
  lemma AdjacentIsNeighbour(a: Cell, b: Cell)
    ensures Adjacent(a, b) <==> exists k :: 0 <= k < MoveCount() && b == Neighbour(a, k)
  {
    if Adjacent(a, b) {
      var k := if b.row < a.row then 0
               else if b.row > a.row then 1
               else if b.col < a.col then 2
               else 3;
      assert b == Neighbour(a, k);
    }
  }

  /** Every cell after the first is entered by one move into a free cell. */
  predicate Steps(grid: Grid, p: seq<Cell>)
    requires WellFormed(grid)
  {
    forall i :: 0 < i < |p| ==> Adjacent(p[i - 1], p[i]) && Free(grid, p[i])
  }

  /** A walk from `a` to `b`. The first cell is not required to be free:
      the search never tests the start cell. */
  predicate IsWalk(grid: Grid, p: seq<Cell>, a: Cell, b: Cell)
    requires WellFormed(grid)
  {
    |p| > 0 && p[0] == a && p[|p| - 1] == b && Steps(grid, p)
  }

  predicate NoRepeats(p: seq<Cell>)
  {
    forall i, j :: 0 <= i < j < |p| ==> p[i] != p[j]
  }

  /** The well-formed result the search promises: a walk without repeats. */
  predicate IsPath(grid: Grid, p: seq<Cell>, a: Cell, b: Cell)
    requires WellFormed(grid)
  {
    IsWalk(grid, p, a, b) && NoRepeats(p)
  }

  ghost predicate Reachable(grid: Grid, a: Cell, b: Cell)
    requires WellFormed(grid)
  {
    exists p :: IsWalk(grid, p, a, b)
  }

  /** A walk needs at least one step per unit of Manhattan distance. */
  lemma {:induction false} WalkLengthBound(grid: Grid, p: seq<Cell>, a: Cell, b: Cell)
    requires WellFormed(grid)
    requires IsWalk(grid, p, a, b)
    ensures |p| >= Heuristic(a, b) + 1
    decreases |p|
  {
    if |p| > 1 {
      var q := p[..|p| - 1];
      var m := p[|p| - 2];
      assert IsWalk(grid, q, a, m) by {
        forall i | 0 < i < |q|
          ensures Adjacent(q[i - 1], q[i]) && Free(grid, q[i])
        {
          assert q[i - 1] == p[i - 1] && q[i] == p[i];
        }
      }
      WalkLengthBound(grid, q, a, m);
      assert Adjacent(p[|p| - 2], p[|p| - 1]);
      HeuristicTriangle(a, m, b);
    }
  }

  /** The cells of a rows-by-cols rectangle. */
  function Rect(rows: nat, cols: nat): set<Cell>
  {
    set r, c | 0 <= r < rows && 0 <= c < cols :: Cell(r, c)
  }

  function RowCells(r: int, cols: nat): set<Cell>
  {
    set c | 0 <= c < cols :: Cell(r, c)
  }

  lemma {:induction false} RowCellsCardinality(r: int, cols: nat)
    ensures |RowCells(r, cols)| == cols
  {
    if cols > 0 {
      assert RowCells(r, cols) == RowCells(r, cols - 1) + {Cell(r, cols - 1)};
      RowCellsCardinality(r, cols - 1);
    } else {
      assert RowCells(r, cols) == {};
    }
  }

  lemma {:induction false} RectCardinality(rows: nat, cols: nat)
    ensures |Rect(rows, cols)| == rows * cols
  {
    if rows > 0 {
      var upper, last := Rect(rows - 1, cols), RowCells(rows - 1, cols);
      assert Rect(rows, cols) == upper + last by {
        forall c | c in Rect(rows, cols) ensures c in upper + last {
          if c.row < rows - 1 {
            assert c == Cell(c.row, c.col);
          }
        }
      }
      assert upper !! last;
      RectCardinality(rows - 1, cols);
      RowCellsCardinality(rows - 1, cols);
      assert (rows - 1) * cols + cols == rows * cols;
    } else {
      assert Rect(rows, cols) == {};
    }
  }

  /** All in-bounds cells of the grid. */
  function AllCells(grid: Grid): (s: set<Cell>)
    requires WellFormed(grid)
    ensures forall c :: c in s <==> InBounds(grid, c)
  {
    var s := Rect(|grid|, Cols(grid));
    assert forall c :: InBounds(grid, c) ==> c in s by {
      forall c | InBounds(grid, c) ensures c in s {
        assert c == Cell(c.row, c.col);
      }
    }
    s
  }

  lemma AllCellsCardinality(grid: Grid)
    requires WellFormed(grid)
    ensures |AllCells(grid)| == |grid| * Cols(grid)
  {
    RectCardinality(|grid|, Cols(grid));
  }

  /** No cell of the grid is blocked. */
  predicate ObstacleFree(grid: Grid)
    requires WellFormed(grid)
  {
    forall r, c :: 0 <= r < |grid| && 0 <= c < Cols(grid) ==> grid[r][c] != Blocked
  }

  /** A search instance on an obstacle-free grid with both endpoints on
      the grid. */
  predicate OpenGrid(grid: Grid, start: Cell, goal: Cell)
    requires WellFormed(grid)
  {
    ObstacleFree(grid) && InBounds(grid, start) && InBounds(grid, goal)
  }

  /** One move from `a` towards `b`: rows first, then columns. */
  function StepToward(a: Cell, b: Cell): Cell
    requires a != b
  {
    if a.row < b.row then Cell(a.row + 1, a.col)
    else if a.row > b.row then Cell(a.row - 1, a.col)
    else if a.col < b.col then Cell(a.row, a.col + 1)
    else Cell(a.row, a.col - 1)
  }

  /** The move towards `b` is a move to an adjacent cell one unit nearer
      `b`, and it stays on the grid when both ends are on it. */
  lemma StepTowardApproaches(grid: Grid, a: Cell, b: Cell)
    requires WellFormed(grid)
    requires a != b
    ensures Adjacent(a, StepToward(a, b))
    ensures Heuristic(StepToward(a, b), b) + 1 == Heuristic(a, b)
    ensures InBounds(grid, a) && InBounds(grid, b) ==> InBounds(grid, StepToward(a, b))
  {
  }

}

/** The priority frontier. The source keeps a binary heap of
    `(heuristic(cell, goal), cell)` tuples and pushes each cell at most once,
    so the heap always holds one entry per frontier cell and `heappop`
    returns the entry whose `(h, row, col)` triple is smallest. The model
    keeps the frontier as a set of cells and pops that least cell. */
module Frontier {
  import opened Grid

  /** The order of heap entries: Python compares `(h, (row, col))` tuples
      lexicographically. */
  predicate Precedes(a: Cell, b: Cell, goal: Cell)
  {
    var ha, hb := Heuristic(a, goal), Heuristic(b, goal);
    ha < hb || (ha == hb && (a.row < b.row || (a.row == b.row && a.col <= b.col)))
  }

  lemma PrecedesIsTotalOrder(a: Cell, b: Cell, c: Cell, goal: Cell)
    ensures Precedes(a, a, goal)
    ensures Precedes(a, b, goal) || Precedes(b, a, goal)
    ensures Precedes(a, b, goal) && Precedes(b, a, goal) ==> a == b
    ensures Precedes(a, b, goal) && Precedes(b, c, goal) ==> Precedes(a, c, goal)
  {
  }

  predicate IsLeast(m: Cell, s: set<Cell>, goal: Cell)
  {
    m in s && forall c :: c in s ==> Precedes(m, c, goal)
  }

  /** The pop is deterministic: a set has at most one least cell. */
  lemma LeastIsUnique(s: set<Cell>, goal: Cell, a: Cell, b: Cell)
    requires IsLeast(a, s, goal) && IsLeast(b, s, goal)
    ensures a == b
  {
  }

  /** The goal, whose distance to itself is zero, is the least cell of any
      set that holds it. */
  lemma GoalIsLeast(s: set<Cell>, goal: Cell, m: Cell)
    requires IsLeast(m, s, goal)
    ensures m == goal <==> goal in s
  {
  }

  /** `heappop`: remove and return the least frontier cell. */
  method PopMin(frontier: set<Cell>, goal: Cell) returns (m: Cell, rest: set<Cell>)
    requires frontier != {}
    ensures IsLeast(m, frontier, goal)
    ensures rest == frontier - {m}
  {
    m :| m in frontier;
    var unseen := frontier - {m};
    while unseen != {}
      invariant unseen <= frontier
      invariant m in frontier && m !in unseen
      invariant forall c :: c in frontier && c !in unseen ==> Precedes(m, c, goal)
      decreases |unseen|
    {
      var c :| c in unseen;
      if !Precedes(m, c, goal) {
        m := c;
      }
      unseen := unseen - {c};
    }
    rest := frontier - {m};
  }

}

/** Expanding a popped cell: the neighbour loop of the search. */
module Expansion {
  import opened Wrappers
  import opened Grid

  /** The expansion guard: in bounds, not blocked, not visited and not
      yet given a parent. */
  predicate Admits(grid: Grid, visited: set<Cell>, parent: map<Cell, Option<Cell>>, n: Cell)
    requires WellFormed(grid)
  {
    Free(grid, n) && n !in visited && n !in parent
  }

  /** The neighbours among the first `upTo` moves of `current` that the
      expansion guard admits, judged against the maps as they were before
      the expansion. */
  function Discovered(grid: Grid, current: Cell, visited: set<Cell>,
                      parent: map<Cell, Option<Cell>>, upTo: nat): (r: set<Cell>)
    requires WellFormed(grid)
    requires upTo <= MoveCount()
    ensures forall j :: upTo <= j < MoveCount() ==> Neighbour(current, j) !in r
    ensures forall c :: c in r ==> Admits(grid, visited, parent, c)
  {
    if upTo == 0 then {}
    else
      var n := Neighbour(current, upTo - 1);
      Discovered(grid, current, visited, parent, upTo - 1) +
      (if Admits(grid, visited, parent, n) then {n} else {})
  }

  lemma {:induction false} DiscoveredAreAdjacent(grid: Grid, current: Cell, visited: set<Cell>,
                                                  parent: map<Cell, Option<Cell>>, upTo: nat)
    requires WellFormed(grid)
    requires upTo <= MoveCount()
    ensures forall c :: c in Discovered(grid, current, visited, parent, upTo) ==> Adjacent(current, c)
  {
    if upTo > 0 {
      DiscoveredAreAdjacent(grid, current, visited, parent, upTo - 1);
      assert Adjacent(current, Neighbour(current, upTo - 1));
    }
  }

  lemma {:induction false} DiscoveredContains(grid: Grid, current: Cell, visited: set<Cell>,
                                               parent: map<Cell, Option<Cell>>, upTo: nat, k: nat)
    requires WellFormed(grid)
    requires k < upTo <= MoveCount()
    requires Admits(grid, visited, parent, Neighbour(current, k))
    ensures Neighbour(current, k) in Discovered(grid, current, visited, parent, upTo)
  {
    if k < upTo - 1 {
      DiscoveredContains(grid, current, visited, parent, upTo - 1, k);
    }
  }

  /** The effect of expanding `current`: the admitted neighbours are added
      to the frontier and to the parent map with parent `current`, and no
      existing parent link changes. */
  predicate Expanded(grid: Grid, current: Cell, visited: set<Cell>, frontier: set<Cell>,
                     parent: map<Cell, Option<Cell>>,
                     frontier': set<Cell>, parent': map<Cell, Option<Cell>>)
    requires WellFormed(grid)
  {
    var found := Discovered(grid, current, visited, parent, MoveCount());
    && parent'.Keys == parent.Keys + found
    && frontier' == frontier + found
    && (forall c :: c in parent ==> parent'[c] == parent[c])
    && (forall c :: c in parent' && c !in parent ==> parent'[c] == Some(current))
  }

  /** The neighbour loop: give every admitted neighbour of `current` the
      parent `current` and push it on the frontier. */
  method ExpandNeighbours(grid: Grid, current: Cell, visited: set<Cell>, frontier: set<Cell>,
                          parent: map<Cell, Option<Cell>>)
    returns (frontier': set<Cell>, parent': map<Cell, Option<Cell>>)
    requires WellFormed(grid)
    ensures Expanded(grid, current, visited, frontier, parent, frontier', parent')
  {
    frontier', parent' := frontier, parent;
    var k := 0;
    while k < MoveCount()
      invariant 0 <= k <= MoveCount()
      invariant parent'.Keys == parent.Keys + Discovered(grid, current, visited, parent, k)
      invariant frontier' == frontier + Discovered(grid, current, visited, parent, k)
      invariant forall c :: c in parent ==> parent'[c] == parent[c]
      invariant forall c :: c in parent' && c !in parent ==> parent'[c] == Some(current)
    {
      var n := Neighbour(current, k);
      assert n !in Discovered(grid, current, visited, parent, k);
      if Free(grid, n) && n !in visited && n !in parent' {
        frontier' := frontier' + {n};
        parent' := parent'[n := Some(current)];
      }
      k := k + 1;
    }
  }

}

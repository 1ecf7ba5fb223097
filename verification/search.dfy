/** Greedy best-first search over the 4-connected grid: the frontier is
    ordered by the Manhattan distance to the goal alone, with no
    accumulated path cost. */
module Search {
  import opened Wrappers
  import opened Grid
  import opened Frontier
  import opened Reconstruct
  import opened Expansion
  import opened SearchInvariant

  /** The goal has been popped: reconstruct the chain of parent links. */
  method GoalStep(grid: Grid, start: Cell, goal: Cell, ghost universe: set<Cell>,
                  frontier: set<Cell>, visited: set<Cell>,
                  parent: map<Cell, Option<Cell>>, ghost depth: map<Cell, nat>)
    returns (path: seq<Cell>)
    requires WellFormed(grid)
    requires LoopInv(grid, start, goal, universe, frontier, visited, parent, depth)
    requires DepthBounds(start, visited, depth)
    requires OpenProgress(grid, start, goal, frontier, visited)
    requires goal in frontier
    ensures IsParentChain(parent, path, goal)
    ensures IsPath(grid, path, start, goal)
    ensures Reachable(grid, start, goal)
    ensures start == goal ==> path == [start]
    ensures |visited| + 1 <= ExpansionBound(grid, start)
    ensures |path| <= |visited| + 1
    ensures OpenGrid(grid, start, goal) ==> |path| == Heuristic(start, goal) + 1
  {
    LoopInvGivesForest(grid, start, goal, universe, frontier, visited, parent, depth);
    path := ReconstructPath(goal, parent, depth);
    GoalPopped(grid, start, goal, universe, frontier, visited, parent, depth, path);
  }

  /** A cell other than the goal has been popped: mark it visited and
      expand it. */
  method ExpandStep(grid: Grid, start: Cell, goal: Cell, ghost universe: set<Cell>,
                    frontier: set<Cell>, visited: set<Cell>,
                    parent: map<Cell, Option<Cell>>, ghost depth: map<Cell, nat>,
                    current: Cell, rest: set<Cell>)
    returns (frontier': set<Cell>, visited': set<Cell>,
             parent': map<Cell, Option<Cell>>, ghost depth': map<Cell, nat>)
    requires WellFormed(grid)
    requires LoopInv(grid, start, goal, universe, frontier, visited, parent, depth)
    requires DepthBounds(start, visited, depth)
    requires OpenProgress(grid, start, goal, frontier, visited)
    requires IsLeast(current, frontier, goal) && current != goal && rest == frontier - {current}
    ensures LoopInv(grid, start, goal, universe, frontier', visited', parent', depth')
    ensures DepthBounds(start, visited', depth')
    ensures OpenProgress(grid, start, goal, frontier', visited')
    ensures visited' == visited + {current}
    ensures Discovered(grid, current, visited', parent, MoveCount()) !! frontier
    ensures Expanded(grid, current, visited', rest, parent, frontier', parent')
    ensures |universe - parent'.Keys| < |universe - parent.Keys| ||
            (|universe - parent'.Keys| == |universe - parent.Keys| && |frontier'| < |frontier|)
  {
    visited' := visited + {current};
    ghost var discovered := Discovered(grid, current, visited', parent, MoveCount());
    frontier', parent' := ExpandNeighbours(grid, current, visited', rest, parent);
    depth' := Deepen(depth, discovered, depth[current]);
    StepKeepsInv(grid, start, goal, universe, frontier, visited, parent, depth, current,
                 frontier', parent', depth');
    StepKeepsBounds(grid, start, goal, frontier, visited, parent, depth, current,
                    frontier', parent', depth');
  }

  /** One iteration of the search loop: pop the least frontier cell; if it
      is the goal, return the reconstructed path, otherwise mark it visited
      and expand it. */
  method SearchStep(grid: Grid, start: Cell, goal: Cell, ghost universe: set<Cell>,
                    frontier: set<Cell>, visited: set<Cell>,
                    parent: map<Cell, Option<Cell>>, ghost depth: map<Cell, nat>)
    returns (found: Option<seq<Cell>>, frontier': set<Cell>, visited': set<Cell>,
             parent': map<Cell, Option<Cell>>, ghost depth': map<Cell, nat>)
    requires WellFormed(grid)
    requires frontier != {}
    requires LoopInv(grid, start, goal, universe, frontier, visited, parent, depth)
    requires DepthBounds(start, visited, depth)
    requires OpenProgress(grid, start, goal, frontier, visited)
    ensures found.Some? <==> goal in frontier
    ensures found.Some? ==> IsParentChain(parent, found.value, goal)
    ensures found.Some? ==> IsPath(grid, found.value, start, goal)
    ensures found.Some? ==> Reachable(grid, start, goal)
    ensures found.Some? && start == goal ==> found.value == [start]
    ensures found.Some? ==> |visited| + 1 <= ExpansionBound(grid, start)
    ensures found.Some? ==> |found.value| <= |visited| + 1
    ensures found.Some? && OpenGrid(grid, start, goal) ==> |found.value| == Heuristic(start, goal) + 1
    ensures found.None? ==> LoopInv(grid, start, goal, universe, frontier', visited', parent', depth')
    ensures found.None? ==> DepthBounds(start, visited', depth')
    ensures found.None? ==> OpenProgress(grid, start, goal, frontier', visited')
    ensures found.None? ==> |visited'| == |visited| + 1
    ensures found.None? ==>
      exists c :: IsLeast(c, frontier, goal) && visited' == visited + {c} &&
                  Expanded(grid, c, visited + {c}, frontier - {c}, parent, frontier', parent')
    ensures found.None? ==>
      |universe - parent'.Keys| < |universe - parent.Keys| ||
      (|universe - parent'.Keys| == |universe - parent.Keys| && |frontier'| < |frontier|)
  {
    var current, rest := PopMin(frontier, goal);
    GoalIsLeast(frontier, goal, current);
    if current == goal {
      var path := GoalStep(grid, start, goal, universe, frontier, visited, parent, depth);
      return Some(path), frontier, visited, parent, depth;
    }
    frontier', visited', parent', depth' :=
      ExpandStep(grid, start, goal, universe, frontier, visited, parent, depth, current, rest);
    found := None;
  }

  /** `best_first_search` without its animation side channel. The ghost
      `expansions` counts loop iterations. */
  method BestFirstSearch(grid: Grid, start: Cell, goal: Cell)
    returns (result: Option<seq<Cell>>, ghost expansions: nat)
    requires WellFormed(grid)
    ensures result.Some? ==> IsPath(grid, result.value, start, goal)
    ensures result.Some? <==> Reachable(grid, start, goal)
    ensures start == goal ==> result == Some([start])
    ensures expansions <= ExpansionBound(grid, start)
    ensures result.Some? ==> |result.value| <= expansions
    ensures OpenGrid(grid, start, goal) ==> result.Some? && |result.value| == Heuristic(start, goal) + 1
  {
    var frontier: set<Cell> := {start};
    var visited: set<Cell> := {};
    var parent: map<Cell, Option<Cell>> := map[start := None];
    ghost var depth: map<Cell, nat> := map[start := 0];
    ghost var universe := AllCells(grid) + {start};
    InitialInv(grid, start, goal);
    expansions := 0;
    while frontier != {}
      invariant LoopInv(grid, start, goal, universe, frontier, visited, parent, depth)
      invariant DepthBounds(start, visited, depth)
      invariant OpenProgress(grid, start, goal, frontier, visited)
      invariant expansions == |visited|
      decreases |universe - parent.Keys|, |frontier|
    {
      var found;
      found, frontier, visited, parent, depth :=
        SearchStep(grid, start, goal, universe, frontier, visited, parent, depth);
      expansions := expansions + 1;
      if found.Some? {
        return found, expansions;
      }
    }
    FrontierExhausted(grid, start, goal, universe, visited, parent, depth);
    return None, expansions;
  }

}

/** The invariant of the search loop, and the lemmas that carry it from
    one iteration to the next and turn it into the search's guarantees. */
module SearchInvariant {
  import opened Wrappers
  import opened Grid
  import opened Reconstruct
  import opened Expansion
  import opened Regions
  import opened Frontier

  /** A non-start key of the parent map was discovered from an expanded,
      adjacent cell of smaller depth, and is itself free. */
  ghost predicate IsTreeEdge(grid: Grid, parent: map<Cell, Option<Cell>>, depth: map<Cell, nat>,
                             visited: set<Cell>, c: Cell)
    requires WellFormed(grid)
    requires c in parent && c in depth
  {
    && parent[c].Some?
    && parent[c].value in visited
    && parent[c].value in depth
    && Adjacent(parent[c].value, c)
    && Free(grid, c)
    && depth[parent[c].value] < depth[c]
  }

  /** Every non-start key of the parent map is a tree edge. */
  ghost predicate TreeEdges(grid: Grid, start: Cell, parent: map<Cell, Option<Cell>>,
                            depth: map<Cell, nat>, visited: set<Cell>)
    requires WellFormed(grid)
    requires depth.Keys == parent.Keys
  {
    forall c {:trigger IsTreeEdge(grid, parent, depth, visited, c)} ::
      c in parent && c != start ==> IsTreeEdge(grid, parent, depth, visited, c)
  }

  /** Every free neighbour of an expanded cell has been discovered. */
  ghost predicate NeighboursDiscovered(grid: Grid, visited: set<Cell>, parent: map<Cell, Option<Cell>>)
    requires WellFormed(grid)
  {
    forall v, k :: v in visited && 0 <= k < MoveCount() && Free(grid, Neighbour(v, k)) ==>
      Neighbour(v, k) in parent
  }

  /** What the search loop keeps true between iterations: the start is the
      root, expanded cells are discovered, the frontier holds exactly the
      discovered cells not yet expanded (so each at most once), the goal is
      never expanded, parent links form a tree of free adjacent steps, and
      expanded cells have all their free neighbours discovered. */
  ghost predicate SearchInv(grid: Grid, start: Cell, goal: Cell, frontier: set<Cell>,
                            visited: set<Cell>, parent: map<Cell, Option<Cell>>,
                            depth: map<Cell, nat>)
    requires WellFormed(grid)
  {
    && start in parent && parent[start] == None
    && depth.Keys == parent.Keys
    && visited <= parent.Keys
    && frontier == parent.Keys - visited
    && goal !in visited
    && TreeEdges(grid, start, parent, depth, visited)
    && NeighboursDiscovered(grid, visited, parent)
  }

  /** The loop invariant: the search invariant, plus the facts that bound
      the loop (everything discovered lies in `universe`) and that pin down
      the first iteration (it expands the start). */
  ghost predicate LoopInv(grid: Grid, start: Cell, goal: Cell, universe: set<Cell>,
                          frontier: set<Cell>, visited: set<Cell>,
                          parent: map<Cell, Option<Cell>>, depth: map<Cell, nat>)
    requires WellFormed(grid)
  {
    && SearchInv(grid, start, goal, frontier, visited, parent, depth)
    && universe == AllCells(grid) + {start}
    && parent.Keys <= universe
    && (visited == {} ==> parent.Keys == {start})
    && (visited != {} ==> start in visited)
  }

  /** Every discovered cell lies at least as deep as its Manhattan distance
      from the start, and no deeper than the number of expansions so far. */
  ghost predicate DepthBounds(start: Cell, visited: set<Cell>, depth: map<Cell, nat>)
  {
    forall c :: c in depth ==> Heuristic(start, c) <= depth[c] <= |visited|
  }

  /** On an open grid the k-th expansion is of a cell k steps nearer the
      goal than the start: the frontier holds a cell at distance
      `heuristic(start, goal) - k` from the goal, and every expanded cell
      lies further away than that. */
  ghost predicate OpenProgress(grid: Grid, start: Cell, goal: Cell, frontier: set<Cell>,
                               visited: set<Cell>)
    requires WellFormed(grid)
  {
    OpenGrid(grid, start, goal) ==>
      && (exists c :: c in frontier && Heuristic(c, goal) + |visited| == Heuristic(start, goal))
      && (forall v :: v in visited ==> Heuristic(v, goal) + |visited| > Heuristic(start, goal))
  }

  /** The depths of newly discovered cells: one more than their parent's. */
  ghost function Deepen(depth: map<Cell, nat>, found: set<Cell>, d: nat): map<Cell, nat>
  {
    depth + map c | c in found :: d + 1
  }

  /** The bound on expansions: every expanded cell is in the grid or is
      the start. */
  function ExpansionBound(grid: Grid, start: Cell): nat
    requires WellFormed(grid)
  {
    |grid| * Cols(grid) + (if InBounds(grid, start) then 0 else 1)
  }

  lemma InitialInv(grid: Grid, start: Cell, goal: Cell)
    requires WellFormed(grid)
    ensures LoopInv(grid, start, goal, AllCells(grid) + {start}, {start}, {},
                    map[start := None], map[start := 0])
    ensures DepthBounds(start, {}, map[start := 0])
    ensures OpenProgress(grid, start, goal, {start}, {})
  {
  }

  /** Expanding `current` keeps the parent links a tree of free adjacent steps. */
  lemma TreeEdgesKept(grid: Grid, start: Cell, current: Cell, visited: set<Cell>,
                      parent: map<Cell, Option<Cell>>, depth: map<Cell, nat>,
                      parent': map<Cell, Option<Cell>>, depth': map<Cell, nat>)
    requires WellFormed(grid)
    requires start in parent && parent[start] == None
    requires depth.Keys == parent.Keys && visited <= parent.Keys && current in visited
    requires TreeEdges(grid, start, parent, depth, visited - {current})
    requires parent'.Keys == parent.Keys + Discovered(grid, current, visited, parent, MoveCount())
    requires forall c :: c in parent ==> parent'[c] == parent[c]
    requires forall c :: c in parent' && c !in parent ==> parent'[c] == Some(current)
    requires depth' == Deepen(depth, Discovered(grid, current, visited, parent, MoveCount()), depth[current])
    ensures depth'.Keys == parent'.Keys
    ensures TreeEdges(grid, start, parent', depth', visited)
  {
    var found := Discovered(grid, current, visited, parent, MoveCount());
    DiscoveredAreAdjacent(grid, current, visited, parent, MoveCount());
    forall c | c in parent' && c != start ensures IsTreeEdge(grid, parent', depth', visited, c) {
      if c in parent {
        assert c !in found;
        assert IsTreeEdge(grid, parent, depth, visited - {current}, c);
      } else {
        assert c in found;
      }
    }
  }

  /** Expanding `current` discovers all its free neighbours. */
  lemma NeighboursDiscoveredKept(grid: Grid, current: Cell, visited: set<Cell>,
                                 parent: map<Cell, Option<Cell>>, parent': map<Cell, Option<Cell>>)
    requires WellFormed(grid)
    requires visited <= parent.Keys && current in visited
    requires NeighboursDiscovered(grid, visited - {current}, parent)
    requires parent'.Keys == parent.Keys + Discovered(grid, current, visited, parent, MoveCount())
    ensures NeighboursDiscovered(grid, visited, parent')
  {
    forall v, k | v in visited && 0 <= k < MoveCount() && Free(grid, Neighbour(v, k))
      ensures Neighbour(v, k) in parent'
    {
      if v == current {
        var n := Neighbour(v, k);
        if n !in visited && n !in parent {
          DiscoveredContains(grid, current, visited, parent, MoveCount(), k);
        }
      } else {
        assert v in visited - {current};
      }
    }
  }

  /** Expanding `current` keeps every depth within its bounds: a new cell
      lies one step further from the start and one level deeper than
      `current`, and the expansion count grows by one. */
  lemma DepthBoundsKept(grid: Grid, start: Cell, current: Cell, visited: set<Cell>,
                        parent: map<Cell, Option<Cell>>, depth: map<Cell, nat>,
                        depth': map<Cell, nat>)
    requires WellFormed(grid)
    requires depth.Keys == parent.Keys && current in parent && current !in visited
    requires DepthBounds(start, visited, depth)
    requires depth' == Deepen(depth, Discovered(grid, current, visited + {current}, parent, MoveCount()),
                              depth[current])
    ensures DepthBounds(start, visited + {current}, depth')
  {
    var found := Discovered(grid, current, visited + {current}, parent, MoveCount());
    DiscoveredAreAdjacent(grid, current, visited + {current}, parent, MoveCount());
    forall c | c in depth' ensures Heuristic(start, c) <= depth'[c] <= |visited + {current}| {
      if c in found {
        HeuristicTriangle(start, current, c);
      }
    }
  }

  /** On an open grid the least frontier cell is exactly `k` steps nearer
      the goal after `k` expansions, and its move towards the goal is
      discovered now or was already in the frontier. */
  lemma OpenProgressKept(grid: Grid, start: Cell, goal: Cell, frontier: set<Cell>,
                         visited: set<Cell>, parent: map<Cell, Option<Cell>>, depth: map<Cell, nat>,
                         current: Cell, frontier': set<Cell>, parent': map<Cell, Option<Cell>>)
    requires WellFormed(grid)
    requires frontier == parent.Keys - visited && depth.Keys == parent.Keys
    requires DepthBounds(start, visited, depth)
    requires OpenProgress(grid, start, goal, frontier, visited)
    requires IsLeast(current, frontier, goal) && current != goal
    requires current == start || Free(grid, current)
    requires Expanded(grid, current, visited + {current}, frontier - {current}, parent, frontier', parent')
    ensures OpenProgress(grid, start, goal, frontier', visited + {current})
  {
    if OpenGrid(grid, start, goal) {
      var h, k := Heuristic(start, goal), |visited|;
      var c :| c in frontier && Heuristic(c, goal) + k == h;
      assert Precedes(current, c, goal);
      assert depth[current] <= k;
      HeuristicTriangle(start, current, goal);
      assert Heuristic(current, goal) + k == h;
      var n := StepToward(current, goal);
      StepTowardApproaches(grid, current, goal);
      assert n !in visited + {current};
      assert Free(grid, n);
      if n !in parent {
        AdjacentIsNeighbour(current, n);
        var j :| 0 <= j < MoveCount() && n == Neighbour(current, j);
        assert Admits(grid, visited + {current}, parent, n);
        DiscoveredContains(grid, current, visited + {current}, parent, MoveCount(), j);
      }
      AddOneCardinality(visited, current);
      assert n in frontier';
    }
  }

  /** Popping `current` and adding the discovered cells to both the parent
      map and the frontier keeps the frontier equal to the discovered,
      unexpanded cells. */
  lemma FrontierKept(frontier: set<Cell>, visited: set<Cell>, keys: set<Cell>, current: Cell,
                     found: set<Cell>, frontier': set<Cell>, keys': set<Cell>)
    requires frontier == keys - visited && visited <= keys && current in frontier
    requires found !! keys && current !in found
    requires keys' == keys + found && frontier' == (frontier - {current}) + found
    ensures frontier' == keys' - (visited + {current})
    ensures visited + {current} <= keys'
    ensures found == {} ==> |frontier'| < |frontier|
  {
    if found == {} {
      assert frontier' == frontier - {current};
    }
  }

  /** One iteration that pops `current` (not the goal), marks it visited and
      expands it keeps the loop invariant and decreases the loop measure. */
  lemma StepKeepsInv(grid: Grid, start: Cell, goal: Cell, universe: set<Cell>,
                     frontier: set<Cell>, visited: set<Cell>,
                     parent: map<Cell, Option<Cell>>, depth: map<Cell, nat>, current: Cell,
                     frontier': set<Cell>, parent': map<Cell, Option<Cell>>, depth': map<Cell, nat>)
    requires WellFormed(grid)
    requires LoopInv(grid, start, goal, universe, frontier, visited, parent, depth)
    requires current in frontier && current != goal
    requires Expanded(grid, current, visited + {current}, frontier - {current}, parent, frontier', parent')
    requires depth' == Deepen(depth, Discovered(grid, current, visited + {current}, parent, MoveCount()),
                              depth[current])
    ensures LoopInv(grid, start, goal, universe, frontier', visited + {current}, parent', depth')
    ensures |universe - parent'.Keys| < |universe - parent.Keys| ||
            (|universe - parent'.Keys| == |universe - parent.Keys| && |frontier'| < |frontier|)
  {
    var visited' := visited + {current};
    var found := Discovered(grid, current, visited', parent, MoveCount());
    assert found !! parent.Keys;
    assert visited' - {current} == visited;
    TreeEdgesKept(grid, start, current, visited', parent, depth, parent', depth');
    NeighboursDiscoveredKept(grid, current, visited', parent, parent');
    FrontierKept(frontier, visited, parent.Keys, current, found, frontier', parent'.Keys);
    assert found <= AllCells(grid);
    SubsetDecreases(universe, parent.Keys, parent'.Keys);
  }

  /** One iteration that expands the least frontier cell keeps the depth
      bounds and, on an open grid, the progress towards the goal. */
  lemma StepKeepsBounds(grid: Grid, start: Cell, goal: Cell,
                        frontier: set<Cell>, visited: set<Cell>,
                        parent: map<Cell, Option<Cell>>, depth: map<Cell, nat>, current: Cell,
                        frontier': set<Cell>, parent': map<Cell, Option<Cell>>, depth': map<Cell, nat>)
    requires WellFormed(grid)
    requires SearchInv(grid, start, goal, frontier, visited, parent, depth)
    requires DepthBounds(start, visited, depth)
    requires OpenProgress(grid, start, goal, frontier, visited)
    requires IsLeast(current, frontier, goal) && current != goal
    requires Expanded(grid, current, visited + {current}, frontier - {current}, parent, frontier', parent')
    requires depth' == Deepen(depth, Discovered(grid, current, visited + {current}, parent, MoveCount()),
                              depth[current])
    ensures DepthBounds(start, visited + {current}, depth')
    ensures OpenProgress(grid, start, goal, frontier', visited + {current})
  {
    DepthBoundsKept(grid, start, current, visited, parent, depth, depth');
    KeysAreStartOrFree(grid, start, goal, frontier, visited, parent, depth);
    OpenProgressKept(grid, start, goal, frontier, visited, parent, depth, current, frontier', parent');
  }

  /** Every discovered cell is the start or a free cell of the grid. */
  lemma KeysAreStartOrFree(grid: Grid, start: Cell, goal: Cell, frontier: set<Cell>,
                           visited: set<Cell>, parent: map<Cell, Option<Cell>>,
                           depth: map<Cell, nat>)
    requires WellFormed(grid)
    requires SearchInv(grid, start, goal, frontier, visited, parent, depth)
    ensures forall c :: c in parent ==> c == start || Free(grid, c)
  {
    forall c | c in parent && c != start ensures Free(grid, c) {
      assert IsTreeEdge(grid, parent, depth, visited, c);
    }
  }

  /** The depth map orders the parent links, as reconstruction needs. */
  lemma LoopInvGivesForest(grid: Grid, start: Cell, goal: Cell, universe: set<Cell>,
                           frontier: set<Cell>, visited: set<Cell>,
                           parent: map<Cell, Option<Cell>>, depth: map<Cell, nat>)
    requires WellFormed(grid)
    requires LoopInv(grid, start, goal, universe, frontier, visited, parent, depth)
    ensures IsForest(parent, depth)
  {
    forall c | c in parent && parent[c].Some?
      ensures parent[c].value in parent && depth[parent[c].value] < depth[c]
    {
      assert IsTreeEdge(grid, parent, depth, visited, c);
    }
  }

  /** The chain of parent links to the goal, read off a tree that the
      search invariant describes, is a path from the start. */
  lemma PathFromTree(grid: Grid, start: Cell, goal: Cell, frontier: set<Cell>, visited: set<Cell>,
                     parent: map<Cell, Option<Cell>>, depth: map<Cell, nat>, path: seq<Cell>)
    requires WellFormed(grid)
    requires SearchInv(grid, start, goal, frontier, visited, parent, depth)
    requires visited == {} ==> parent.Keys == {start}
    requires visited != {} ==> start in visited
    requires IsParentChain(parent, path, goal) && NoRepeats(path)
    ensures IsPath(grid, path, start, goal)
    ensures start == goal ==> path == [start]
  {
    assert path[0] != start ==> IsTreeEdge(grid, parent, depth, visited, path[0]);
    forall i | 0 < i < |path| ensures Adjacent(path[i - 1], path[i]) && Free(grid, path[i]) {
      assert parent[path[i]] == Some(path[i - 1]);
      assert IsTreeEdge(grid, parent, depth, visited, path[i]);
    }
    if start == goal {
      assert path[0] == path[|path| - 1];
      assert |path| == 1;
    }
  }

  /** Popping the goal: the reconstructed chain is a path, so the goal is
      reachable, and the expansion count stays within the grid. */
  lemma GoalPopped(grid: Grid, start: Cell, goal: Cell, universe: set<Cell>,
                   frontier: set<Cell>, visited: set<Cell>,
                   parent: map<Cell, Option<Cell>>, depth: map<Cell, nat>, path: seq<Cell>)
    requires WellFormed(grid)
    requires LoopInv(grid, start, goal, universe, frontier, visited, parent, depth)
    requires DepthBounds(start, visited, depth)
    requires OpenProgress(grid, start, goal, frontier, visited)
    requires goal in frontier
    requires IsParentChain(parent, path, goal) && NoRepeats(path)
    ensures IsPath(grid, path, start, goal)
    ensures Reachable(grid, start, goal)
    ensures start == goal ==> path == [start]
    ensures |visited| + 1 <= ExpansionBound(grid, start)
    ensures |path| <= |visited| + 1
    ensures OpenGrid(grid, start, goal) ==> |path| == Heuristic(start, goal) + 1
  {
    PathFromTree(grid, start, goal, frontier, visited, parent, depth, path);
    CountBound(grid, start, universe, visited + {goal});
    LoopInvGivesForest(grid, start, goal, universe, frontier, visited, parent, depth);
    ChainLengthBound(parent, depth, path, goal);
    WalkLengthBound(grid, path, start, goal);
    if OpenGrid(grid, start, goal) {
      var c :| c in frontier && Heuristic(c, goal) + |visited| == Heuristic(start, goal);
    }
  }

  /** An empty frontier: the expanded cells form a closed region that holds
      the start and not the goal, so no walk reaches the goal. */
  lemma FrontierExhausted(grid: Grid, start: Cell, goal: Cell, universe: set<Cell>,
                          visited: set<Cell>, parent: map<Cell, Option<Cell>>,
                          depth: map<Cell, nat>)
    requires WellFormed(grid)
    requires LoopInv(grid, start, goal, universe, {}, visited, parent, depth)
    ensures !Reachable(grid, start, goal)
    ensures start != goal
    ensures |visited| <= ExpansionBound(grid, start)
  {
    assert visited == parent.Keys by {
      forall c | c in parent.Keys ensures c in visited {
        assert c !in parent.Keys - visited;
      }
    }
    ClosedRegionUnreachable(grid, visited, start, goal);
    CountBound(grid, start, universe, visited);
  }

  lemma {:induction false} SubsetCardinality(a: set<Cell>, b: set<Cell>)
    requires a <= b
    ensures |a| <= |b|
    ensures a != b ==> |a| < |b|
    decreases |a|
  {
    if a == {} {
      if a != b {
        var x :| x in b;
      }
    } else {
      var x :| x in a;
      assert a != b ==> a - {x} != b - {x} by {
        if a != b {
          var y :| y in b && y !in a;
          assert y in b - {x};
        }
      }
      SubsetCardinality(a - {x}, b - {x});
      assert |a - {x}| == |a| - 1 && |b - {x}| == |b| - 1;
    }
  }

  lemma AddOneCardinality(s: set<Cell>, x: Cell)
    requires x !in s
    ensures |s + {x}| == |s| + 1
  {
  }

  /** Growing the parent map never grows the set of undiscovered cells. */
  lemma SubsetDecreases(universe: set<Cell>, before: set<Cell>, after: set<Cell>)
    requires before <= after <= universe
    ensures |universe - after| <= |universe - before|
    ensures before != after ==> |universe - after| < |universe - before|
  {
    SubsetCardinality(universe - after, universe - before);
  }

  /** Every cell the search touches is in the grid or is the start. */
  lemma CountBound(grid: Grid, start: Cell, universe: set<Cell>, s: set<Cell>)
    requires WellFormed(grid)
    requires universe == AllCells(grid) + {start}
    requires s <= universe
    ensures |s| <= ExpansionBound(grid, start)
  {
    SubsetCardinality(s, universe);
    AllCellsCardinality(grid);
  }

}

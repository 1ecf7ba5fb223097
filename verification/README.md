# Greedy best-first grid path planning, modelled in Dafny

This project models the search engine of `path_planning.py`, a small grid
path-planning demo. A grid is a rectangle of cells. A cell holding `1` is an
obstacle and any other value is free. The engine has three parts:

- `heuristic(a, b)` is the Manhattan distance between two `(row, col)`
  cells.
- `best_first_search(grid, start, goal, …)` is a greedy best-first search
  over the 4-connected grid. Its frontier is a binary heap of
  `(heuristic(cell, goal), cell)` entries. It also keeps a `visited` set and
  a `parent` map. The `parent` map doubles as the "already discovered" test.
  The search returns a path or `None`.
- `reconstruct_path(goal, parent)` follows the parent links from the goal
  back to the `None` sentinel and reverses what it collected.

Modules, one file each:

- `Wrappers` (`option.dfy`): `Option`, which stands in for Python's
  `None`-or-value.
- `Grid` (`grid.dfy`): cells, the grid, the heuristic, the four moves, walks
  and paths, the set of in-bounds cells with its size, obstacle-free grids,
  and the move one step towards a target.
- `Frontier` (`frontier.dfy`): the heap. Each cell is pushed at most once,
  so the heap holds one entry per frontier cell. Python compares the entries
  as tuples, so `heappop` returns the cell whose `(h, row, col)` is
  lexicographically least. The model keeps the frontier as a set of cells
  and pops that least cell. This is the same order, with nothing left
  unspecified.
- `Expansion` (`expand.dfy`): the neighbour loop (up, down, left, right)
  and its guard.
- `Reconstruct` (`reconstruct.dfy`): `reconstruct_path`.
- `Regions` (`regions.dfy`): closed regions of the grid. A walk that starts
  in a closed region never leaves it. This is why an exhausted frontier
  means there is no path.
- `SearchInvariant` (`invariant.dfy`): the loop invariant and the lemmas
  that keep it and use it.
- `Search` (`search.dfy`): the loop body (`SearchStep`, split into the goal
  case `GoalStep` and the expansion case `ExpandStep`) and
  `best_first_search` itself.
- `Layouts` (`layouts.dfy`): reachability in particular obstacle layouts.
  Combined with the search's "a path exactly when reachable" contract,
  `WalledGoalUnreachable`, `BlockedRowSeparates` and `ObstacleFreeReachable`
  decide whether the search returns a path on such a grid. `GapIsCrossed`
  constrains any path it returns. The remaining lemmas there are steps
  towards these.

Ghost state supports the proofs:

- A ghost depth per parent-map key: a cell's parent always has a smaller
  depth. This gives `reconstruct_path` its termination measure and shows
  that the path has no repeated cell.
- A ghost `universe`: the in-bounds cells plus the start. With it, the
  search loop decreases on the pair
  (undiscovered cells of the universe, frontier size).
- A ghost expansion counter, bounded by `rows * cols`, plus one if the
  start lies off the grid.
- Two further ghost invariants bound the length of the returned path:
  - **Depth bounds.** A discovered cell's depth is at least its Manhattan
    distance from the start, and at most the number of expansions so far.
    So a returned path never has more cells than the loop has iterations.
  - **Open-grid progress.** On an obstacle-free grid with both endpoints on
    it, the k-th expansion is of a cell exactly k steps nearer the goal.
    So the returned path has exactly `heuristic(start, goal) + 1` cells:
    9 cells from `(0, 0)` to `(4, 4)` on an empty 5×5 grid.

Each iteration is fully determined by the state before it. The popped
cell is the unique least frontier cell (`LeastIsUnique`). The expansion
gives exactly the admitted neighbours the parent `current`, and it changes
no other link (`Expanded`). The returned path is the parent chain that
ends at the goal (`IsParentChain`), and only one such chain exists
(`ParentChainIsUnique`). So the contracts of `SearchStep`, `GoalStep`
and `ExpandStep` fix which path comes back, not only that some valid path
does. For example, on an open 2×2 grid from `(0, 0)` to `(1, 1)`, the
entry for `(0, 1)` precedes the one for `(1, 0)`, so `(0, 1)` is expanded
next and becomes the goal's parent.

In two places the code does something other than one might expect, and
the model follows the code:

- **Start and goal bounds.** The code never indexes `start` or `goal`, so
  the model does not require them to lie in the grid.
- **Tie-breaking.** Equal heuristics are broken by `(row, col)` through the
  tuple comparison, not by insertion order.

## Model

| member | source | states |
|---|---|---|
| Grid.Heuristic | path_planning.py:13-14 | the distance is a natural number, and it is zero exactly when the two cells are equal |
| Grid.HeuristicSymmetric | path_planning.py:13-14 | the distance from a to b equals the distance from b to a |
| Grid.HeuristicTriangle | path_planning.py:13-14 | the distance obeys the triangle inequality |
| Grid.AdjacentIsNeighbour | path_planning.py:48-51 | the four moves reach exactly the cells at distance one, in both directions |
| Grid.WalkLengthBound | path_planning.py:13-14 | every walk from a to b has at least heuristic(a, b) + 1 cells, so the heuristic never overestimates the number of steps |
| Grid.AllCells | path_planning.py:54 | a cell is in the set exactly when the bounds test of the neighbour guard accepts it |
| Grid.AllCellsCardinality | path_planning.py:54 | the grid has rows * cols in-bounds cells |
| Grid.StepTowardApproaches | path_planning.py:48-51 | a move towards a different cell goes to an adjacent cell one unit nearer, and it stays on the grid when both ends are on it |
| Frontier.PrecedesIsTotalOrder | path_planning.py:25 | the comparison of `(h, (row, col))` heap entries is reflexive, total, antisymmetric and transitive |
| Frontier.LeastIsUnique | path_planning.py:31 | a frontier has at most one least cell, so the pop is deterministic |
| Frontier.GoalIsLeast | path_planning.py:31-34 | the popped cell is the goal exactly when the goal is in the frontier |
| Frontier.PopMin | path_planning.py:31 | `heappop` returns the least frontier cell under the `(h, row, col)` order and removes exactly that cell |
| Reconstruct.Reverse | path_planning.py:77 | `path[::-1]` has the same length and holds the cell at mirrored index |
| Reconstruct.ReconstructPath | path_planning.py:71-77 | on a parent map whose links lead to smaller depths, the walk terminates; the result runs from a sentinel-parented cell to the goal, each cell's parent is its predecessor, and no cell repeats |
| Reconstruct.ParentChainIsUnique | path_planning.py:71-77 | only one chain of parent links ends at a given cell, so the reconstructed path is determined by the parent map |
| Reconstruct.ChainLengthBound | path_planning.py:71-77 | when depths fall along every link, a chain has at most one cell more than the depth of the cell it ends at |
| Expansion.Discovered | path_planning.py:54-57 | every admitted neighbour is in bounds, not blocked, not visited and not yet in the parent map |
| Expansion.DiscoveredAreAdjacent | path_planning.py:48-51 | every admitted neighbour is adjacent to the expanded cell |
| Expansion.DiscoveredContains | path_planning.py:54-57 | every neighbour that passes the guard is admitted |
| Expansion.ExpandNeighbours | path_planning.py:48-63 | the loop adds exactly the admitted neighbours to the frontier and to the parent map with parent `current`, and changes no existing link |
| Regions.WalkStaysInClosedRegion | path_planning.py:48-57 | a walk that starts in a region containing every free neighbour of its cells stays in that region |
| Regions.ClosedRegionUnreachable | path_planning.py:65 | no cell outside such a region is reachable from inside it |
| SearchInvariant.InitialInv | path_planning.py:24-28 | the initial heap, the empty visited set and `{start: None}` satisfy the loop invariant, the depth bounds and the open-grid progress |
| SearchInvariant.TreeEdgesKept | path_planning.py:57-63 | after an expansion, every non-start key still has an expanded, adjacent, shallower parent and is free |
| SearchInvariant.NeighboursDiscoveredKept | path_planning.py:48-63 | after an expansion, every free neighbour of every visited cell is in the parent map |
| SearchInvariant.FrontierKept | path_planning.py:31-63 | after pop, visit and push, the frontier is again the parent keys minus the visited set, and it shrinks when nothing was pushed |
| SearchInvariant.StepKeepsInv | path_planning.py:30-63 | one non-goal iteration keeps the loop invariant and decreases the loop measure |
| SearchInvariant.DepthBoundsKept | path_planning.py:57-63 | a newly discovered cell is one level deeper and at most one step further from the start than the cell expanded, so every depth stays between the start distance and the expansion count |
| SearchInvariant.OpenProgressKept | path_planning.py:31-63 | on an open grid, the k-th popped cell is exactly k steps nearer the goal than the start, and its move towards the goal puts a cell k + 1 steps nearer into the frontier |
| SearchInvariant.StepKeepsBounds | path_planning.py:30-63 | one iteration that expands the least frontier cell keeps the depth bounds and the open-grid progress |
| SearchInvariant.KeysAreStartOrFree | path_planning.py:54-63 | every key of the parent map is the start or a free in-bounds cell |
| SearchInvariant.LoopInvGivesForest | path_planning.py:57-63 | under the invariant, every parent link leads to a key of smaller depth, which is what reconstruction needs |
| SearchInvariant.PathFromTree | path_planning.py:71-77 | the parent chain to the goal starts at `start`, moves between adjacent cells and enters only free cells; if start is the goal, it is `[start]` |
| SearchInvariant.GoalPopped | path_planning.py:34-35 | when the goal is popped, the reconstructed chain is a path from start to goal; it has at most one cell more than the expansions so far, and exactly heuristic(start, goal) + 1 cells on an open grid |
| SearchInvariant.FrontierExhausted | path_planning.py:65 | when the heap is empty, the goal is not reachable from the start, start differs from goal, and expansions are within the bound |
| SearchInvariant.CountBound | path_planning.py:54 | any set of cells that are in the grid or are the start has at most rows * cols (+1) members |
| Search.GoalStep | path_planning.py:34-35 | returns the chain of parent links ending at the goal, which is what `reconstruct_path(goal, parent)` computes; it is a path from start to goal without repeats, with at most one cell more than the expansions so far and exactly heuristic(start, goal) + 1 cells on an open grid; proves the goal reachable; returns `[start]` when start is the goal |
| Search.ExpandStep | path_planning.py:37-63 | marks the popped cell visited; pushes and parents exactly the admitted neighbours, each with parent `current`, and changes no existing link; none of them was already in the frontier, so each cell enters the heap once; keeps the loop invariant, the depth bounds and the open-grid progress, and decreases the loop measure |
| Search.SearchStep | path_planning.py:30-63 | it returns a path exactly when the goal is in the frontier, and that path is the goal's parent chain; otherwise it has visited exactly the least frontier cell and expanded it as the neighbour loop does; it keeps the invariants and decreases the measure |
| Search.BestFirstSearch | path_planning.py:21-65 | any returned path goes from start to goal through adjacent free cells without repeats; a path is returned exactly when the goal is reachable; start == goal gives `[start]`; at most rows * cols (+1) expansions; a returned path has no more cells than there were iterations; on an obstacle-free grid with both ends on it, a path of exactly heuristic(start, goal) + 1 cells is returned |
| Layouts.WalledGoalUnreachable | path_planning.py:54-57 | a goal whose four neighbours are blocked or off the grid is unreachable from a start that is neither the goal nor next to it |
| Layouts.WalkCrossesRow | path_planning.py:48-51 | a walk from one side of a row to the other steps onto that row |
| Layouts.GapIsCrossed | path_planning.py:54-55 | a walk across a row that is blocked except at one column passes through that column |
| Layouts.BlockedRowSeparates | path_planning.py:54-55 | a fully blocked row makes the cells on one side unreachable from the other |
| Layouts.StaircaseIsWalk | path_planning.py:54-55 | in an obstacle-free grid, a walk of exactly heuristic(a, b) + 1 cells joins any two in-bounds cells |
| Layouts.ObstacleFreeReachable | path_planning.py:54-55 | in an obstacle-free grid every in-bounds goal is reachable from every in-bounds start, so the search returns a path |

## Left out

- The `PathPlanningApp` class (path_planning.py:82-201) and the entry point (path_planning.py:205-208) are left out: they are tkinter window, button and dialog wiring.
- The `animate` branch (path_planning.py:40-45) and the `canvas`, `rects` and `cell_size` parameters are left out. The branch recolours canvas cells and sleeps. Its `canvas.update()` (path_planning.py:44) also runs the Tk event loop, which can deliver clicks to `on_click`. In obstacle mode, `on_click` sets `self.grid[row][col] = 1` (path_planning.py:157-158). That is the same list the search reads (path_planning.py:184), so obstacles can appear during a search. A returned path can then hold a cell that is blocked by the time the path comes back. The model assumes the grid does not change during a search.
- `place_initial_obstacles` (path_planning.py:125-133) is left out: it draws random obstacles, and the engine takes its grid as input.
- Search.BestFirstSearch: does not promise a shortest path, because the priority is the heuristic alone, with no accumulated cost. The comments at path_planning.py:33 and :70 call the result optimal, but the code does not make it so.
- Grid.WellFormed: a ragged grid is excluded. On a row shorter than the first, the source can raise `IndexError`, and that exception is not modelled. Rows longer than the first are excluded too, although they are harmless: the source never reads past `len(grid[0])` (path_planning.py:54).
- Search.BestFirstSearch: the ghost `expansions` counts loop iterations and has no counterpart in the source.
- The heap's internal layout is not modelled, only the order in which it releases entries. Each cell enters the heap at most once, so a set ordered by `(h, row, col)` releases the same cells in the same order. `Search.ExpandStep` proves the first fact: the cells it pushes are disjoint from the frontier.
- Layouts.GapIsCrossed: states only that every walk across the row goes through the gap. That some walk exists on a particular grid with such a gap is not proved.
- Cells are pairs of unbounded integers. Python's integers are unbounded too, so no wrap-around arises.

# Grid maze path finding, modelled in Dafny

The modelled system finds least-cost paths on a rectangular grid. Each cell is
free (0) or an obstacle (1) and carries a reward. Entering a cell costs its
negated reward. With 8-directional movement, a diagonal move costs a
multiplier (1.414 by default) times the negated reward. The model covers:

- the `Maze` class (`Maze.py`): bounds and passability queries, cell
  mutators, the 4-neighbourhood, the Manhattan heuristic, A* (`solve`),
  Dijkstra (`solve_dijkstra`) and `_reconstruct_path`;
- the `DiagonalMaze` subclass (`diagonal_maze.py`): 8 directions with a cost
  multiplier, the Euclidean heuristic, its two searches, and the path-cost
  loop of the 4-versus-8 comparison;
- the maze-population helpers (`main.py`): random obstacles, three wall
  patterns, uniform rewards, bonus cells, and `create_complete_maze`;
- `calculate_path_cost` of the window (`app.py`).

Modules:

- `GridModel` (`grid.dfy`): the grid as a value, the two movement models,
  walks and their costs, the Manhattan heuristic.
- `Search` (`search.dfy`): the four search loops. They differ only in their
  movement model and in whether a heuristic is added to the priority, so they
  are one method, `BestFirst`. Its open set is a sequence of
  `(priority, counter, cell)` entries. `heappop` takes the least entry in
  `(priority, counter)` order. Ghost maps record the order in which cells are
  closed and the counter of each open cell's newest entry. The loop invariant
  states:
  - closed cells are never relaxed again;
  - `g[n] = g[came_from[n]] + cost of the move`;
  - parents are closed before their children;
  - every open cell has an entry of priority exactly `g + h`;
  - under a consistent strategy, closed cells have their least cost.
- `Mazes` (`mazes.dfy`): class `Maze`, with its matrices as fields the
  mutators update. Class `DiagonalMaze` wraps a `Maze` and adds the multiplier.
- `Euclid` (`euclid.dfy`): the Euclidean heuristic, given by the defining
  property of its square root, and when it is consistent.
- `Generation` (`generation.dfy`): the helpers of `main.py`. They act on a
  `Maze` through its mutators, and every random draw is an oracle argument.
- `Reporting` (`reporting.dfy`): the two path-cost computations.

The searches guarantee the following for all inputs:

- the result is `None` exactly when the goal is unreachable from the start;
- otherwise it is a walk from the start to the goal with no repeated cell;
- it is `[start]` when start and goal coincide;
- it is a cheapest walk when the costs allow it: A* with Manhattan when
  every free reward is at most -1, and Dijkstra when no free reward is
  positive. For the diagonal A*, the condition is a rewards bound of -1 and a
  multiplier of at least the square root of 2.

The default multiplier 1.414 (`diagonal_maze.py:26`) is below the square root
of 2. The docstrings at `diagonal_maze.py:21-22` and `diagonal_maze.py:38` call
it "√2 ≈ 1.414". With it, the Euclidean heuristic is not consistent whenever
the goal is free, costs at most 1 to enter and has a diagonal neighbour inside
the grid (`Euclid.DefaultMultiplierInconsistent`). The model uses 1.414, as
the code does.

## Model

| member | source | states |
|---|---|---|
| GridModel.Filled | Maze.py:26-33 | the default matrices have shape `height` x `width` and hold the fill value (0 or 1.0) in every cell |
| GridModel.IsPassable | Maze.py:54-67 | a passable cell is always inside the grid; outside it, the answer is false rather than an error |
| GridModel.Reward | Maze.py:101-114 | `get_reward` is 0.0 for every cell outside the grid |
| GridModel.Scan | Maze.py:91-97 | the neighbour loop keeps, in list order, exactly the passable targets of the directions it scans |
| GridModel.GetNeighbors | diagonal_maze.py:59-84 | the neighbour list of either movement model is the scan of its direction list |
| GridModel.OrthogonalNeighbors | Maze.py:81-99 | 4-neighbours are the passable cells among up, down, left and right, in that order; at most 4 |
| GridModel.DiagonalNeighbors | diagonal_maze.py:63-84 | 8-neighbours are the 4 orthogonal ones, then the passable diagonal ones in the listed order, each with the diagonal multiplier; at most 8 |
| GridModel.NeighborsSpec | diagonal_maze.py:76-82 | `b` is listed with multiplier `m` exactly when moving to `b` is a move of the movement model and `m` is that move's multiplier (1.0 orthogonal, the diagonal one otherwise) |
| GridModel.NeighborsAreMoves | diagonal_maze.py:76-84 | every listed neighbour is an adjacent passable cell carrying the multiplier of its move |
| GridModel.CornerCutting | diagonal_maze.py:76-82 | a passable diagonal target is listed even when both orthogonal cells beside the move are obstacles |
| GridModel.CheapestCostsAgree | Maze.py:164-300 | two walks between the same cells that are both cheapest cost the same |
| GridModel.ManhattanFacts | Maze.py:150-162 | the Manhattan heuristic is 0 exactly at the goal and grows by at most 1 along a 4-move |
| GridModel.ManhattanConsistent | Maze.py:150-162 | with every free reward at most -1, the Manhattan heuristic never drops by more than the cost of a 4-move |
| GridModel.NonPositiveRewardsNonNegativeSteps | Maze.py:287 | with no positive free reward and a non-negative multiplier, no move has a negative cost |
| Search.MinIndex | Maze.py:193 | `heappop` takes an entry least in `(priority, counter)` order, the first such in the open set |
| Search.MinIsUnique | Maze.py:173-180 | with distinct insertion counters the least entry is unique, so the pop order is determined |
| Search.RemoveAt | Maze.py:193 | the open set after a pop is one entry shorter and keeps the other entries in order |
| Search.Telescope | Maze.py:224-227 | along a walk, a consistent heuristic drops by at most the walk's cost |
| Search.InitOk | Maze.py:176-189 | the initial open set `[(h(start), 0, start)]`, `g = {start: 0}`, empty `came_from` and `closed_set` satisfy the loop invariant |
| Search.PopExact | Maze.py:262-264 | the entry popped for an open cell has priority exactly `g + h`; for Dijkstra, `current_dist == dist[current]` |
| Search.PoppedIsOptimal | Maze.py:191-197 | under a consistent strategy, the open cell popped next already has its least cost over all walks from the start |
| Search.CloseShrinks | Maze.py:200-202 | closing a popped open cell shrinks the set of cells still to close, which bounds the loop |
| Search.StaleStep | Maze.py:200-201 | skipping a popped cell that is already closed keeps the loop invariant |
| Search.CloseStep | Maze.py:200-205 | adding the popped open cell to `closed_set` keeps the invariant, with that cell ranked last in closing order |
| Search.RelaxStep | Maze.py:218-231 | recording a cheaper cost and parent for an open neighbour and pushing `(g + h, counter, cell)` keeps the invariant |
| Search.SkipHandled | Maze.py:211-221 | a closed neighbour, or one whose known cost is no higher, needs no update |
| Search.MoveCost | diagonal_maze.py:144 | `cost_mult * -reward` of a listed neighbour is the cost of that move |
| Search.EnterCost | diagonal_maze.py:144 | computes the cost of moving to a listed neighbour, and that neighbour is a move |
| Search.RelaxNeighbor | diagonal_maze.py:136-153 | one neighbour handled: the invariant is kept and the move is relaxed, and earlier relaxations stay relaxed |
| Search.Expand | Maze.py:208-231 | after the neighbour loop, the invariant holds and the closed cell is fully expanded |
| Search.FinishExpansion | Maze.py:208-231 | once every listed neighbour is handled, the cell counts as expanded |
| Search.ExhaustedUnreachable | Maze.py:233-234 | an empty open set means that no walk from the start reaches the goal |
| Search.ParentsRanked | Maze.py:221-222 | every recorded parent was closed before its child |
| Search.ReconstructPath | Maze.py:302-318 | `_reconstruct_path` terminates, ends at `current`, starts at a cell without parent, has each cell the parent of the next, and never repeats a cell |
| Search.ChainIsWalk | Maze.py:218-223 | the reconstructed path is a walk from the start, and its cost is the recorded `g` of its end |
| Search.Arrive | Maze.py:196-197 | popping the goal returns a repetition-free walk from start to goal, `[start]` when they coincide, cheapest under a consistent strategy |
| Search.Step | Maze.py:191-231 | one loop pass that does not pop the goal keeps the invariant, and either grows `closed_set` or shrinks the open set |
| Search.BestFirst | Maze.py:164-234 | `None` exactly when the goal is unreachable; otherwise a repetition-free walk from start to goal, `[start]` when they coincide, cheapest under a consistent strategy |
| Mazes.Maze.constructor | Maze.py:10-39 | absent grid: all free; absent rewards: all 1.0; start defaults to `(0, 0)`, goal to `(height - 1, width - 1)` |
| Mazes.Maze.IsInBounds | Maze.py:41-52 | `is_in_bounds(r, c)` holds exactly when `0 <= r < height` and `0 <= c < width`, which is the grid membership the searches use |
| Mazes.Maze.IsPassableAt | Maze.py:54-67 | `is_passable(r, c)` holds exactly when `(r, c)` is inside the grid and its cell is 0 |
| Mazes.Maze.GetReward | Maze.py:101-114 | the cell's reward inside the grid, 0.0 outside |
| Mazes.Maze.Heuristic | Maze.py:150-162 | the Manhattan distance to the goal, 0 exactly at the goal |
| Mazes.Maze.Neighbours | Maze.py:69-99 | the passable cells among up, down, left and right, in order; at most 4; exactly the 4-moves |
| Mazes.Maze.SetObstacle | Maze.py:116-125 | cell `(r, c)` becomes 1 when inside the grid; every other cell, the rewards and both ends are unchanged |
| Mazes.Maze.RemoveObstacle | Maze.py:127-136 | cell `(r, c)` becomes 0 when inside the grid; nothing else changes |
| Mazes.Maze.SetReward | Maze.py:138-148 | the reward of `(r, c)` becomes `value` when inside the grid; nothing else changes |
| Mazes.Maze.Solve | Maze.py:164-234 | A* with Manhattan: `None` exactly when unreachable; else a repetition-free 4-walk from start to goal, `[start]` when they coincide, cheapest when every free reward is at most -1; writes nothing |
| Mazes.Maze.SolveDijkstra | Maze.py:236-300 | the same, and cheapest when no free reward is positive |
| Mazes.DiagonalMaze.constructor | diagonal_maze.py:25-41 | the `Maze` defaults plus the multiplier, 1.414 when absent |
| Mazes.DiagonalMaze.Neighbours | diagonal_maze.py:43-84 | the 8-neighbour list in the listed order, each with the multiplier of its move; exactly the 8-moves; at most 8 |
| Mazes.DiagonalMaze.Solve | diagonal_maze.py:103-155 | 8-direction A*: `None` exactly when unreachable; else a repetition-free walk of Chebyshev steps from start to goal, `[start]` when they coincide; cheapest when the heuristic is consistent, in particular when every free reward is at most -1 and the multiplier is at least the square root of 2 |
| Mazes.DiagonalMaze.SolveDijkstra | diagonal_maze.py:157-204 | the same guarantees; cheapest when no free reward is positive and the multiplier is not negative |
| Euclid.EuclideanFacts | diagonal_maze.py:86-101 | the Euclidean heuristic is non-negative and 0 exactly at the goal |
| Euclid.EuclideanMove | diagonal_maze.py:86-101 | along one move with multiplier `m` (1 orthogonal, at least the square root of 2 diagonal), the heuristic drops by at most `m` |
| Euclid.EuclideanConsistent | diagonal_maze.py:86-101 | with every free reward at most -1 and a multiplier of at least the square root of 2, the Euclidean heuristic is consistent for 8 directions |
| Euclid.DiagonalBelowRootTwo | diagonal_maze.py:25-26 | a multiplier below the square root of 2 makes the Euclidean heuristic inconsistent whenever the goal is free, costs at most 1 to enter and has a diagonal neighbour `a` inside the grid: the move from `a` into the goal has `h(a) > cost + h(goal)` |
| Euclid.DefaultMultiplierInconsistent | diagonal_maze.py:25-26 | the default multiplier 1.414 is such a multiplier: under the same conditions, the move from the in-grid diagonal neighbour into the goal breaks consistency |
| Generation.GenerateRandomObstacles | main.py:5-27 | exactly the cells whose draw is below the density become obstacles, sparing the two ends with `ensure_path`; no obstacle is removed; rewards and ends are untouched |
| Generation.EndsStayFree | main.py:19-21 | with `ensure_path`, no obstacle is drawn on the start or the goal |
| Generation.VerticalWalls | main.py:41-48 | exactly the in-grid cells with column `c >= 2`, `c % 4 == 2`, row `r % 3 != 0`, other than the ends, become obstacles |
| Generation.HorizontalWalls | main.py:50-57 | exactly the in-grid cells with row `r >= 2`, `r % 4 == 2`, column `c % 3 != 0`, other than the ends, become obstacles |
| Generation.PlaceWall | main.py:62-74 | the centre `(i, j)`, unless it is an end, becomes an obstacle, and so does the neighbour its drawn direction points to |
| Generation.MazePattern | main.py:59-74 | exactly the wall centres (odd `i` in `1..h-2`, odd `j` in `1..w-2`, not an end) and the neighbour each drawn direction points to become obstacles |
| Generation.MazePatternShape | main.py:59-74 | every centre and its extension are pattern cells, and every pattern cell is a centre or one of its 4 neighbours |
| Generation.GenerateDeterministicObstacles | main.py:30-76 | the cells of the named pattern become obstacles; an unknown name changes nothing |
| Generation.InitializeUniformRewards | main.py:79-99 | every reward is `step_cost` except the goal's, which is `goal_reward`; obstacles and ends untouched |
| Generation.Accepted | main.py:117-134 | the accepted random positions are eligible (free, not an end), at most `num_bonuses`, and at most the number of draws |
| Generation.AcceptedDrawn | main.py:124-125 | every accepted position is one of the draws made |
| Generation.AcceptedSaturated | main.py:123 | after `num_bonuses` acceptances, more draws change nothing |
| Generation.IsEligibleAt | main.py:127-129 | the placement test holds exactly for free cells other than start and goal |
| Generation.EligibleAmong | main.py:135-142 | the listed positions that are eligible, and no others |
| Generation.BonusTargets | main.py:117-142 | bonuses only go to eligible cells: at most `num_bonuses` of them when random, only listed ones otherwise, none without a list |
| Generation.RandomBonuses | main.py:117-134 | at most `num_bonuses * 10` draws; exactly the accepted positions get `bonus_value`; nothing else changes |
| Generation.ListedBonuses | main.py:135-142 | exactly the eligible listed positions get `bonus_value`; nothing else changes |
| Generation.AddBonusCells | main.py:102-144 | exactly the bonus targets get `bonus_value`; obstacles, ends and other rewards are unchanged |
| Generation.AcceptedIgnoresRewards | main.py:127-129 | which draws are accepted does not depend on the rewards |
| Generation.PlaceObstacles | main.py:194-202 | the requested obstacles, then both ends cleared |
| Generation.PlaceRewards | main.py:204-209 | the goal gets `goal_reward`, accepted bonus cells `bonus_value`, all other cells `step_cost` |
| Generation.CreateCompleteMaze | main.py:162-211 | the exact obstacle grid; both ends free; `reward(goal) = goal_reward`; `reward(start) = step_cost` when start differs from the goal; every reward is `step_cost`, `goal_reward` or `bonus_value` |
| Reporting.CalculatePathCost | app.py:280-289 | 0 for no path or an empty one; otherwise the sum of the negated rewards of every listed cell, the start included |
| Reporting.ReportedCost | app.py:285-289 | on a non-empty walk, the reported cost is the 4-direction search cost plus the start's negated reward |
| Reporting.SolvedPathReport | app.py:285-289 | for a walk from the maze's start to its goal, the reported cost is `-reward(start) + PathCost(path)` |
| Reporting.CompareAlgorithms | app.py:219-255 | A* and Dijkstra find no path on exactly the same mazes (those whose goal is unreachable); each reported cost is the negated-reward sum of its path; when every free reward is at most -1, the two paths have the same search cost and the window reports the same cost for both |
| Reporting.DiagonalPathCost | diagonal_maze.py:238-247 | the comparison's diagonal-aware sum equals the 8-direction search's cost of the same path |

## Left out

- The Qt window and everything in `app.py` other than `calculate_path_cost`
  and the two searches and cost reports of `compare_algorithms`: these are
  drawing, signals, message boxes and the printed length and timing remarks. `ui_maze_window.py` is not part
  of this model.
- `Maze.__str__`, the demo blocks and the printing in the comparison
  functions: they only print.
- `time.time()` benchmarking and the node-count comparisons: timing only.
- `generate_movable_areas` (main.py:147): not called by `create_complete_maze`.
- NumPy's random draws are arbitrary oracle arguments:
  - a value per cell for `np.random.random`;
  - a direction per wall centre for `np.random.choice`;
  - a cell per attempt for `np.random.randint`.

  The distributions are not modelled. An oracle cell may lie outside the
  grid, which only widens the set of inputs covered.
- `np.sqrt` and IEEE floating point: rewards and multipliers are exact reals.
  The Euclidean heuristic is a parameter characterised by its square, so
  `Mazes.DiagonalMaze.Solve` takes it as an argument.
- `heapq`'s binary-heap layout: the open set is a sequence with
  least-by-`(priority, counter)` extraction.
- The four Python search loops are one method, `Search.BestFirst`, with a
  movement model and a strategy. The 4-direction cost `-reward` is written
  as `1.0 * -reward`.
- `_reconstruct_path` builds its list by prepending, which is the same as the
  source's append-then-reverse.
- Search.BestFirst: does not state that two calls give the same result. The
  method has no hidden inputs, and `Search.MinIsUnique` shows the pop order
  is fixed.
- Search.BestFirst: does not count expansions or pushes. Each cell is closed
  at most once (`Search.CloseShrinks`), and a neighbour list has at most 4 or
  8 entries (`Mazes.Maze.Neighbours`, `Mazes.DiagonalMaze.Neighbours`).
- Mazes.DiagonalMaze.Solve: requires the heuristic argument to be the
  Euclidean distance. The source computes it and does not take it as a
  parameter.
- GridModel.ConsistentHeuristic quantifies over every move into a passable
  cell, including moves from cells outside the grid. It is therefore a
  stronger condition than the searches need.
- Generation.InitializeUniformRewards, Generation.PlaceRewards and
  Generation.CreateCompleteMaze: require the goal inside the grid. NumPy
  would wrap a negative index or fail on a large one; `Maze.__init__` does
  not check the goal.
- Reporting.CalculatePathCost and Reporting.DiagonalPathCost: require the
  cells they index to be inside the grid, for the same reason.
- The `maze_pattern` extension of a wall may land on the start or the goal.
  The source does not exclude this, and `create_complete_maze` clears both
  ends afterwards. The model keeps this behaviour.
- The Python helpers return the maze they changed. The Dafny methods change it
  in place and return nothing.

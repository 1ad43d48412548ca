/**
 * The two maze classes: `Maze` (4 directions, Manhattan heuristic) and
 * `DiagonalMaze` (8 directions with a diagonal cost multiplier, Euclidean
 * heuristic). Both keep their obstacle and reward matrices as fields that the
 * mutators update cell by cell; the searches read a snapshot of those fields.
 */
module Mazes {
  import opened Wrappers
  import opened GridModel
  import Search
  import opened Euclid

  /** Every free cell of `g` has a reward of at most `bound`. */
  ghost predicate RewardsAtMost(g: Grid, bound: real) {
    forall c :: IsPassable(g, c) ==> Reward(g, c) <= bound
  }

  /** The Manhattan heuristic of `Maze` towards `goal`, as a function of cells. */
  function Manhattan(goal: Cell): (h: Cell -> real)
    ensures forall c :: h(c) == ManhattanTo(goal, c) as real
  {
    (c: Cell) => ManhattanTo(goal, c) as real
  }

  /** A grid of obstacles and rewards with a start and a goal. */
  class Maze {
    const width: nat
    const height: nat
    var grid: seq<seq<int>>
    var rewards: seq<seq<real>>
    var start: Cell
    var goal: Cell

    /** Both matrices have the shape `height` x `width`. */
    ghost predicate Valid()
      reads this
    {
      IsMatrix(grid, height, width) && IsMatrix(rewards, height, width)
    }

    /** The maze as the searches see it. */
    function View(): (g: Grid)
      requires Valid()
      reads this
      ensures g.width == width && g.height == height && g.start == start && g.goal == goal
      ensures g.obstacles == grid && g.rewards == rewards
    {
      MazeData(width, height, grid, rewards, start, goal)
    }

    /**
     * `Maze(width, height, grid, rewards, start, goal)`: an absent grid is all free,
     * absent rewards are 1.0 everywhere, the start defaults to `(0, 0)` and the goal
     * to the bottom-right corner `(height - 1, width - 1)`.
     */
    constructor (width: nat, height: nat, grid: Option<seq<seq<int>>>, rewards: Option<seq<seq<real>>>,
                 start: Option<Cell>, goal: Option<Cell>)
      requires grid.Some? ==> IsMatrix(grid.value, height, width)
      requires rewards.Some? ==> IsMatrix(rewards.value, height, width)
      ensures Valid() && this.width == width && this.height == height
      ensures this.grid == if grid.Some? then grid.value else Filled(height, width, 0)
      ensures this.rewards == if rewards.Some? then rewards.value else Filled(height, width, 1.0)
      ensures this.start == if start.Some? then start.value else Cell(0, 0)
      ensures this.goal == if goal.Some? then goal.value else Cell(height - 1, width - 1)
    {
      this.width := width;
      this.height := height;
      this.grid := if grid.Some? then grid.value else Filled(height, width, 0);
      this.rewards := if rewards.Some? then rewards.value else Filled(height, width, 1.0);
      this.start := if start.Some? then start.value else Cell(0, 0);
      this.goal := if goal.Some? then goal.value else Cell(height - 1, width - 1);
    }

    /** `is_in_bounds`: the cell lies in the grid the searches see. */
    predicate IsInBounds(row: int, col: int)
      reads this
      ensures Valid() ==> (IsInBounds(row, col) <==> InBounds(View(), Cell(row, col)))
    {
      0 <= row < height && 0 <= col < width
    }

    /** `is_passable`: in bounds and free; never fails outside the grid. */
    predicate IsPassableAt(row: int, col: int)
      requires Valid()
      reads this
      ensures IsPassableAt(row, col) <==> IsPassable(View(), Cell(row, col))
    {
      IsInBounds(row, col) && grid[row][col] == 0
    }

    /** `get_reward`: the cell's reward, 0.0 outside the grid. */
    function GetReward(row: int, col: int): (r: real)
      requires Valid()
      reads this
      ensures r == Reward(View(), Cell(row, col))
      ensures !IsInBounds(row, col) ==> r == 0.0
    {
      if IsInBounds(row, col) then rewards[row][col] else 0.0
    }

    /** `heuristic`: the Manhattan distance to the goal, 0 exactly at the goal. */
    function Heuristic(row: int, col: int): (h: nat)
      reads this
      ensures h == 0 <==> Cell(row, col) == goal
      ensures h as real == Manhattan(goal)(Cell(row, col))
    {
      ManhattanFacts(goal, Cell(row, col), Cell(row, col));
      Abs(row - goal.row) + Abs(col - goal.col)
    }

    /** `get_neighbors`: the passable cells among up, down, left and right, in that order. */
    method Neighbours(row: int, col: int) returns (neighbors: seq<Cell>)
      requires Valid()
      ensures |neighbors| <= 4
      ensures forall b :: b in neighbors <==> IsMove(View(), Four, Cell(row, col), b)
      ensures neighbors == Targets(Neighbors(View(), Four, Cell(row, col)))
    {
      var moves := GetNeighbors(View(), Four, Cell(row, col));
      OrthogonalNeighbors(View(), Cell(row, col));
      neighbors := Targets(moves);
      forall b
        ensures b in neighbors <==> IsMove(View(), Four, Cell(row, col), b)
      {
        TargetsMembership(moves, b);
        NeighborsSpec(View(), Four, Cell(row, col), b, 1.0);
        NeighborsAreMoves(View(), Four, Cell(row, col));
      }
    }

    /** `set_obstacle`: cell `(row, col)` becomes an obstacle when in bounds; nothing else changes. */
    method SetObstacle(row: int, col: int)
      requires Valid()
      modifies this
      ensures Valid() && rewards == old(rewards) && start == old(start) && goal == old(goal)
      ensures Written(grid, old(grid), row, col, 1)
    {
      if IsInBounds(row, col) {
        grid := grid[row := grid[row][col := 1]];
      }
    }

    /** `remove_obstacle`: cell `(row, col)` becomes free when in bounds; nothing else changes. */
    method RemoveObstacle(row: int, col: int)
      requires Valid()
      modifies this
      ensures Valid() && rewards == old(rewards) && start == old(start) && goal == old(goal)
      ensures Written(grid, old(grid), row, col, 0)
    {
      if IsInBounds(row, col) {
        grid := grid[row := grid[row][col := 0]];
      }
    }

    /** `set_reward`: cell `(row, col)` gets reward `value` when in bounds; nothing else changes. */
    method SetReward(row: int, col: int, value: real)
      requires Valid()
      modifies this
      ensures Valid() && grid == old(grid) && start == old(start) && goal == old(goal)
      ensures Written(rewards, old(rewards), row, col, value)
    {
      if IsInBounds(row, col) {
        rewards := rewards[row := rewards[row][col := value]];
      }
    }

    /**
     * `solve`: A* with the Manhattan heuristic. `None` exactly when the goal cannot be
     * reached; otherwise a walk from the start to the goal through free 4-neighbours
     * without repeated cells, `[start]` when start and goal coincide, and a cheapest
     * walk when every free cell has a reward of at most -1.
     */
    method Solve() returns (path: Option<seq<Cell>>)
      requires Valid()
      ensures path.None? <==> !Reachable(View(), Four, start, goal)
      ensures path.Some? ==> WalkFromTo(View(), Four, path.value, start, goal) && Distinct(path.value)
      ensures start == goal ==> path == Some([start])
      ensures path.Some? && RewardsAtMost(View(), -1.0) ==>
        forall p :: WalkFromTo(View(), Four, p, start, goal) ==> PathCost(View(), Four, path.value) <= PathCost(View(), Four, p)
    {
      var s := Search.AStar(Manhattan(goal));
      path := Search.BestFirst(View(), Four, s);
      if RewardsAtMost(View(), -1.0) {
        ManhattanConsistent(View(), Manhattan(goal));
        Search.ConsistentMeans(View(), Four, s);
      }
    }

    /**
     * `solve_dijkstra`: the same search without heuristic, relaxing from the popped
     * distance. Same result guarantees; a cheapest walk when no free cell has a
     * positive reward.
     */
    method SolveDijkstra() returns (path: Option<seq<Cell>>)
      requires Valid()
      ensures path.None? <==> !Reachable(View(), Four, start, goal)
      ensures path.Some? ==> WalkFromTo(View(), Four, path.value, start, goal) && Distinct(path.value)
      ensures start == goal ==> path == Some([start])
      ensures path.Some? && RewardsAtMost(View(), 0.0) ==>
        forall p :: WalkFromTo(View(), Four, p, start, goal) ==> PathCost(View(), Four, path.value) <= PathCost(View(), Four, p)
    {
      path := Search.BestFirst(View(), Four, Search.Dijkstra);
      if RewardsAtMost(View(), 0.0) {
        NonPositiveRewardsNonNegativeSteps(View(), Four);
        Search.ConsistentMeans(View(), Four, Search.Dijkstra);
      }
    }
  }

  /**
   * `DiagonalMaze`: a `Maze` whose searches move in 8 directions, diagonal moves
   * costing `diagonalCostMultiplier` times the negated reward of their target. The
   * grid, its queries and its mutators are those of the underlying `Maze`.
   */
  class DiagonalMaze {
    const maze: Maze
    const diagonalCostMultiplier: real

    ghost predicate Valid()
      reads this, maze
    {
      maze.Valid()
    }

    /** The movement model of this maze. */
    function Moves(): Connectivity
      reads this
    {
      Eight(diagonalCostMultiplier)
    }

    /** `DiagonalMaze(width, height, grid, rewards, start, goal, diagonal_cost_multiplier)`, the multiplier 1.414 by default. */
    constructor (width: nat, height: nat, grid: Option<seq<seq<int>>>, rewards: Option<seq<seq<real>>>,
                 start: Option<Cell>, goal: Option<Cell>, multiplier: Option<real>)
      requires grid.Some? ==> IsMatrix(grid.value, height, width)
      requires rewards.Some? ==> IsMatrix(rewards.value, height, width)
      ensures Valid() && fresh(maze) && maze.width == width && maze.height == height
      ensures maze.grid == if grid.Some? then grid.value else Filled(height, width, 0)
      ensures maze.rewards == if rewards.Some? then rewards.value else Filled(height, width, 1.0)
      ensures maze.start == if start.Some? then start.value else Cell(0, 0)
      ensures maze.goal == if goal.Some? then goal.value else Cell(height - 1, width - 1)
      ensures diagonalCostMultiplier == if multiplier.Some? then multiplier.value else 1.414
    {
      maze := new Maze(width, height, grid, rewards, start, goal);
      diagonalCostMultiplier := if multiplier.Some? then multiplier.value else 1.414;
    }

    /**
     * `get_neighbors`: the passable cells among the 4 orthogonal and then the 4 diagonal
     * directions, each with the multiplier of its move: 1.0, or the diagonal one.
     */
    method Neighbours(row: int, col: int) returns (neighbors: seq<Move>)
      requires Valid()
      ensures |neighbors| <= 8
      ensures forall b, m :: Move(b, m) in neighbors <==> IsMove(maze.View(), Moves(), Cell(row, col), b) && m == StepMult(Moves(), Cell(row, col), b)
      ensures neighbors == Neighbors(maze.View(), Four, Cell(row, col)) + Candidates(maze.View(), Cell(row, col), Diagonals(diagonalCostMultiplier))
    {
      neighbors := GetNeighbors(maze.View(), Moves(), Cell(row, col));
      DiagonalNeighbors(maze.View(), diagonalCostMultiplier, Cell(row, col));
      forall b, m
        ensures Move(b, m) in neighbors <==> IsMove(maze.View(), Moves(), Cell(row, col), b) && m == StepMult(Moves(), Cell(row, col), b)
      {
        NeighborsSpec(maze.View(), Moves(), Cell(row, col), b, m);
      }
    }

    /**
     * `solve`: A* over 8 directions with the Euclidean heuristic `h`. `None` exactly when
     * the goal cannot be reached; otherwise a walk from the start to the goal between
     * cells at Chebyshev distance 1, without repeated cells, `[start]` when start and goal
     * coincide, and a cheapest walk when the heuristic is consistent, which it is when every
     * free cell costs at least 1 to enter and the multiplier is at least the square root of 2.
     */
    method Solve(h: Cell -> real) returns (path: Option<seq<Cell>>)
      requires Valid() && IsEuclidean(maze.goal, h)
      ensures path.None? <==> !Reachable(maze.View(), Moves(), maze.start, maze.goal)
      ensures path.Some? ==> WalkFromTo(maze.View(), Moves(), path.value, maze.start, maze.goal) && Distinct(path.value)
      ensures maze.start == maze.goal ==> path == Some([maze.start])
      ensures path.Some? && ConsistentHeuristic(maze.View(), Moves(), h) ==>
        forall p :: WalkFromTo(maze.View(), Moves(), p, maze.start, maze.goal) ==>
          PathCost(maze.View(), Moves(), path.value) <= PathCost(maze.View(), Moves(), p)
      ensures path.Some? && RewardsAtMost(maze.View(), -1.0) && diagonalCostMultiplier >= 0.0 &&
              diagonalCostMultiplier * diagonalCostMultiplier >= 2.0 ==>
        forall p :: WalkFromTo(maze.View(), Moves(), p, maze.start, maze.goal) ==>
          PathCost(maze.View(), Moves(), path.value) <= PathCost(maze.View(), Moves(), p)
    {
      var s := Search.AStar(h);
      path := Search.BestFirst(maze.View(), Moves(), s);
      if RewardsAtMost(maze.View(), -1.0) && diagonalCostMultiplier >= 0.0 && diagonalCostMultiplier * diagonalCostMultiplier >= 2.0 {
        EuclideanConsistent(maze.View(), diagonalCostMultiplier, h);
      }
      Search.ConsistentMeans(maze.View(), Moves(), s);
    }

    /**
     * `solve_dijkstra` over 8 directions: the same guarantees; a cheapest walk when no
     * free cell has a positive reward and the multiplier is not negative.
     */
    method SolveDijkstra() returns (path: Option<seq<Cell>>)
      requires Valid()
      ensures path.None? <==> !Reachable(maze.View(), Moves(), maze.start, maze.goal)
      ensures path.Some? ==> WalkFromTo(maze.View(), Moves(), path.value, maze.start, maze.goal) && Distinct(path.value)
      ensures maze.start == maze.goal ==> path == Some([maze.start])
      ensures path.Some? && RewardsAtMost(maze.View(), 0.0) && diagonalCostMultiplier >= 0.0 ==>
        forall p :: WalkFromTo(maze.View(), Moves(), p, maze.start, maze.goal) ==>
          PathCost(maze.View(), Moves(), path.value) <= PathCost(maze.View(), Moves(), p)
    {
      path := Search.BestFirst(maze.View(), Moves(), Search.Dijkstra);
      if RewardsAtMost(maze.View(), 0.0) && diagonalCostMultiplier >= 0.0 {
        NonPositiveRewardsNonNegativeSteps(maze.View(), Moves());
        Search.ConsistentMeans(maze.View(), Moves(), Search.Dijkstra);
      }
    }
  }

  /**
   * `m` is `prev` with cell `(row, col)` set to `v` when that cell is in bounds, and
   * equal to `prev` otherwise.
   */
  ghost predicate Written<T>(m: seq<seq<T>>, prev: seq<seq<T>>, row: int, col: int, v: T) {
    && |m| == |prev|
    && (forall r :: 0 <= r < |m| ==> |m[r]| == |prev[r]|)
    && (forall r, c :: 0 <= r < |m| && 0 <= c < |m[r]| ==>
          m[r][c] == if r == row && c == col then v else prev[r][c])
  }

  /** The cells of a neighbour list, without the multipliers. */
  function Targets(ms: seq<Move>): (cs: seq<Cell>)
    ensures |cs| == |ms| && forall i :: 0 <= i < |ms| ==> cs[i] == ms[i].target
  {
    if ms == [] then [] else [ms[0].target] + Targets(ms[1..])
  }

  lemma TargetsMembership(ms: seq<Move>, b: Cell)
    ensures b in Targets(ms) <==> exists i :: 0 <= i < |ms| && ms[i].target == b
  {
  }
}

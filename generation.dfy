/**
 * The maze-population helpers: random and patterned obstacles, uniform rewards,
 * bonus cells and the complete pipeline. Each works on a `Maze` in place through
 * its mutators. Every random draw is an oracle parameter: a function of the cell
 * being considered (obstacle density draws, wall extensions) or of the attempt
 * number (bonus positions). Each value is arbitrary, so every sequence of draws is
 * covered.
 */
module Generation {
  import opened Wrappers
  import opened GridModel
  import opened Mazes

  // ---------------------------------------------------------------- obstacles

  /**
   * Whether `generate_random_obstacles` puts an obstacle on `(r, c)`: the cell is not
   * an end protected by `ensurePath`, and its draw is below the density.
   */
  predicate RandomDrop(start: Cell, goal: Cell, coin: (int, int) -> real, density: real, ensurePath: bool, r: int, c: int) {
    !(ensurePath && (Cell(r, c) == start || Cell(r, c) == goal)) && coin(r, c) < density
  }

  /** `generate_random_obstacles`: every cell whose draw is below `density` becomes an obstacle. */
  method GenerateRandomObstacles(maze: Maze, density: real, ensurePath: bool, coin: (int, int) -> real)
    requires maze.Valid()
    modifies maze
    ensures maze.Valid() && maze.rewards == old(maze.rewards) && maze.start == old(maze.start) && maze.goal == old(maze.goal)
    ensures forall r, c :: 0 <= r < maze.height && 0 <= c < maze.width ==>
      maze.grid[r][c] == if RandomDrop(maze.start, maze.goal, coin, density, ensurePath, r, c) then 1 else old(maze.grid)[r][c]
  {
    for i := 0 to maze.height
      invariant maze.Valid() && maze.rewards == old(maze.rewards) && maze.start == old(maze.start) && maze.goal == old(maze.goal)
      invariant forall r, c :: 0 <= r < maze.height && 0 <= c < maze.width ==>
        maze.grid[r][c] == if r < i && RandomDrop(maze.start, maze.goal, coin, density, ensurePath, r, c) then 1 else old(maze.grid)[r][c]
    {
      for j := 0 to maze.width
        invariant maze.Valid() && maze.rewards == old(maze.rewards) && maze.start == old(maze.start) && maze.goal == old(maze.goal)
        invariant forall r, c :: 0 <= r < maze.height && 0 <= c < maze.width ==>
          maze.grid[r][c] ==
            if (r < i || (r == i && c < j)) && RandomDrop(maze.start, maze.goal, coin, density, ensurePath, r, c) then 1
            else old(maze.grid)[r][c]
      {
        if ensurePath && (Cell(i, j) == maze.start || Cell(i, j) == maze.goal) {
          continue;
        }
        if coin(i, j) < density {
          maze.SetObstacle(i, j);
        }
      }
    }
  }

  /** With `ensurePath`, no obstacle is put on the start or the goal. */
  lemma EndsStayFree(start: Cell, goal: Cell, coin: (int, int) -> real, density: real, r: int, c: int)
    requires Cell(r, c) == start || Cell(r, c) == goal
    ensures !RandomDrop(start, goal, coin, density, true, r, c)
  {
  }

  /** A cell of `vertical_walls`: a column 2, 6, 10, ..., a row not divisible by 3, not an end. */
  predicate VerticalWallCell(start: Cell, goal: Cell, r: int, c: int) {
    c >= 2 && c % 4 == 2 && Cell(r, c) != start && Cell(r, c) != goal && r % 3 != 0
  }

  /** A cell of `horizontal_walls`: a row 2, 6, 10, ..., a column not divisible by 3, not an end. */
  predicate HorizontalWallCell(start: Cell, goal: Cell, r: int, c: int) {
    r >= 2 && r % 4 == 2 && Cell(r, c) != start && Cell(r, c) != goal && c % 3 != 0
  }

  /** The direction `np.random.choice(['up', 'down', 'left', 'right'])` picks to extend a wall. */
  datatype Extension = ExtendUp | ExtendDown | ExtendLeft | ExtendRight

  /** The cell one step from `(r, c)` in direction `d`. */
  function Extended(r: int, c: int, d: Extension): Cell {
    match d
    case ExtendUp => Cell(r - 1, c)
    case ExtendDown => Cell(r + 1, c)
    case ExtendLeft => Cell(r, c - 1)
    case ExtendRight => Cell(r, c + 1)
  }

  /** A wall centre of `maze_pattern`: odd coordinates strictly inside the border, not an end. */
  predicate PatternCentre(height: int, width: int, start: Cell, goal: Cell, a: int, b: int) {
    1 <= a < height - 1 && a % 2 == 1 && 1 <= b < width - 1 && b % 2 == 1 && Cell(a, b) != start && Cell(a, b) != goal
  }

  /** The wall centre `(a, b)` makes `(r, c)` an obstacle: `(r, c)` is the centre or its extension. */
  predicate Marks(height: int, width: int, start: Cell, goal: Cell, direction: (int, int) -> Extension, a: int, b: int, r: int, c: int) {
    PatternCentre(height, width, start, goal, a, b) && (Cell(r, c) == Cell(a, b) || Cell(r, c) == Extended(a, b, direction(a, b)))
  }

  /** The centre `(a, b)` comes before position `(i, j)` in the row-major order of the loops. */
  predicate Before(a: int, b: int, i: int, j: int) {
    a < i || (a == i && b < j)
  }

  /**
   * `(r, c)` is marked by a centre that comes before `(i, j)`. A centre marking `(r, c)`
   * is `(r, c)` itself or one of its four orthogonal neighbours.
   */
  predicate MarkedBefore(height: int, width: int, start: Cell, goal: Cell, direction: (int, int) -> Extension, i: int, j: int, r: int, c: int) {
    || (Marks(height, width, start, goal, direction, r, c, r, c) && Before(r, c, i, j))
    || (Marks(height, width, start, goal, direction, r - 1, c, r, c) && Before(r - 1, c, i, j))
    || (Marks(height, width, start, goal, direction, r + 1, c, r, c) && Before(r + 1, c, i, j))
    || (Marks(height, width, start, goal, direction, r, c - 1, r, c) && Before(r, c - 1, i, j))
    || (Marks(height, width, start, goal, direction, r, c + 1, r, c) && Before(r, c + 1, i, j))
  }

  /** A cell of `maze_pattern`: a wall centre, or the neighbour its direction points to. */
  predicate MazePatternCell(height: int, width: int, start: Cell, goal: Cell, direction: (int, int) -> Extension, r: int, c: int) {
    MarkedBefore(height, width, start, goal, direction, height, 0, r, c)
  }

  /**
   * Every wall centre and the neighbour its direction points to are cells of
   * `maze_pattern`, and every cell of it is a centre or an orthogonal neighbour of one.
   */
  lemma MazePatternShape(height: int, width: int, start: Cell, goal: Cell, direction: (int, int) -> Extension, a: int, b: int)
    ensures PatternCentre(height, width, start, goal, a, b) ==>
      var e := Extended(a, b, direction(a, b));
      MazePatternCell(height, width, start, goal, direction, a, b) && MazePatternCell(height, width, start, goal, direction, e.row, e.col)
    ensures MazePatternCell(height, width, start, goal, direction, a, b) ==>
      || PatternCentre(height, width, start, goal, a, b)
      || PatternCentre(height, width, start, goal, a - 1, b) || PatternCentre(height, width, start, goal, a + 1, b)
      || PatternCentre(height, width, start, goal, a, b - 1) || PatternCentre(height, width, start, goal, a, b + 1)
  {
    if PatternCentre(height, width, start, goal, a, b) {
      var e := Extended(a, b, direction(a, b));
      assert Marks(height, width, start, goal, direction, a, b, e.row, e.col);
    }
  }

  /** The cells the named pattern makes obstacles; none for an unknown name. */
  predicate PatternCell(pattern: string, height: int, width: int, start: Cell, goal: Cell, direction: (int, int) -> Extension, r: int, c: int) {
    if pattern == "vertical_walls" then VerticalWallCell(start, goal, r, c)
    else if pattern == "horizontal_walls" then HorizontalWallCell(start, goal, r, c)
    else if pattern == "maze_pattern" then MazePatternCell(height, width, start, goal, direction, r, c)
    else false
  }

  /** `generate_deterministic_obstacles`: the cells of the named pattern become obstacles. */
  method GenerateDeterministicObstacles(maze: Maze, pattern: string, direction: (int, int) -> Extension)
    requires maze.Valid()
    modifies maze
    ensures maze.Valid() && maze.rewards == old(maze.rewards) && maze.start == old(maze.start) && maze.goal == old(maze.goal)
    ensures forall r, c :: 0 <= r < maze.height && 0 <= c < maze.width ==>
      maze.grid[r][c] ==
        if PatternCell(pattern, maze.height, maze.width, maze.start, maze.goal, direction, r, c) then 1
        else old(maze.grid)[r][c]
  {
    if pattern == "vertical_walls" {
      VerticalWalls(maze);
    } else if pattern == "horizontal_walls" {
      HorizontalWalls(maze);
    } else if pattern == "maze_pattern" {
      MazePattern(maze, direction);
    }
  }

  /** The `vertical_walls` branch. */
  method VerticalWalls(maze: Maze)
    requires maze.Valid()
    modifies maze
    ensures maze.Valid() && maze.rewards == old(maze.rewards) && maze.start == old(maze.start) && maze.goal == old(maze.goal)
    ensures forall r, c :: 0 <= r < maze.height && 0 <= c < maze.width ==>
      maze.grid[r][c] == if VerticalWallCell(maze.start, maze.goal, r, c) then 1 else old(maze.grid)[r][c]
  {
    var col := 2;
    while col < maze.width
      invariant col >= 2 && col % 4 == 2
      invariant maze.Valid() && maze.rewards == old(maze.rewards) && maze.start == old(maze.start) && maze.goal == old(maze.goal)
      invariant forall r, c :: 0 <= r < maze.height && 0 <= c < maze.width ==>
        maze.grid[r][c] == if c < col && VerticalWallCell(maze.start, maze.goal, r, c) then 1 else old(maze.grid)[r][c]
      decreases maze.width - col
    {
      for row := 0 to maze.height
        invariant maze.Valid() && maze.rewards == old(maze.rewards) && maze.start == old(maze.start) && maze.goal == old(maze.goal)
        invariant forall r, c :: 0 <= r < maze.height && 0 <= c < maze.width ==>
          maze.grid[r][c] ==
            if (c < col || (c == col && r < row)) && VerticalWallCell(maze.start, maze.goal, r, c) then 1
            else old(maze.grid)[r][c]
      {
        if Cell(row, col) != maze.start && Cell(row, col) != maze.goal {
          if row % 3 != 0 {
            maze.SetObstacle(row, col);
          }
        }
      }
      col := col + 4;
    }
  }

  /** The `horizontal_walls` branch. */
  method HorizontalWalls(maze: Maze)
    requires maze.Valid()
    modifies maze
    ensures maze.Valid() && maze.rewards == old(maze.rewards) && maze.start == old(maze.start) && maze.goal == old(maze.goal)
    ensures forall r, c :: 0 <= r < maze.height && 0 <= c < maze.width ==>
      maze.grid[r][c] == if HorizontalWallCell(maze.start, maze.goal, r, c) then 1 else old(maze.grid)[r][c]
  {
    var row := 2;
    while row < maze.height
      invariant row >= 2 && row % 4 == 2
      invariant maze.Valid() && maze.rewards == old(maze.rewards) && maze.start == old(maze.start) && maze.goal == old(maze.goal)
      invariant forall r, c :: 0 <= r < maze.height && 0 <= c < maze.width ==>
        maze.grid[r][c] == if r < row && HorizontalWallCell(maze.start, maze.goal, r, c) then 1 else old(maze.grid)[r][c]
      decreases maze.height - row
    {
      for col := 0 to maze.width
        invariant maze.Valid() && maze.rewards == old(maze.rewards) && maze.start == old(maze.start) && maze.goal == old(maze.goal)
        invariant forall r, c :: 0 <= r < maze.height && 0 <= c < maze.width ==>
          maze.grid[r][c] ==
            if (r < row || (r == row && c < col)) && HorizontalWallCell(maze.start, maze.goal, r, c) then 1
            else old(maze.grid)[r][c]
      {
        if Cell(row, col) != maze.start && Cell(row, col) != maze.goal {
          if col % 3 != 0 {
            maze.SetObstacle(row, col);
          }
        }
      }
      row := row + 4;
    }
  }

  /** The `maze_pattern` branch: each wall centre and the neighbour its drawn direction points to. */
  method MazePattern(maze: Maze, direction: (int, int) -> Extension)
    requires maze.Valid()
    modifies maze
    ensures maze.Valid() && maze.rewards == old(maze.rewards) && maze.start == old(maze.start) && maze.goal == old(maze.goal)
    ensures forall r, c :: 0 <= r < maze.height && 0 <= c < maze.width ==>
      maze.grid[r][c] ==
        if MazePatternCell(maze.height, maze.width, maze.start, maze.goal, direction, r, c) then 1
        else old(maze.grid)[r][c]
  {
    var i := 1;
    while i < maze.height - 1
      invariant i >= 1 && i % 2 == 1
      invariant maze.Valid() && maze.rewards == old(maze.rewards) && maze.start == old(maze.start) && maze.goal == old(maze.goal)
      invariant forall r, c :: 0 <= r < maze.height && 0 <= c < maze.width ==>
        maze.grid[r][c] ==
          if MarkedBefore(maze.height, maze.width, maze.start, maze.goal, direction, i, 0, r, c) then 1
          else old(maze.grid)[r][c]
      decreases maze.height - i
    {
      var j := 1;
      while j < maze.width - 1
        invariant j >= 1 && j % 2 == 1
        invariant maze.Valid() && maze.rewards == old(maze.rewards) && maze.start == old(maze.start) && maze.goal == old(maze.goal)
        invariant forall r, c :: 0 <= r < maze.height && 0 <= c < maze.width ==>
          maze.grid[r][c] ==
            if MarkedBefore(maze.height, maze.width, maze.start, maze.goal, direction, i, j, r, c) then 1
            else old(maze.grid)[r][c]
        decreases maze.width - j
      {
        PlaceWall(maze, direction, i, j);
        forall r, c
          ensures MarkedBefore(maze.height, maze.width, maze.start, maze.goal, direction, i, j + 2, r, c) <==>
            MarkedBefore(maze.height, maze.width, maze.start, maze.goal, direction, i, j, r, c) ||
            Marks(maze.height, maze.width, maze.start, maze.goal, direction, i, j, r, c)
        {
          NextCentre(maze.height, maze.width, maze.start, maze.goal, direction, i, j, r, c);
        }
        j := j + 2;
      }
      forall r, c
        ensures MarkedBefore(maze.height, maze.width, maze.start, maze.goal, direction, i + 2, 0, r, c) <==>
          MarkedBefore(maze.height, maze.width, maze.start, maze.goal, direction, i, j, r, c)
      {
        NextRow(maze.height, maze.width, maze.start, maze.goal, direction, i, j, r, c);
      }
      i := i + 2;
    }
    forall r, c
      ensures MazePatternCell(maze.height, maze.width, maze.start, maze.goal, direction, r, c) <==>
        MarkedBefore(maze.height, maze.width, maze.start, maze.goal, direction, i, 0, r, c)
    {
      AllCentres(maze.height, maze.width, maze.start, maze.goal, direction, i, r, c);
    }
  }

  /** One iteration of the inner loop of `maze_pattern`: the centre `(i, j)`, unless it is an end, and its extension. */
  method PlaceWall(maze: Maze, direction: (int, int) -> Extension, i: int, j: int)
    requires maze.Valid() && 1 <= i < maze.height - 1 && 1 <= j < maze.width - 1 && i % 2 == 1 && j % 2 == 1
    modifies maze
    ensures maze.Valid() && maze.rewards == old(maze.rewards) && maze.start == old(maze.start) && maze.goal == old(maze.goal)
    ensures forall r, c :: 0 <= r < maze.height && 0 <= c < maze.width ==>
      maze.grid[r][c] ==
        if Marks(maze.height, maze.width, maze.start, maze.goal, direction, i, j, r, c) then 1
        else old(maze.grid)[r][c]
  {
    if Cell(i, j) != maze.start && Cell(i, j) != maze.goal {
      maze.SetObstacle(i, j);
      var d := direction(i, j);
      if d == ExtendUp && i > 0 {
        maze.SetObstacle(i - 1, j);
      } else if d == ExtendDown && i < maze.height - 1 {
        maze.SetObstacle(i + 1, j);
      } else if d == ExtendLeft && j > 0 {
        maze.SetObstacle(i, j - 1);
      } else if d == ExtendRight && j < maze.width - 1 {
        maze.SetObstacle(i, j + 1);
      }
    }
  }

  /** Passing the centre `(i, j)` adds exactly the cells it marks: `(i, j + 1)` is not a centre. */
  lemma NextCentre(height: int, width: int, start: Cell, goal: Cell, direction: (int, int) -> Extension, i: int, j: int, r: int, c: int)
    requires j % 2 == 1
    ensures MarkedBefore(height, width, start, goal, direction, i, j + 2, r, c) <==>
      MarkedBefore(height, width, start, goal, direction, i, j, r, c) || Marks(height, width, start, goal, direction, i, j, r, c)
  {
  }

  /** At the end of row `i` every centre of the row is passed; row `i + 1` has no centre. */
  lemma NextRow(height: int, width: int, start: Cell, goal: Cell, direction: (int, int) -> Extension, i: int, j: int, r: int, c: int)
    requires i % 2 == 1 && j >= width - 1
    ensures MarkedBefore(height, width, start, goal, direction, i + 2, 0, r, c) <==>
      MarkedBefore(height, width, start, goal, direction, i, j, r, c)
  {
  }

  /** Once `i` has reached the last row, every centre is passed. */
  lemma AllCentres(height: int, width: int, start: Cell, goal: Cell, direction: (int, int) -> Extension, i: int, r: int, c: int)
    requires i >= height - 1
    ensures MazePatternCell(height, width, start, goal, direction, r, c) <==>
      MarkedBefore(height, width, start, goal, direction, i, 0, r, c)
  {
  }

  // ------------------------------------------------------------------ rewards

  /** `initialize_uniform_rewards`: `stepCost` everywhere, `goalReward` on the goal; obstacles untouched. */
  method InitializeUniformRewards(maze: Maze, stepCost: real, goalReward: real)
    requires maze.Valid() && maze.IsInBounds(maze.goal.row, maze.goal.col)
    modifies maze
    ensures maze.Valid() && maze.grid == old(maze.grid) && maze.start == old(maze.start) && maze.goal == old(maze.goal)
    ensures forall r, c :: 0 <= r < maze.height && 0 <= c < maze.width ==>
      maze.rewards[r][c] == if Cell(r, c) == maze.goal then goalReward else stepCost
  {
    maze.rewards := Filled(maze.height, maze.width, stepCost);
    maze.rewards := maze.rewards[maze.goal.row := maze.rewards[maze.goal.row][maze.goal.col := goalReward]];
  }

  /** A cell `add_bonus_cells` may reward: free, and neither the start nor the goal. */
  predicate Eligible(g: Grid, c: Cell) {
    IsPassable(g, c) && c != g.start && c != g.goal
  }

  /**
   * The positions accepted among the first `k` random draws `pick(0)`, ..., `pick(k - 1)`:
   * an eligible draw is accepted while fewer than `num` have been.
   */
  function Accepted(g: Grid, pick: nat -> Cell, num: int, k: nat): (cs: seq<Cell>)
    ensures |cs| <= k && (num <= 0 ==> cs == []) && (num > 0 ==> |cs| <= num)
    ensures forall c :: c in cs ==> Eligible(g, c)
  {
    if k == 0 then []
    else
      var prev := Accepted(g, pick, num, k - 1);
      if |prev| < num && Eligible(g, pick(k - 1)) then prev + [pick(k - 1)] else prev
  }

  /** Every accepted position is one of the first `k` draws. */
  lemma {:induction false} AcceptedDrawn(g: Grid, pick: nat -> Cell, num: int, k: nat, c: Cell)
    requires c in Accepted(g, pick, num, k)
    ensures exists a :: 0 <= a < k && pick(a) == c
  {
    var prev := Accepted(g, pick, num, k - 1);
    if c in prev {
      AcceptedDrawn(g, pick, num, k - 1, c);
      var a :| 0 <= a < k - 1 && pick(a) == c;
      assert 0 <= a < k && pick(a) == c;
    } else {
      assert pick(k - 1) == c;
    }
  }

  /** One more draw: it is accepted when eligible and fewer than `num` are accepted so far. */
  lemma AcceptedNext(g: Grid, pick: nat -> Cell, num: int, k: nat)
    ensures var prev := Accepted(g, pick, num, k);
      var taken := |prev| < num && Eligible(g, pick(k));
      && |Accepted(g, pick, num, k + 1)| == (if taken then |prev| + 1 else |prev|)
      && forall c :: c in Accepted(g, pick, num, k + 1) <==> c in prev || (taken && c == pick(k))
  {
  }

  /** The test of `add_bonus_cells`: `(row, col)` is free and neither the start nor the goal. */
  method IsEligibleAt(maze: Maze, ghost g: Grid, row: int, col: int) returns (b: bool)
    requires maze.Valid()
    requires g.obstacles == maze.grid && g.height == maze.height && g.width == maze.width
    requires g.start == maze.start && g.goal == maze.goal
    ensures b <==> Eligible(g, Cell(row, col))
  {
    b := maze.IsPassableAt(row, col) && Cell(row, col) != maze.start && Cell(row, col) != maze.goal;
  }

  /** Once `num` positions are accepted, later draws change nothing. */
  lemma {:induction false} AcceptedSaturated(g: Grid, pick: nat -> Cell, num: int, k: nat, k': nat)
    requires k <= k' && |Accepted(g, pick, num, k)| >= num
    ensures Accepted(g, pick, num, k') == Accepted(g, pick, num, k)
  {
    if k < k' {
      AcceptedSaturated(g, pick, num, k, k' - 1);
    }
  }

  /** The attempt budget `num_bonuses * 10`, no attempt at all when it is not positive. */
  function Budget(num: int): nat {
    if num <= 0 then 0 else num * 10
  }

  /** The listed positions that are eligible, in order. */
  function EligibleAmong(g: Grid, ps: seq<Cell>): (cs: seq<Cell>)
    ensures forall c :: c in cs <==> c in ps && Eligible(g, c)
    ensures |cs| <= |ps|
  {
    if ps == [] then []
    else if Eligible(g, ps[|ps| - 1]) then EligibleAmong(g, ps[..|ps| - 1]) + [ps[|ps| - 1]]
    else EligibleAmong(g, ps[..|ps| - 1])
  }

  /** The cells `add_bonus_cells` rewards. */
  function BonusTargets(g: Grid, num: int, randomPlacement: bool, positions: Option<seq<Cell>>, pick: nat -> Cell): (cs: seq<Cell>)
    ensures forall c :: c in cs ==> Eligible(g, c)
    ensures randomPlacement ==> |cs| <= Budget(num) && (num <= 0 ==> cs == []) && (num > 0 ==> |cs| <= num)
    ensures !randomPlacement && positions.Some? ==> forall c :: c in cs <==> c in positions.value && Eligible(g, c)
    ensures !randomPlacement && positions.None? ==> cs == []
  {
    if randomPlacement then Accepted(g, pick, num, Budget(num))
    else if positions.Some? then EligibleAmong(g, positions.value)
    else []
  }

  /**
   * `add_bonus_cells`: `bonusValue` on each target cell, all other rewards and all
   * obstacles untouched. Random placement draws `pick(0)`, `pick(1)`, ... and stops after
   * `num` successes or `num * 10` attempts.
   */
  method AddBonusCells(maze: Maze, num: int, bonusValue: real, randomPlacement: bool, positions: Option<seq<Cell>>, pick: nat -> Cell)
    requires maze.Valid()
    modifies maze
    ensures maze.Valid() && maze.grid == old(maze.grid) && maze.start == old(maze.start) && maze.goal == old(maze.goal)
    ensures forall r, c :: 0 <= r < maze.height && 0 <= c < maze.width ==>
      maze.rewards[r][c] ==
        if Cell(r, c) in BonusTargets(old(maze.View()), num, randomPlacement, positions, pick) then bonusValue
        else old(maze.rewards)[r][c]
  {
    if randomPlacement {
      RandomBonuses(maze, num, bonusValue, pick);
    } else if positions.Some? {
      ListedBonuses(maze, positions.value, bonusValue);
    }
  }

  /** The random branch of `add_bonus_cells`. */
  method RandomBonuses(maze: Maze, num: int, bonusValue: real, pick: nat -> Cell)
    requires maze.Valid()
    modifies maze
    ensures maze.Valid() && maze.grid == old(maze.grid) && maze.start == old(maze.start) && maze.goal == old(maze.goal)
    ensures forall r, c :: 0 <= r < maze.height && 0 <= c < maze.width ==>
      maze.rewards[r][c] ==
        if Cell(r, c) in Accepted(old(maze.View()), pick, num, Budget(num)) then bonusValue else old(maze.rewards)[r][c]
  {
    ghost var g := maze.View();
    var placed := 0;
    var attempts := 0;
    var maxAttempts := num * 10;
    while placed < num && attempts < maxAttempts
      invariant 0 <= attempts <= Budget(num)
      invariant maze.Valid() && maze.grid == old(maze.grid) && maze.start == old(maze.start) && maze.goal == old(maze.goal)
      invariant placed == |Accepted(g, pick, num, attempts)|
      invariant forall r, c :: 0 <= r < maze.height && 0 <= c < maze.width ==>
        maze.rewards[r][c] == if Cell(r, c) in Accepted(g, pick, num, attempts) then bonusValue else old(maze.rewards)[r][c]
      decreases maxAttempts - attempts
    {
      var row, col := pick(attempts).row, pick(attempts).col;
      AcceptedNext(g, pick, num, attempts);
      assert Cell(row, col) == pick(attempts);
      var eligible := IsEligibleAt(maze, g, row, col);
      if eligible {
        maze.SetReward(row, col, bonusValue);
        placed := placed + 1;
      }
      attempts := attempts + 1;
    }
    if placed >= num {
      AcceptedSaturated(g, pick, num, attempts, Budget(num));
    } else {
      assert attempts == Budget(num);
    }
    assert Accepted(g, pick, num, attempts) == Accepted(g, pick, num, Budget(num));
  }

  /** The branch of `add_bonus_cells` with explicit positions. */
  method ListedBonuses(maze: Maze, ps: seq<Cell>, bonusValue: real)
    requires maze.Valid()
    modifies maze
    ensures maze.Valid() && maze.grid == old(maze.grid) && maze.start == old(maze.start) && maze.goal == old(maze.goal)
    ensures forall r, c :: 0 <= r < maze.height && 0 <= c < maze.width ==>
      maze.rewards[r][c] == if Cell(r, c) in EligibleAmong(old(maze.View()), ps) then bonusValue else old(maze.rewards)[r][c]
  {
    ghost var g := maze.View();
    for k := 0 to |ps|
      invariant maze.Valid() && maze.grid == old(maze.grid) && maze.start == old(maze.start) && maze.goal == old(maze.goal)
      invariant forall r, c :: 0 <= r < maze.height && 0 <= c < maze.width ==>
        maze.rewards[r][c] == if Cell(r, c) in EligibleAmong(g, ps[..k]) then bonusValue else old(maze.rewards)[r][c]
    {
      var row, col := ps[k].row, ps[k].col;
      assert ps[..k + 1] == ps[..k] + [Cell(row, col)];
      var eligible := IsEligibleAt(maze, g, row, col);
      if eligible {
        maze.SetReward(row, col, bonusValue);
      }
    }
    assert ps[..|ps|] == ps;
  }

  // --------------------------------------------------------------- the pipeline

  /** The obstacles `create_complete_maze` asks for: random ones sparing the ends, or the named pattern. */
  predicate RequestedObstacle(obstacleType: string, height: int, width: int, start: Cell, goal: Cell, density: real,
                              coin: (int, int) -> real, direction: (int, int) -> Extension, r: int, c: int) {
    if obstacleType == "random" then RandomDrop(start, goal, coin, density, true, r, c)
    else PatternCell(obstacleType, height, width, start, goal, direction, r, c)
  }

  /** The obstacle phase of `create_complete_maze`: the requested obstacles, then both ends cleared. */
  method PlaceObstacles(maze: Maze, obstacleType: string, density: real, coin: (int, int) -> real, direction: (int, int) -> Extension)
    requires maze.Valid()
    modifies maze
    ensures maze.Valid() && maze.rewards == old(maze.rewards) && maze.start == old(maze.start) && maze.goal == old(maze.goal)
    ensures forall r, c :: 0 <= r < maze.height && 0 <= c < maze.width ==>
      maze.grid[r][c] ==
        if Cell(r, c) == maze.start || Cell(r, c) == maze.goal then 0
        else if RequestedObstacle(obstacleType, maze.height, maze.width, maze.start, maze.goal, density, coin, direction, r, c) then 1
        else old(maze.grid)[r][c]
  {
    if obstacleType == "random" {
      GenerateRandomObstacles(maze, density, true, coin);
    } else {
      GenerateDeterministicObstacles(maze, obstacleType, direction);
    }
    maze.RemoveObstacle(maze.start.row, maze.start.col);
    maze.RemoveObstacle(maze.goal.row, maze.goal.col);
  }

  /** Whether a draw is accepted depends only on the obstacles, the ends and the shape, not on the rewards. */
  lemma {:induction false} AcceptedIgnoresRewards(g: Grid, g': Grid, pick: nat -> Cell, num: int, k: nat)
    requires g.obstacles == g'.obstacles && g.height == g'.height && g.width == g'.width
    requires g.start == g'.start && g.goal == g'.goal
    ensures Accepted(g, pick, num, k) == Accepted(g', pick, num, k)
  {
    if k > 0 {
      AcceptedIgnoresRewards(g, g', pick, num, k - 1);
      assert Eligible(g, pick(k - 1)) == Eligible(g', pick(k - 1));
    }
  }

  /** The reward phase of `create_complete_maze`: uniform rewards, then random bonuses when asked. */
  method PlaceRewards(maze: Maze, stepCost: real, goalReward: real, addBonuses: bool, num: int, bonusValue: real, pick: nat -> Cell)
    requires maze.Valid() && maze.IsInBounds(maze.goal.row, maze.goal.col)
    modifies maze
    ensures maze.Valid() && maze.grid == old(maze.grid) && maze.start == old(maze.start) && maze.goal == old(maze.goal)
    ensures forall r, c :: 0 <= r < maze.height && 0 <= c < maze.width ==>
      maze.rewards[r][c] ==
        if Cell(r, c) == maze.goal then goalReward
        else if addBonuses && Cell(r, c) in Accepted(old(maze.View()), pick, num, Budget(num)) then bonusValue
        else stepCost
  {
    ghost var g := maze.View();
    InitializeUniformRewards(maze, stepCost, goalReward);
    if addBonuses {
      ghost var before := maze.View();
      AddBonusCells(maze, num, bonusValue, true, None, pick);
      AcceptedIgnoresRewards(g, before, pick, num, Budget(num));
    }
  }

  /**
   * `create_complete_maze`: a fresh maze (start `(0, 0)` and goal at the bottom-right
   * corner by default), random obstacles sparing the ends for `"random"` or the named
   * pattern otherwise, both ends cleared, uniform rewards and, when asked, random bonuses.
   * NumPy's indexing demands a goal inside the grid.
   */
  method CreateCompleteMaze(width: nat, height: nat, start: Option<Cell>, goal: Option<Cell>,
                            obstacleType: string, density: real, stepCost: real, goalReward: real,
                            addBonuses: bool, numBonuses: int, bonusValue: real,
                            coin: (int, int) -> real, direction: (int, int) -> Extension, pick: nat -> Cell)
      returns (maze: Maze)
    requires var gl := if goal.Some? then goal.value else Cell(height - 1, width - 1);
      0 <= gl.row < height && 0 <= gl.col < width
    ensures fresh(maze) && maze.Valid() && maze.width == width && maze.height == height
    ensures maze.start == (if start.Some? then start.value else Cell(0, 0))
    ensures maze.goal == (if goal.Some? then goal.value else Cell(height - 1, width - 1))
    ensures forall r, c :: 0 <= r < height && 0 <= c < width ==>
      maze.grid[r][c] ==
        if Cell(r, c) == maze.start || Cell(r, c) == maze.goal then 0
        else if RequestedObstacle(obstacleType, height, width, maze.start, maze.goal, density, coin, direction, r, c) then 1
        else 0
    ensures IsPassable(maze.View(), maze.goal)
    ensures InBounds(maze.View(), maze.start) ==> IsPassable(maze.View(), maze.start)
    ensures Reward(maze.View(), maze.goal) == goalReward
    ensures maze.start != maze.goal ==> Reward(maze.View(), maze.start) == (if InBounds(maze.View(), maze.start) then stepCost else 0.0)
    ensures forall r, c :: 0 <= r < height && 0 <= c < width ==>
      maze.rewards[r][c] == stepCost || maze.rewards[r][c] == goalReward || maze.rewards[r][c] == bonusValue
  {
    var s := if start.Some? then start.value else Cell(0, 0);
    var gl := if goal.Some? then goal.value else Cell(height - 1, width - 1);
    maze := new Maze(width, height, None, None, Some(s), Some(gl));
    PlaceObstacles(maze, obstacleType, density, coin, direction);
    ghost var g := maze.View();
    PlaceRewards(maze, stepCost, goalReward, addBonuses, numBonuses, bonusValue, pick);
    assert s !in Accepted(g, pick, numBonuses, Budget(numBonuses));
  }
}

/**
 * The grid of a maze as the searches see it: an obstacle matrix (0 = free),
 * a reward matrix, a start and a goal, with the queries, the two movement
 * models (4 and 8 directions), walks, their costs and the heuristics.
 */
module GridModel {

  /** A coordinate `(row, col)`; any pair of integers, in bounds or not. */
  datatype Cell = Cell(row: int, col: int)

  /** The fields of a maze: `height` rows of `width` columns. */
  datatype MazeData = MazeData(
    width: nat,
    height: nat,
    obstacles: seq<seq<int>>,
    rewards: seq<seq<real>>,
    start: Cell,
    goal: Cell)

  /** `m` has `height` rows, each of `width` entries. */
  predicate IsMatrix<T>(m: seq<seq<T>>, height: nat, width: nat) {
    |m| == height && forall r :: 0 <= r < height ==> |m[r]| == width
  }

  /** A maze whose two matrices both have the shape `height` x `width`. */
  type Grid = d: MazeData | IsMatrix(d.obstacles, d.height, d.width) && IsMatrix(d.rewards, d.height, d.width)
    witness MazeData(0, 0, [], [], Cell(0, 0), Cell(0, 0))

  /** The matrix of shape `height` x `width` holding `v` everywhere (`np.full`, `np.zeros`, `np.ones`). */
  function Filled<T>(height: nat, width: nat, v: T): (m: seq<seq<T>>)
    ensures IsMatrix(m, height, width)
    ensures forall r, c :: 0 <= r < height && 0 <= c < width ==> m[r][c] == v
  {
    seq(height, _ => seq(width, _ => v))
  }

  function Abs(x: int): nat {
    if x < 0 then -x else x
  }

  // ---------------------------------------------------------------- queries

  predicate InBounds(g: Grid, c: Cell) {
    0 <= c.row < g.height && 0 <= c.col < g.width
  }

  /** Free cell of the grid; every cell outside the grid is impassable. */
  predicate IsPassable(g: Grid, c: Cell)
    ensures IsPassable(g, c) ==> InBounds(g, c)
  {
    InBounds(g, c) && g.obstacles[c.row][c.col] == 0
  }

  /** The reward of a cell, with 0.0 as the value outside the grid. */
  function Reward(g: Grid, c: Cell): (r: real)
    ensures !InBounds(g, c) ==> r == 0.0
  {
    if InBounds(g, c) then g.rewards[c.row][c.col] else 0.0
  }

  // -------------------------------------------------------- movement models

  /** 4-directional movement, or 8-directional with a cost multiplier for diagonal moves. */
  datatype Connectivity = Four | Eight(diagonalCost: real)

  /** A direction with the cost multiplier of a move along it. */
  datatype Offset = Offset(dRow: int, dCol: int, mult: real)

  /** A neighbour returned by `get_neighbors`: its cell and the cost multiplier of the move to it. */
  datatype Move = Move(target: Cell, mult: real)

  const Up := Offset(-1, 0, 1.0)
  const Down := Offset(1, 0, 1.0)
  const Left := Offset(0, -1, 1.0)
  const Right := Offset(0, 1, 1.0)

  /** The direction lists of the two movement models, in the order the source scans them. */
  function Directions(conn: Connectivity): seq<Offset> {
    match conn
    case Four => [Up, Down, Left, Right]
    case Eight(d) => [Up, Down, Left, Right] + Diagonals(d)
  }

  /** Up-left, up-right, down-left, down-right, each with the diagonal multiplier `d`. */
  function Diagonals(d: real): seq<Offset> {
    [Offset(-1, -1, d), Offset(-1, 1, d), Offset(1, -1, d), Offset(1, 1, d)]
  }

  function Shift(c: Cell, o: Offset): Cell {
    Cell(c.row + o.dRow, c.col + o.dCol)
  }

  /** What one direction contributes to the neighbour list: its target if that is passable. */
  function Candidate(g: Grid, c: Cell, o: Offset): seq<Move> {
    if IsPassable(g, Shift(c, o)) then [Move(Shift(c, o), o.mult)] else []
  }

  /** The passable targets of the directions `dirs` from `c`, in the order of `dirs`. */
  function Candidates(g: Grid, c: Cell, dirs: seq<Offset>): seq<Move> {
    if dirs == [] then []
    else Candidates(g, c, dirs[..|dirs| - 1]) + Candidate(g, c, dirs[|dirs| - 1])
  }

  /** The neighbour list of `c` under a movement model. */
  function Neighbors(g: Grid, conn: Connectivity, c: Cell): seq<Move> {
    Candidates(g, c, Directions(conn))
  }

  /** `get_neighbors`: the direction list of the movement model, scanned by `Scan`. */
  method GetNeighbors(g: Grid, conn: Connectivity, c: Cell) returns (neighbors: seq<Move>)
    ensures neighbors == Neighbors(g, conn, c)
  {
    neighbors := Scan(g, c, Directions(conn));
  }

  /** The loop of `get_neighbors`: scans `directions` in order, keeping the passable targets. */
  method Scan(g: Grid, c: Cell, directions: seq<Offset>) returns (neighbors: seq<Move>)
    ensures neighbors == Candidates(g, c, directions)
  {
    neighbors := [];
    for i := 0 to |directions|
      invariant neighbors == Candidates(g, c, directions[..i])
    {
      var d := directions[i];
      var next := Shift(c, d);
      CandidatesAppend(g, c, directions[..i], d);
      assert directions[..i] + [d] == directions[..i + 1];
      if IsPassable(g, next) {
        neighbors := neighbors + [Move(next, d.mult)];
      }
    }
    assert directions[..|directions|] == directions;
  }

  /** The cells a move may go to: 4-adjacent, or at Chebyshev distance 1 with 8 directions. */
  predicate Adjacent(conn: Connectivity, a: Cell, b: Cell) {
    var dr := Abs(b.row - a.row);
    var dc := Abs(b.col - a.col);
    match conn
    case Four => dr + dc == 1
    case Eight(_) => dr <= 1 && dc <= 1 && dr + dc >= 1
  }

  /** The cost multiplier of the move from `a` to `b`: the diagonal one exactly for diagonal moves. */
  function StepMult(conn: Connectivity, a: Cell, b: Cell): real {
    match conn
    case Four => 1.0
    case Eight(d) => if Abs(b.row - a.row) == 1 && Abs(b.col - a.col) == 1 then d else 1.0
  }

  /** A move of the search graph: to an adjacent passable cell. */
  predicate IsMove(g: Grid, conn: Connectivity, a: Cell, b: Cell) {
    Adjacent(conn, a, b) && IsPassable(g, b)
  }

  /** The cost of entering `b` from `a`: the multiplier times the negated reward of `b`. */
  function StepCost(g: Grid, conn: Connectivity, a: Cell, b: Cell): real {
    StepMult(conn, a, b) * -Reward(g, b)
  }

  lemma {:induction false} CandidatesAppend(g: Grid, c: Cell, dirs: seq<Offset>, o: Offset)
    ensures Candidates(g, c, dirs + [o]) == Candidates(g, c, dirs) + Candidate(g, c, o)
  {
    assert (dirs + [o])[..|dirs|] == dirs;
  }

  /** A list of four directions contributes their candidates in order, at most four moves. */
  lemma FourCandidates(g: Grid, c: Cell, o1: Offset, o2: Offset, o3: Offset, o4: Offset)
    ensures Candidates(g, c, [o1, o2, o3, o4])
         == Candidate(g, c, o1) + Candidate(g, c, o2) + Candidate(g, c, o3) + Candidate(g, c, o4)
    ensures |Candidates(g, c, [o1, o2, o3, o4])| <= 4
  {
    var x1, x2, x3, x4 := Candidate(g, c, o1), Candidate(g, c, o2), Candidate(g, c, o3), Candidate(g, c, o4);
    assert Candidates(g, c, []) == [];
    CandidatesAppend(g, c, [], o1);
    assert [] + [o1] == [o1];
    assert Candidates(g, c, [o1]) == x1;
    CandidatesAppend(g, c, [o1], o2);
    assert [o1] + [o2] == [o1, o2];
    assert Candidates(g, c, [o1, o2]) == x1 + x2;
    CandidatesAppend(g, c, [o1, o2], o3);
    assert [o1, o2] + [o3] == [o1, o2, o3];
    assert Candidates(g, c, [o1, o2, o3]) == x1 + x2 + x3;
    CandidatesAppend(g, c, [o1, o2, o3], o4);
    assert [o1, o2, o3] + [o4] == [o1, o2, o3, o4];
    assert |x1| <= 1 && |x2| <= 1 && |x3| <= 1 && |x4| <= 1;
  }

  /** With 4 directions the neighbours are the passable cells among up, down, left, right, in that order. */
  lemma OrthogonalNeighbors(g: Grid, c: Cell)
    ensures Neighbors(g, Four, c)
         == Candidate(g, c, Up) + Candidate(g, c, Down) + Candidate(g, c, Left) + Candidate(g, c, Right)
    ensures |Neighbors(g, Four, c)| <= 4
  {
    FourCandidates(g, c, Up, Down, Left, Right);
  }

  /**
   * With 8 directions the neighbours are the four orthogonal ones, then the passable cells among
   * up-left, up-right, down-left, down-right, each of these with the diagonal multiplier.
   */
  lemma DiagonalNeighbors(g: Grid, d: real, c: Cell)
    ensures Neighbors(g, Eight(d), c) == Neighbors(g, Four, c) + Candidates(g, c, Diagonals(d))
    ensures Candidates(g, c, Diagonals(d))
         == Candidate(g, c, Offset(-1, -1, d)) + Candidate(g, c, Offset(-1, 1, d))
          + Candidate(g, c, Offset(1, -1, d)) + Candidate(g, c, Offset(1, 1, d))
    ensures |Neighbors(g, Eight(d), c)| <= 8
  {
    CandidatesConcat(g, c, Directions(Four), Diagonals(d));
    FourCandidates(g, c, Offset(-1, -1, d), Offset(-1, 1, d), Offset(1, -1, d), Offset(1, 1, d));
    OrthogonalNeighbors(g, c);
  }

  lemma {:induction false} CandidatesConcat(g: Grid, c: Cell, xs: seq<Offset>, ys: seq<Offset>)
    ensures Candidates(g, c, xs + ys) == Candidates(g, c, xs) + Candidates(g, c, ys)
  {
    if ys != [] {
      var init := ys[..|ys| - 1];
      CandidatesConcat(g, c, xs, init);
      assert (xs + ys)[..|xs + ys| - 1] == xs + init;
      assert (xs + ys)[|xs + ys| - 1] == ys[|ys| - 1];
    } else {
      assert xs + ys == xs;
    }
  }

  /**
   * Membership in the neighbour list, both ways: `b` is listed from `a` exactly when the move
   * from `a` to `b` is a move of the graph, and then with the multiplier of that move.
   */
  lemma NeighborsSpec(g: Grid, conn: Connectivity, a: Cell, b: Cell, m: real)
    ensures Move(b, m) in Neighbors(g, conn, a) <==> IsMove(g, conn, a, b) && m == StepMult(conn, a, b)
  {
    var x := Move(b, m);
    OrthogonalNeighbors(g, a);
    var four := Candidate(g, a, Up) + Candidate(g, a, Down) + Candidate(g, a, Left) + Candidate(g, a, Right);
    OrthogonalMembership(g, a, x);
    match conn
    case Four =>
    case Eight(d) =>
      DiagonalNeighbors(g, d, a);
      DiagonalMembership(g, a, d, x);
  }

  /** A move is what one direction contributes exactly when it goes that way to a passable cell. */
  lemma CandidateMembership(g: Grid, a: Cell, o: Offset, x: Move)
    ensures x in Candidate(g, a, o) <==> IsPassable(g, x.target) && x.mult == o.mult && x.target == Shift(a, o)
  {
  }

  lemma OrthogonalMembership(g: Grid, a: Cell, x: Move)
    ensures x in Candidate(g, a, Up) + Candidate(g, a, Down) + Candidate(g, a, Left) + Candidate(g, a, Right)
        <==> IsPassable(g, x.target) && x.mult == 1.0 && Abs(x.target.row - a.row) + Abs(x.target.col - a.col) == 1
  {
    CandidateMembership(g, a, Up, x);
    CandidateMembership(g, a, Down, x);
    CandidateMembership(g, a, Left, x);
    CandidateMembership(g, a, Right, x);
    var dr, dc := x.target.row - a.row, x.target.col - a.col;
    assert x.target == Cell(a.row + dr, a.col + dc);
    assert Abs(dr) + Abs(dc) == 1 <==> (dr, dc) == (-1, 0) || (dr, dc) == (1, 0) || (dr, dc) == (0, -1) || (dr, dc) == (0, 1);
  }

  lemma DiagonalMembership(g: Grid, a: Cell, d: real, x: Move)
    ensures x in Candidate(g, a, Offset(-1, -1, d)) + Candidate(g, a, Offset(-1, 1, d))
               + Candidate(g, a, Offset(1, -1, d)) + Candidate(g, a, Offset(1, 1, d))
        <==> IsPassable(g, x.target) && x.mult == d && Abs(x.target.row - a.row) == 1 && Abs(x.target.col - a.col) == 1
  {
    CandidateMembership(g, a, Offset(-1, -1, d), x);
    CandidateMembership(g, a, Offset(-1, 1, d), x);
    CandidateMembership(g, a, Offset(1, -1, d), x);
    CandidateMembership(g, a, Offset(1, 1, d), x);
    var dr, dc := x.target.row - a.row, x.target.col - a.col;
    assert x.target == Cell(a.row + dr, a.col + dc);
    assert Abs(dr) == 1 && Abs(dc) == 1 <==> (dr, dc) == (-1, -1) || (dr, dc) == (-1, 1) || (dr, dc) == (1, -1) || (dr, dc) == (1, 1);
  }

  /** Every listed neighbour is a move of the graph carrying that move's multiplier. */
  lemma NeighborsAreMoves(g: Grid, conn: Connectivity, a: Cell)
    ensures forall i :: 0 <= i < |Neighbors(g, conn, a)| ==>
      var mv := Neighbors(g, conn, a)[i];
      IsMove(g, conn, a, mv.target) && mv.mult == StepMult(conn, a, mv.target)
  {
    forall i | 0 <= i < |Neighbors(g, conn, a)|
      ensures IsMove(g, conn, a, Neighbors(g, conn, a)[i].target)
      ensures Neighbors(g, conn, a)[i].mult == StepMult(conn, a, Neighbors(g, conn, a)[i].target)
    {
      var mv := Neighbors(g, conn, a)[i];
      NeighborsSpec(g, conn, a, mv.target, mv.mult);
    }
  }

  /**
   * Corner cutting: a diagonal target that is passable is listed even when both orthogonal
   * cells beside the move are obstacles.
   */
  lemma CornerCutting(g: Grid, d: real, a: Cell, dRow: int, dCol: int)
    requires Abs(dRow) == 1 && Abs(dCol) == 1
    requires IsPassable(g, Cell(a.row + dRow, a.col + dCol))
    requires !IsPassable(g, Cell(a.row + dRow, a.col)) && !IsPassable(g, Cell(a.row, a.col + dCol))
    ensures Move(Cell(a.row + dRow, a.col + dCol), d) in Neighbors(g, Eight(d), a)
  {
    NeighborsSpec(g, Eight(d), a, Cell(a.row + dRow, a.col + dCol), d);
  }

  // ------------------------------------------------------------------ walks

  function Last<T>(s: seq<T>): T
    requires |s| > 0
  {
    s[|s| - 1]
  }

  predicate Distinct<T(==)>(s: seq<T>) {
    forall i, j :: 0 <= i < j < |s| ==> s[i] != s[j]
  }

  /** A non-empty sequence of cells each of which is a move away from the one before. */
  predicate IsWalk(g: Grid, conn: Connectivity, p: seq<Cell>) {
    |p| >= 1 && forall i :: 0 <= i < |p| - 1 ==> IsMove(g, conn, p[i], p[i + 1])
  }

  /** The cost of a walk: the sum of the step costs of its moves (the first cell is not entered). */
  function PathCost(g: Grid, conn: Connectivity, p: seq<Cell>): real {
    if |p| <= 1 then 0.0 else StepCost(g, conn, p[0], p[1]) + PathCost(g, conn, p[1..])
  }

  /** A walk from `a` to `b`. */
  predicate WalkFromTo(g: Grid, conn: Connectivity, p: seq<Cell>, a: Cell, b: Cell) {
    IsWalk(g, conn, p) && p[0] == a && Last(p) == b
  }

  ghost predicate Reachable(g: Grid, conn: Connectivity, a: Cell, b: Cell) {
    exists p :: WalkFromTo(g, conn, p, a, b)
  }

  lemma {:induction false} PathCostAppend(g: Grid, conn: Connectivity, p: seq<Cell>, c: Cell)
    requires |p| >= 1
    ensures PathCost(g, conn, p + [c]) == PathCost(g, conn, p) + StepCost(g, conn, Last(p), c)
  {
    if |p| > 1 {
      assert (p + [c])[1..] == p[1..] + [c];
      PathCostAppend(g, conn, p[1..], c);
    }
  }

  /** Cutting a walk at cell `k` splits its cost into the costs of the two pieces. */
  lemma {:induction false} PathCostSplit(g: Grid, conn: Connectivity, p: seq<Cell>, k: nat)
    requires k < |p|
    ensures PathCost(g, conn, p) == PathCost(g, conn, p[..k + 1]) + PathCost(g, conn, p[k..])
  {
    if k > 0 {
      PathCostSplit(g, conn, p[1..], k - 1);
      assert p[1..][..k] == p[..k + 1][1..];
      assert p[1..][k - 1..] == p[k..];
    }
  }

  /** Two walks between the same cells that are each no dearer than any such walk cost the same. */
  lemma CheapestCostsAgree(g: Grid, conn: Connectivity, p: seq<Cell>, q: seq<Cell>, a: Cell, b: Cell)
    requires WalkFromTo(g, conn, p, a, b) && WalkFromTo(g, conn, q, a, b)
    requires forall w :: WalkFromTo(g, conn, w, a, b) ==> PathCost(g, conn, p) <= PathCost(g, conn, w)
    requires forall w :: WalkFromTo(g, conn, w, a, b) ==> PathCost(g, conn, q) <= PathCost(g, conn, w)
    ensures PathCost(g, conn, p) == PathCost(g, conn, q)
  {
  }

  lemma WalkPieces(g: Grid, conn: Connectivity, p: seq<Cell>, k: nat)
    requires IsWalk(g, conn, p) && k < |p|
    ensures IsWalk(g, conn, p[..k + 1]) && IsWalk(g, conn, p[k..])
  {
  }

  // ------------------------------------------------------------- heuristics

  /** The heuristic of `Maze`: the Manhattan distance to the goal. */
  function ManhattanTo(goal: Cell, c: Cell): nat {
    Abs(c.row - goal.row) + Abs(c.col - goal.col)
  }

  /** The Manhattan heuristic is 0 exactly at the goal and changes by at most 1 along a 4-move. */
  lemma ManhattanFacts(goal: Cell, a: Cell, b: Cell)
    ensures ManhattanTo(goal, a) == 0 <==> a == goal
    ensures Adjacent(Four, a, b) ==> ManhattanTo(goal, a) <= ManhattanTo(goal, b) + 1
  {
  }

  /** `h` never drops by more than the cost of a move between two cells (a consistent heuristic). */
  ghost predicate ConsistentHeuristic(g: Grid, conn: Connectivity, h: Cell -> real) {
    forall a, b :: IsMove(g, conn, a, b) ==> h(a) <= StepCost(g, conn, a, b) + h(b)
  }

  /** Every move of the graph has a non-negative cost (Dijkstra's condition). */
  ghost predicate NonNegativeSteps(g: Grid, conn: Connectivity) {
    forall a, b :: IsMove(g, conn, a, b) ==> StepCost(g, conn, a, b) >= 0.0
  }

  /** When every free cell has reward at most -1, the Manhattan heuristic is consistent for 4 directions. */
  lemma ManhattanConsistent(g: Grid, h: Cell -> real)
    requires forall c :: h(c) == ManhattanTo(g.goal, c) as real
    requires forall c :: IsPassable(g, c) ==> Reward(g, c) <= -1.0
    ensures ConsistentHeuristic(g, Four, h)
  {
    forall a, b | IsMove(g, Four, a, b)
      ensures h(a) <= StepCost(g, Four, a, b) + h(b)
    {
      ManhattanFacts(g.goal, a, b);
    }
  }

  /** When no free cell has a positive reward and the diagonal multiplier is not negative, no move costs less than 0. */
  lemma NonPositiveRewardsNonNegativeSteps(g: Grid, conn: Connectivity)
    requires conn.Eight? ==> conn.diagonalCost >= 0.0
    requires forall c :: IsPassable(g, c) ==> Reward(g, c) <= 0.0
    ensures NonNegativeSteps(g, conn)
  {
    forall a, b | IsMove(g, conn, a, b)
      ensures StepCost(g, conn, a, b) >= 0.0
    {
      assert StepMult(conn, a, b) >= 0.0;
    }
  }
}

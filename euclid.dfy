/**
 * The Euclidean heuristic of the diagonal maze, `sqrt(dx^2 + dy^2)` from a cell to the goal,
 * and when it is consistent for 8-directional movement.  The square root is represented by
 * its defining property (a non-negative number whose square is the squared distance), so
 * everything here is about real numbers rather than floating point.
 *
 * The arithmetic is split into many small lemmas: each step is stated with distinct
 * variables, which keeps the solver's nonlinear reasoning small.
 */
module Euclid {
  import opened GridModel

  /** `h` is the Euclidean distance to `goal`: the non-negative square root of the squared distance. */
  ghost predicate IsEuclidean(goal: Cell, h: Cell -> real) {
    forall c :: RootAt(goal, h, c)
  }

  /** `h(c)` is the non-negative square root of the squared distance from `goal` to `c`. */
  predicate RootAt(goal: Cell, h: Cell -> real, c: Cell) {
    h(c) >= 0.0 && h(c) * h(c) == SquaredDistance(goal, c) as real
  }

  function SquaredDistance(goal: Cell, c: Cell): nat {
    (c.row - goal.row) * (c.row - goal.row) + (c.col - goal.col) * (c.col - goal.col)
  }

  /** The Euclidean heuristic is non-negative and is 0 exactly at the goal. */
  lemma EuclideanFacts(goal: Cell, h: Cell -> real)
    requires IsEuclidean(goal, h)
    ensures forall c :: h(c) >= 0.0
    ensures forall c :: h(c) == 0.0 <==> c == goal
  {
    forall c ensures h(c) >= 0.0 && (h(c) == 0.0 <==> c == goal) {
      assert RootAt(goal, h, c);
      if h(c) == 0.0 {
        assert SquaredDistance(goal, c) == 0;
        assert c.row - goal.row == 0 && c.col - goal.col == 0 by {
          SquaresVanish(c.row - goal.row, c.col - goal.col);
        }
      } else if c == goal {
        assert h(c) * h(c) == 0.0;
        ProductZero(h(c), h(c));
      }
    }
  }

  lemma SquaresVanish(x: int, y: int)
    requires x * x + y * y == 0
    ensures x == 0 && y == 0
  {
    assert x * x >= 0 && y * y >= 0;
  }

  lemma ProductZero(a: real, b: real)
    requires a >= 0.0 && b >= 0.0 && a * b == 0.0
    ensures a == 0.0 || b == 0.0
  {
  }

  // ------------------------------------------------------- real arithmetic

  lemma ProductLt(p: real, q: real, r: real, s: real)
    requires 0.0 <= p < q && 0.0 <= r < s
    ensures p * r < q * s
  {
    assert p * r <= q * r;
  }

  /** Squaring is strictly increasing on the non-negative reals. */
  lemma SquareMonotone(p: real, q: real)
    requires p >= 0.0 && q >= 0.0
    ensures p < q ==> p * p < q * q
    ensures p <= q ==> p * p <= q * q
  {
    if p < q {
      ProductLt(p, q, p, q);
    }
    if p <= q {
      ProductLe(p, q, p, q);
    }
  }

  /** Between non-negative reals, comparing squares compares the values. */
  lemma SquareLe(a: real, b: real)
    requires a >= 0.0 && b >= 0.0 && a * a <= b * b
    ensures a <= b
  {
    SquareMonotone(b, a);
  }

  lemma SquareLt(a: real, b: real)
    requires a >= 0.0 && b >= 0.0 && a * a < b * b
    ensures a < b
  {
    SquareMonotone(b, a);
  }

  lemma Swap(p: real, q: real, r: real, s: real)
    ensures (p * q) * (r * s) == (p * r) * (q * s)
  {
  }

  lemma Commute(p: real, q: real)
    ensures p * q == q * p
  {
  }

  lemma CastMul(x: int, y: int)
    ensures (x * y) as real == x as real * y as real
  {
  }

  lemma MulLe(p: real, q: real, r: real)
    requires p <= q && r >= 0.0
    ensures p * r <= q * r
  {
  }

  lemma IntExpand(x: int, x': int, d: int)
    requires x == x'
    ensures (x - d) * (x' - d) == x * x' - 2 * d * x + d * d
  {
  }

  lemma AbsSquare(x: int, x': int)
    requires x == x'
    ensures Abs(x) * Abs(x') == x * x'
  {
  }

  lemma SumSquares(u: int, u': int, v: int, v': int)
    requires u == u' && v == v' && u >= 0 && v >= 0
    ensures (u + v) * (u' + v') <= 2 * (u * u' + v * v')
  {
    assert 0 <= (u - v) * (u' - v');
  }

  lemma ExpandSquare(p: real, q: real, p': real, q': real)
    requires p == p' && q == q'
    ensures (p + q) * (p' + q') == p * p' + p * q' + p * q' + q * q'
  {
  }

  lemma Transfer(x: real, y: real, z: real)
    requires x <= y && z == y
    ensures x <= z
  {
  }

  lemma ProductLe(p: real, q: real, r: real, s: real)
    requires 0.0 <= p <= q && 0.0 <= r <= s
    ensures p * r <= q * s
  {
    assert p * r <= q * r;
  }

  // -------------------------------------------------------- one move's step

  lemma CoordinateBound(x: int, y: int, B: real)
    requires B >= 0.0 && B * B == (x * x + y * y) as real
    ensures Abs(x) as real <= B && Abs(y) as real <= B
  {
    CastMul(Abs(x), Abs(x));
    AbsSquare(x, x);
    CastMul(Abs(y), Abs(y));
    AbsSquare(y, y);
    SquareLe(Abs(x) as real, B);
    SquareLe(Abs(y) as real, B);
  }

  lemma DiagonalBound(x: int, y: int, B: real, m: real)
    requires B >= 0.0 && m >= 0.0 && m * m >= 2.0 && B * B == (x * x + y * y) as real
    ensures (Abs(x) + Abs(y)) as real <= m * B
  {
    var S := Abs(x) + Abs(y);
    SumSquares(Abs(x), Abs(x), Abs(y), Abs(y));
    AbsSquare(x, x);
    AbsSquare(y, y);
    CastMul(S, S);
    Swap(m, B, m, B);
    MulLe(2.0, m * m, B * B);
    MulLe(0.0, m, B);
    SquareLe(S as real, m * B);
  }

  /** The squared distance from the cell one step `(dr, dc)` before `b`. */
  lemma StepBack(x: int, y: int, dr: int, dc: int)
    ensures (x - dr) * (x - dr) + (y - dc) * (y - dc) == x * x + y * y - 2 * (dr * x + dc * y) + dr * dr + dc * dc
  {
    IntExpand(x, x, dr);
    IntExpand(y, y, dc);
  }

  lemma UnitSquare(d: int)
    requires Abs(d) <= 1
    ensures d * d == Abs(d)
  {
  }

  /** A step of at most 1 along one axis changes the product by at most the coordinate. */
  lemma ScaledBound(d: int, x: int)
    requires Abs(d) <= 1
    ensures -(d * x) <= Abs(d) * Abs(x)
  {
    if d == 0 {
    } else if d == 1 {
    } else {
    }
  }

  lemma SquaresShift(A: real, B: real, x: int, y: int, dr: int, dc: int)
    requires A * A == ((x - dr) * (x - dr) + (y - dc) * (y - dc)) as real
    requires B * B == (x * x + y * y) as real
    ensures A * A == B * B - 2.0 * (dr * x + dc * y) as real + (dr * dr + dc * dc) as real
  {
    StepBack(x, y, dr, dc);
  }

  lemma DropBound(B: real, m: real, x: int, y: int, dr: int, dc: int)
    requires B >= 0.0 && m >= 0.0 && B * B == (x * x + y * y) as real
    requires Abs(dr) <= 1 && Abs(dc) <= 1 && Abs(dr) + Abs(dc) >= 1
    requires Abs(dr) + Abs(dc) == 1 ==> m == 1.0
    requires Abs(dr) + Abs(dc) == 2 ==> m * m >= 2.0
    ensures -((dr * x + dc * y) as real) <= m * B && (dr * dr + dc * dc) as real <= m * m
  {
    UnitSquare(dr);
    UnitSquare(dc);
    CoordinateBound(x, y, B);
    ScaledBound(dr, x);
    ScaledBound(dc, y);
    if Abs(dr) + Abs(dc) == 2 {
      DiagonalBound(x, y, B, m);
    }
  }

  lemma StrictTransfer(x: real, y: real, z: real)
    requires x < y && z == y
    ensures x < z
  {
  }

  lemma Finish(AA: real, BB: real, MB: real, MM: real, t: real, k: real)
    requires AA == BB - 2.0 * t + k && -t <= MB && k <= MM
    ensures AA <= MM + MB + MB + BB
  {
  }

  lemma Core(A: real, B: real, m: real, x: int, y: int, dr: int, dc: int)
    requires A >= 0.0 && B >= 0.0 && m >= 0.0
    requires A * A == ((x - dr) * (x - dr) + (y - dc) * (y - dc)) as real
    requires B * B == (x * x + y * y) as real
    requires Abs(dr) <= 1 && Abs(dc) <= 1 && Abs(dr) + Abs(dc) >= 1
    requires Abs(dr) + Abs(dc) == 1 ==> m == 1.0
    requires Abs(dr) + Abs(dc) == 2 ==> m * m >= 2.0
    ensures A * A <= (m + B) * (m + B)
  {
    SquaresShift(A, B, x, y, dr, dc);
    DropBound(B, m, x, y, dr, dc);
    ExpandSquare(m, B, m, B);
    Finish(A * A, B * B, m * B, m * m, (dr * x + dc * y) as real, (dr * dr + dc * dc) as real);
    Transfer(A * A, m * m + m * B + m * B + B * B, (m + B) * (m + B));
  }

  lemma IntSquareEq(u: int, w: int)
    requires u == w
    ensures u * u == w * w
  {
  }

  lemma MoveSquares(goal: Cell, h: Cell -> real, m: real, a: Cell, b: Cell)
    requires IsEuclidean(goal, h) && m >= 0.0
    requires Abs(b.row - a.row) <= 1 && Abs(b.col - a.col) <= 1 && Abs(b.row - a.row) + Abs(b.col - a.col) >= 1
    requires Abs(b.row - a.row) + Abs(b.col - a.col) == 1 ==> m == 1.0
    requires Abs(b.row - a.row) + Abs(b.col - a.col) == 2 ==> m * m >= 2.0
    ensures h(a) >= 0.0 && h(b) >= 0.0 && h(a) * h(a) <= (m + h(b)) * (m + h(b))
  {
    assert RootAt(goal, h, a) && RootAt(goal, h, b);
    CoordinateSquares(h(a), h(b), m, goal.row, goal.col, a.row, a.col, b.row, b.col);
  }

  /** `MoveSquares` on coordinates: `A` and `B` are the distances from `(gr, gc)` to `(ar, ac)` and `(br, bc)`. */
  lemma CoordinateSquares(A: real, B: real, m: real, gr: int, gc: int, ar: int, ac: int, br: int, bc: int)
    requires A >= 0.0 && B >= 0.0 && m >= 0.0
    requires A * A == ((ar - gr) * (ar - gr) + (ac - gc) * (ac - gc)) as real
    requires B * B == ((br - gr) * (br - gr) + (bc - gc) * (bc - gc)) as real
    requires Abs(br - ar) <= 1 && Abs(bc - ac) <= 1 && Abs(br - ar) + Abs(bc - ac) >= 1
    requires Abs(br - ar) + Abs(bc - ac) == 1 ==> m == 1.0
    requires Abs(br - ar) + Abs(bc - ac) == 2 ==> m * m >= 2.0
    ensures A * A <= (m + B) * (m + B)
  {
    var x, y := br - gr, bc - gc;
    var dr, dc := br - ar, bc - ac;
    IntSquareEq(ar - gr, x - dr);
    IntSquareEq(ac - gc, y - dc);
    Core(A, B, m, x, y, dr, dc);
  }

  lemma EuclideanMove(goal: Cell, h: Cell -> real, m: real, a: Cell, b: Cell)
    requires IsEuclidean(goal, h) && m >= 0.0
    requires Abs(b.row - a.row) <= 1 && Abs(b.col - a.col) <= 1 && Abs(b.row - a.row) + Abs(b.col - a.col) >= 1
    requires Abs(b.row - a.row) + Abs(b.col - a.col) == 1 ==> m == 1.0
    requires Abs(b.row - a.row) + Abs(b.col - a.col) == 2 ==> m * m >= 2.0
    ensures h(a) <= m + h(b)
  {
    MoveSquares(goal, h, m, a, b);
    SquareLe(h(a), m + h(b));
  }

  // ----------------------------------------------------------- consistency

  /** With penalties of at least 1 per cell, entering a cell costs at least the move's multiplier. */
  lemma CostAtLeastMult(m: real, r: real)
    requires m >= 0.0 && r <= -1.0
    ensures m * -r >= m
  {
    MulLe(1.0, -r, m);
    Commute(-r, m);
  }

  /**
   * The Euclidean heuristic is consistent for 8-directional movement when the diagonal
   * multiplier is at least the square root of 2 and every passable cell costs at least 1
   * to enter.
   */
  lemma EuclideanConsistent(g: Grid, d: real, h: Cell -> real)
    requires IsEuclidean(g.goal, h)
    requires d >= 0.0 && d * d >= 2.0
    requires forall c :: IsPassable(g, c) ==> Reward(g, c) <= -1.0
    ensures ConsistentHeuristic(g, Eight(d), h)
  {
    forall a, b | IsMove(g, Eight(d), a, b)
      ensures h(a) <= StepCost(g, Eight(d), a, b) + h(b)
    {
      var m := StepMult(Eight(d), a, b);
      EuclideanMove(g.goal, h, m, a, b);
      CostAtLeastMult(m, Reward(g, b));
    }
  }

  /**
   * A diagonal multiplier below the square root of 2 (such as the default 1.414) makes the
   * Euclidean heuristic inconsistent as soon as the goal is free, costs at most 1 to enter and
   * has a diagonal neighbour `a` inside the grid: the diagonal step from `a` into the goal costs
   * at most the multiplier, while the heuristic at `a` is the square root of 2.
   */
  lemma DiagonalBelowRootTwo(g: Grid, d: real, h: Cell -> real, a: Cell)
    requires IsEuclidean(g.goal, h)
    requires 0.0 <= d && d * d < 2.0
    requires IsPassable(g, g.goal) && Reward(g, g.goal) >= -1.0
    requires InBounds(g, a) && Abs(a.row - g.goal.row) == 1 && Abs(a.col - g.goal.col) == 1
    ensures IsMove(g, Eight(d), a, g.goal)
    ensures h(a) > StepCost(g, Eight(d), a, g.goal) + h(g.goal)
    ensures !ConsistentHeuristic(g, Eight(d), h)
  {
    assert IsMove(g, Eight(d), a, g.goal);
    assert StepCost(g, Eight(d), a, g.goal) == d * -Reward(g, g.goal);
    UnitSquare(a.row - g.goal.row);
    UnitSquare(a.col - g.goal.col);
    assert RootAt(g.goal, h, a) && SquaredDistance(g.goal, a) == 2;
    EuclideanFacts(g.goal, h);
    Exceeds(h(a), d, Reward(g, g.goal), h(g.goal));
  }

  /** The heuristic value `A` (the square root of 2) exceeds a diagonal step cost of at most `d` into a cell of heuristic 0. */
  lemma Exceeds(A: real, d: real, r: real, h0: real)
    requires A >= 0.0 && A * A == 2.0 && 0.0 <= d && d * d < 2.0 && r >= -1.0 && h0 == 0.0
    ensures A > d * -r + h0
  {
    MulLe(-r, 1.0, d);
    Commute(-r, d);
    StrictTransfer(d * d, 2.0, A * A);
    SquareLt(d, A);
  }

  /** In particular the default multiplier 1.414 of the diagonal maze is too small for that. */
  lemma DefaultMultiplierInconsistent(g: Grid, h: Cell -> real, a: Cell)
    requires IsEuclidean(g.goal, h)
    requires IsPassable(g, g.goal) && Reward(g, g.goal) >= -1.0
    requires InBounds(g, a) && Abs(a.row - g.goal.row) == 1 && Abs(a.col - g.goal.col) == 1
    ensures h(a) > StepCost(g, Eight(1.414), a, g.goal) + h(g.goal)
    ensures !ConsistentHeuristic(g, Eight(1.414), h)
  {
    DiagonalBelowRootTwo(g, 1.414, h, a);
  }
}

/**
 * The path costs the user interface and the 4-versus-8 comparison report: the
 * window's `calculate_path_cost`, which charges every listed cell including the
 * start, and the comparison's diagonal-aware recomputation, which charges each move
 * like the 8-direction search does.
 */
module Reporting {
  import opened Wrappers
  import opened GridModel
  import opened Mazes

  /** The sum of the negated rewards of the listed cells. */
  function NegatedSum(g: Grid, p: seq<Cell>): real {
    if p == [] then 0.0 else NegatedSum(g, p[..|p| - 1]) - Reward(g, Last(p))
  }

  /**
   * `calculate_path_cost`: 0 for no path or an empty one, otherwise the negated rewards
   * of all listed cells summed. NumPy's indexing demands listed cells inside the grid.
   */
  method CalculatePathCost(maze: Maze, path: Option<seq<Cell>>) returns (cost: real)
    requires maze.Valid()
    requires path.Some? ==> forall i :: 0 <= i < |path.value| ==> InBounds(maze.View(), path.value[i])
    ensures path.None? ==> cost == 0.0
    ensures path.Some? ==> cost == NegatedSum(maze.View(), path.value)
  {
    if path.None? || |path.value| == 0 {
      return 0.0;
    }
    var p := path.value;
    cost := 0.0;
    for k := 0 to |p|
      invariant cost == NegatedSum(maze.View(), p[..k])
    {
      assert p[..k + 1][..k] == p[..k];
      cost := cost - maze.rewards[p[k].row][p[k].col];
    }
    assert p[..|p|] == p;
  }

  /**
   * On any non-empty walk the reported cost is the search's 4-direction cost plus the
   * negated reward of the first cell, which the search never charges.
   */
  lemma {:induction false} ReportedCost(g: Grid, p: seq<Cell>)
    requires |p| >= 1
    ensures NegatedSum(g, p) == -Reward(g, p[0]) + PathCost(g, Four, p)
  {
    if |p| > 1 {
      var init := p[..|p| - 1];
      ReportedCost(g, init);
      assert init[0] == p[0];
      PathCostAppend(g, Four, init, Last(p));
      assert init + [Last(p)] == p;
    }
  }

  /** A path `Maze.Solve` returns is reported at its search cost plus the start's negated reward. */
  lemma SolvedPathReport(g: Grid, p: seq<Cell>)
    requires WalkFromTo(g, Four, p, g.start, g.goal)
    ensures NegatedSum(g, p) == -Reward(g, g.start) + PathCost(g, Four, p)
  {
    ReportedCost(g, p);
  }

  /**
   * `compare_algorithms`: both searches on the same maze and the window's cost of each
   * path found. They fail together; when every free reward is at most -1 both paths are
   * cheapest, so they have the same search cost and the same reported cost. NumPy's
   * indexing of the start's reward demands a start inside the grid.
   */
  method CompareAlgorithms(maze: Maze) returns (astar: Option<seq<Cell>>, dijkstra: Option<seq<Cell>>,
                                              costAstar: real, costDijkstra: real)
    requires maze.Valid() && InBounds(maze.View(), maze.start)
    ensures astar.None? <==> dijkstra.None?
    ensures astar.None? <==> !Reachable(maze.View(), Four, maze.start, maze.goal)
    ensures astar.Some? ==> costAstar == NegatedSum(maze.View(), astar.value)
    ensures dijkstra.Some? ==> costDijkstra == NegatedSum(maze.View(), dijkstra.value)
    ensures astar.Some? && RewardsAtMost(maze.View(), -1.0) ==>
      PathCost(maze.View(), Four, astar.value) == PathCost(maze.View(), Four, dijkstra.value) &&
      costAstar == costDijkstra
  {
    astar := maze.Solve();
    dijkstra := maze.SolveDijkstra();
    costAstar, costDijkstra := 0.0, 0.0;
    if astar.Some? {
      WalkInBounds(maze.View(), astar.value);
      costAstar := CalculatePathCost(maze, astar);
    }
    if dijkstra.Some? {
      WalkInBounds(maze.View(), dijkstra.value);
      costDijkstra := CalculatePathCost(maze, dijkstra);
    }
    if astar.Some? && RewardsAtMost(maze.View(), -1.0) {
      var g := maze.View();
      assert RewardsAtMost(g, 0.0);
      CheapestCostsAgree(g, Four, astar.value, dijkstra.value, g.start, g.goal);
      SolvedPathReport(g, astar.value);
      SolvedPathReport(g, dijkstra.value);
    }
  }

  /** Every cell of a walk that starts inside the grid is inside the grid. */
  lemma WalkInBounds(g: Grid, p: seq<Cell>)
    requires IsWalk(g, Four, p) && InBounds(g, p[0])
    ensures forall i :: 0 <= i < |p| ==> InBounds(g, p[i])
  {
    forall i | 0 <= i < |p| ensures InBounds(g, p[i]) {
      if i > 0 {
        assert IsMove(g, Four, p[i - 1], p[i]);
      }
    }
  }

  /**
   * The comparison's cost of an 8-direction path: each move's multiplier (the diagonal
   * one when both coordinates change by 1, otherwise 1.0) times the target's negated
   * reward, summed. NumPy's indexing demands every cell after the first inside the grid.
   */
  method DiagonalPathCost(maze: DiagonalMaze, path: seq<Cell>) returns (cost: real)
    requires maze.Valid()
    requires forall i :: 1 <= i < |path| ==> InBounds(maze.maze.View(), path[i])
    ensures cost == PathCost(maze.maze.View(), maze.Moves(), path)
  {
    cost := 0.0;
    if |path| == 0 {
      return;
    }
    for i := 0 to |path| - 1
      invariant cost == PathCost(maze.maze.View(), maze.Moves(), path[..i + 1])
    {
      var r1, c1 := path[i].row, path[i].col;
      var r2, c2 := path[i + 1].row, path[i + 1].col;
      var isDiagonal := Abs(r1 - r2) == 1 && Abs(c1 - c2) == 1;
      var mult := if isDiagonal then maze.diagonalCostMultiplier else 1.0;
      PathCostAppend(maze.maze.View(), maze.Moves(), path[..i + 1], path[i + 1]);
      assert path[..i + 1] + [path[i + 1]] == path[..i + 2];
      cost := cost + mult * -maze.maze.rewards[r2][c2];
    }
    assert path[..|path|] == path;
  }
}

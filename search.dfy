/**
 * The best-first searches of `Maze` and `DiagonalMaze`: A* and Dijkstra over a
 * binary-heap open set keyed by `(priority, counter)`, with a cost table, a
 * parent table and a closed set, and the reconstruction of the found path.
 *
 * The four search loops of the source (A* and Dijkstra, each with 4 and with
 * 8 directions) differ only in the neighbour model, the heuristic and the
 * value the relaxation starts from; they are one method here, parametrised by
 * a `Connectivity` and a `Strategy`.
 */
module Search {
  import opened Wrappers
  import opened GridModel

  // ------------------------------------------------------------- strategies

  /** A* with heuristic `h` (priority g + h), or Dijkstra (priority g). */
  datatype Strategy = AStar(h: Cell -> real) | Dijkstra

  /** The heuristic a strategy adds to the cost; Dijkstra adds nothing. */
  function H(s: Strategy, c: Cell): real {
    match s
    case AStar(h) => h(c)
    case Dijkstra => 0.0
  }

  /**
   * The condition under which the search returns a cheapest path: no move costs
   * less than the drop of the heuristic along it. For A* this is a consistent
   * heuristic, for Dijkstra it is non-negative step costs.
   */
  ghost predicate Consistent(g: Grid, conn: Connectivity, s: Strategy) {
    forall a, b :: IsMove(g, conn, a, b) ==> H(s, a) <= StepCost(g, conn, a, b) + H(s, b)
  }

  lemma ConsistentMeans(g: Grid, conn: Connectivity, s: Strategy)
    ensures s.AStar? ==> (Consistent(g, conn, s) <==> ConsistentHeuristic(g, conn, s.h))
    ensures s.Dijkstra? ==> (Consistent(g, conn, s) <==> NonNegativeSteps(g, conn))
  {
  }

  /** Along a walk a consistent heuristic drops by at most the cost of the walk. */
  lemma {:induction false} Telescope(g: Grid, conn: Connectivity, s: Strategy, p: seq<Cell>)
    requires Consistent(g, conn, s) && IsWalk(g, conn, p)
    ensures H(s, p[0]) <= PathCost(g, conn, p) + H(s, Last(p))
    decreases |p|
  {
    if |p| > 1 {
      WalkPieces(g, conn, p, 1);
      Telescope(g, conn, s, p[1..]);
      assert IsMove(g, conn, p[0], p[1]);
    }
  }

  // ------------------------------------------------------------ open set

  /** A heap entry `(priority, counter, cell)`; the counter breaks ties in insertion order. */
  datatype Entry = Entry(priority: real, counter: nat, cell: Cell)

  /** The order `heapq` compares entries in: by priority, then by counter. */
  predicate KeyLe(a: Entry, b: Entry) {
    a.priority < b.priority || (a.priority == b.priority && a.counter <= b.counter)
  }

  /**
   * The index `heappop` takes the entry from: an entry no other entry is below,
   * and the first such one.
   */
  function MinIndex(heap: seq<Entry>): (k: nat)
    requires |heap| > 0
    ensures k < |heap|
    ensures forall j :: 0 <= j < |heap| ==> KeyLe(heap[k], heap[j])
    ensures forall j :: 0 <= j < k ==> !KeyLe(heap[j], heap[k])
  {
    if |heap| == 1 then 0
    else
      var m := MinIndex(heap[..|heap| - 1]);
      if KeyLe(heap[m], heap[|heap| - 1]) then m else |heap| - 1
  }

  /** With distinct counters the entry `heappop` takes is the only minimal one. */
  lemma MinIsUnique(heap: seq<Entry>, j: nat)
    requires |heap| > 0 && j < |heap|
    requires forall a, b :: 0 <= a < b < |heap| ==> heap[a].counter != heap[b].counter
    requires forall i :: 0 <= i < |heap| ==> KeyLe(heap[j], heap[i])
    ensures j == MinIndex(heap)
  {
    var k := MinIndex(heap);
    assert KeyLe(heap[k], heap[j]) && KeyLe(heap[j], heap[k]);
  }

  /** The open set after `heappop` removed the entry at index `k`. */
  function RemoveAt<T>(s: seq<T>, k: nat): (r: seq<T>)
    requires k < |s|
    ensures |r| == |s| - 1
    ensures forall i :: 0 <= i < |r| ==> r[i] == if i < k then s[i] else s[i + 1]
  {
    s[..k] + s[k + 1..]
  }

  lemma RemoveKeeps<T>(s: seq<T>, k: nat, x: T)
    requires k < |s| && x in s && x != s[k]
    ensures x in RemoveAt(s, k)
  {
    var j :| 0 <= j < |s| && s[j] == x;
    var r := RemoveAt(s, k);
    if j < k {
      assert r[j] == x;
    } else {
      assert r[j - 1] == x;
    }
  }

  // ------------------------------------------------------------ search state

  /** The variables of a search: `open_set`, `g_cost` (or `dist`), `came_from`, `closed_set`, `counter`. */
  datatype State = State(
    heap: seq<Entry>,
    gCost: map<Cell, real>,
    cameFrom: map<Cell, Cell>,
    closed: set<Cell>,
    counter: nat)

  /** Which cells have a cost and a parent, and where start and goal stand. */
  ghost predicate KeysOk(g: Grid, gCost: map<Cell, real>, cameFrom: map<Cell, Cell>, closed: set<Cell>) {
    && g.start in gCost
    && gCost.Keys == cameFrom.Keys + {g.start}
    && g.start !in cameFrom
    && gCost[g.start] == 0.0
    && closed <= gCost.Keys
    && g.goal !in closed
    && (closed == {} ==> gCost.Keys == {g.start})
    && (closed != {} ==> g.start in closed)
    && (forall n :: n in gCost ==> n == g.start || IsPassable(g, n))
  }

  /** `rank` numbers the closed cells in the order they were closed. */
  ghost predicate RankOk(closed: set<Cell>, rank: map<Cell, nat>) {
    rank.Keys == closed && forall n :: n in rank ==> rank[n] < |closed|
  }

  /** An entry is never below the current cost of its cell plus the heuristic. */
  ghost predicate EntryOk(s: Strategy, gCost: map<Cell, real>, e: Entry) {
    e.cell in gCost && e.priority >= gCost[e.cell] + H(s, e.cell)
  }

  /**
   * Every entry is bounded by its cell's cost, and every open cell with a cost has
   * an entry (its newest, counter `latest[n]`) whose priority is exactly cost plus heuristic.
   */
  ghost predicate HeapOk(s: Strategy, heap: seq<Entry>, gCost: map<Cell, real>, closed: set<Cell>, latest: map<Cell, nat>) {
    && (forall i :: 0 <= i < |heap| ==> EntryOk(s, gCost, heap[i]))
    && (forall n :: n in gCost && n !in closed ==> n in latest && Entry(gCost[n] + H(s, n), latest[n], n) in heap)
  }

  /** The counters in the open set are distinct and below the next counter. */
  ghost predicate CountersOk(heap: seq<Entry>, counter: nat) {
    && (forall i :: 0 <= i < |heap| ==> heap[i].counter < counter)
    && (forall i, j :: 0 <= i < j < |heap| ==> heap[i].counter != heap[j].counter)
  }

  /** A parent is closed, a move away, and its cost plus the move's cost is the child's cost. */
  ghost predicate ParentOk(g: Grid, conn: Connectivity, gCost: map<Cell, real>, cameFrom: map<Cell, Cell>,
                           closed: set<Cell>, rank: map<Cell, nat>, n: Cell)
    requires n in cameFrom
  {
    var p := cameFrom[n];
    && p in closed && p in gCost && n in gCost
    && IsMove(g, conn, p, n)
    && gCost[n] == gCost[p] + StepCost(g, conn, p, n)
    && (n in closed ==> p in rank && n in rank && rank[p] < rank[n])
  }

  ghost predicate ParentsOk(g: Grid, conn: Connectivity, gCost: map<Cell, real>, cameFrom: map<Cell, Cell>,
                            closed: set<Cell>, rank: map<Cell, nat>) {
    forall n :: n in cameFrom ==> ParentOk(g, conn, gCost, cameFrom, closed, rank, n)
  }

  /** The cost of `x` is at most the cost of every walk from the start to `x`. */
  ghost predicate Optimal(g: Grid, conn: Connectivity, gCost: map<Cell, real>, x: Cell) {
    x in gCost &&
    forall p :: WalkFromTo(g, conn, p, g.start, x) ==> gCost[x] <= PathCost(g, conn, p)
  }

  /** Every closed cell has its least cost. */
  ghost predicate ClosedOptimal(g: Grid, conn: Connectivity, gCost: map<Cell, real>, closed: set<Cell>) {
    forall x :: x in closed ==> Optimal(g, conn, gCost, x)
  }

  /** The invariant of the search loop. */
  ghost predicate Inv(g: Grid, conn: Connectivity, s: Strategy, st: State, rank: map<Cell, nat>, latest: map<Cell, nat>) {
    && KeysOk(g, st.gCost, st.cameFrom, st.closed)
    && RankOk(st.closed, rank)
    && HeapOk(s, st.heap, st.gCost, st.closed, latest)
    && CountersOk(st.heap, st.counter)
    && ParentsOk(g, conn, st.gCost, st.cameFrom, st.closed, rank)
    && (Consistent(g, conn, s) ==> ClosedOptimal(g, conn, st.gCost, st.closed))
  }

  /** The move from `x` to `b` has been relaxed: `b` has a cost, at most the one through `x` while `b` is open. */
  ghost predicate Handled(g: Grid, conn: Connectivity, gCost: map<Cell, real>, closed: set<Cell>, x: Cell, b: Cell) {
    b in gCost && (b !in closed ==> x in gCost && gCost[b] <= gCost[x] + StepCost(g, conn, x, b))
  }

  /** Every move out of `x` has been relaxed. */
  ghost predicate Explored(g: Grid, conn: Connectivity, gCost: map<Cell, real>, closed: set<Cell>, x: Cell) {
    forall b :: IsMove(g, conn, x, b) ==> Handled(g, conn, gCost, closed, x, b)
  }

  /** Every closed cell outside `skip` has been expanded. */
  ghost predicate ExploredExcept(g: Grid, conn: Connectivity, gCost: map<Cell, real>, closed: set<Cell>, skip: set<Cell>) {
    forall x :: x in closed && x !in skip ==> Explored(g, conn, gCost, closed, x)
  }

  /** The cells a search can ever give a cost to: those of the grid, and the start. */
  function Universe(g: Grid): set<Cell> {
    (set r: int, c: int | 0 <= r < g.height && 0 <= c < g.width :: Cell(r, c)) + {g.start}
  }

  lemma Shrinks(u: set<Cell>, c: set<Cell>, x: Cell)
    requires x in u && x !in c
    ensures |u - (c + {x})| < |u - c|
  {
    assert u - (c + {x}) == (u - c) - {x};
  }

  // ------------------------------------------------------- start and pop

  lemma InitOk(g: Grid, conn: Connectivity, s: Strategy)
    ensures var st := State([Entry(H(s, g.start), 0, g.start)], map[g.start := 0.0], map[], {}, 1);
            Inv(g, conn, s, st, map[], map[g.start := 0]) && ExploredExcept(g, conn, st.gCost, st.closed, {})
  {
    var st := State([Entry(H(s, g.start), 0, g.start)], map[g.start := 0.0], map[], {}, 1);
    assert KeysOk(g, st.gCost, st.cameFrom, st.closed);
    assert RankOk(st.closed, map[]);
    assert Entry(st.gCost[g.start] + H(s, g.start), 0, g.start) == st.heap[0];
    assert HeapOk(s, st.heap, st.gCost, st.closed, map[g.start := 0]);
    assert CountersOk(st.heap, st.counter);
    assert ParentsOk(g, conn, st.gCost, st.cameFrom, st.closed, map[]);
  }

  /** The entry from `heappop`, when its cell is open, carries exactly that cell's cost plus heuristic. */
  lemma PopExact(s: Strategy, heap: seq<Entry>, gCost: map<Cell, real>, closed: set<Cell>, latest: map<Cell, nat>)
    requires HeapOk(s, heap, gCost, closed, latest) && |heap| > 0
    requires heap[MinIndex(heap)].cell !in closed
    ensures heap[MinIndex(heap)].cell in gCost
    ensures var e := heap[MinIndex(heap)]; e.priority == gCost[e.cell] + H(s, e.cell)
  {
    var k := MinIndex(heap);
    var e := heap[k];
    var n := e.cell;
    assert EntryOk(s, gCost, e);
    var l := Entry(gCost[n] + H(s, n), latest[n], n);
    assert l in heap;
    var j :| 0 <= j < |heap| && heap[j] == l;
    assert KeyLe(e, heap[j]);
  }

  /** Taking an entry out of the open set, and closing its cell, keeps the open set's invariants. */
  lemma PopHeap(s: Strategy, heap: seq<Entry>, gCost: map<Cell, real>, closed: set<Cell>, latest: map<Cell, nat>,
                counter: nat, k: nat)
    requires HeapOk(s, heap, gCost, closed, latest) && CountersOk(heap, counter) && k < |heap|
    ensures HeapOk(s, RemoveAt(heap, k), gCost, closed + {heap[k].cell}, latest)
    ensures CountersOk(RemoveAt(heap, k), counter)
  {
    var heap' := RemoveAt(heap, k);
    forall i | 0 <= i < |heap'|
      ensures EntryOk(s, gCost, heap'[i])
    {
      assert EntryOk(s, gCost, heap[if i < k then i else i + 1]);
    }
    forall n | n in gCost && n !in closed + {heap[k].cell}
      ensures n in latest && Entry(gCost[n] + H(s, n), latest[n], n) in heap'
    {
      RemoveKeeps(heap, k, Entry(gCost[n] + H(s, n), latest[n], n));
    }
    forall i, j | 0 <= i < j < |heap'|
      ensures heap'[i].counter != heap'[j].counter
    {
      var i', j' := if i < k then i else i + 1, if j < k then j else j + 1;
      assert heap'[i] == heap[i'] && heap'[j] == heap[j'];
    }
  }

  /** The first cell of `p` outside `c`, given that the last one is outside. */
  lemma FirstOutside(p: seq<Cell>, c: set<Cell>) returns (k: nat)
    requires |p| > 0 && Last(p) !in c
    ensures k < |p| && p[k] !in c
    ensures forall j :: 0 <= j < k ==> p[j] in c
  {
    k := 0;
    while p[k] in c
      invariant k < |p|
      invariant forall j :: 0 <= j < k ==> p[j] in c
      decreases |p| - k
    {
      k := k + 1;
    }
  }

  /**
   * A walk from the start whose cells before `k` are closed reaches `p[k]` no cheaper
   * than the cost table says, when `p[k]` is open.
   */
  lemma EnterBound(g: Grid, conn: Connectivity, gCost: map<Cell, real>, cameFrom: map<Cell, Cell>, closed: set<Cell>,
                   p: seq<Cell>, k: nat)
    requires KeysOk(g, gCost, cameFrom, closed) && ClosedOptimal(g, conn, gCost, closed)
    requires ExploredExcept(g, conn, gCost, closed, {})
    requires IsWalk(g, conn, p) && p[0] == g.start
    requires k < |p| && p[k] !in closed && forall j :: 0 <= j < k ==> p[j] in closed
    ensures p[k] in gCost && gCost[p[k]] <= PathCost(g, conn, p[..k + 1])
  {
    var y := p[k];
    if k == 0 {
      assert p[..1] == [y];
    } else {
      var x := p[k - 1];
      assert IsMove(g, conn, x, y);
      assert Explored(g, conn, gCost, closed, x);
      assert Handled(g, conn, gCost, closed, x, y);
      WalkPieces(g, conn, p, k - 1);
      assert WalkFromTo(g, conn, p[..k], g.start, x);
      assert Optimal(g, conn, gCost, x);
      PathCostAppend(g, conn, p[..k], y);
      assert p[..k] + [y] == p[..k + 1];
    }
  }

  /** No entry of the open set is below the popped one, in particular not that of an open cell `y`. */
  lemma HeapBound(s: Strategy, heap: seq<Entry>, gCost: map<Cell, real>, closed: set<Cell>, latest: map<Cell, nat>,
                  e: Entry, y: Cell)
    requires HeapOk(s, heap, gCost, closed, latest) && y in gCost && y !in closed
    requires forall j :: 0 <= j < |heap| ==> KeyLe(e, heap[j])
    ensures e.priority <= gCost[y] + H(s, y)
  {
    var l := Entry(gCost[y] + H(s, y), latest[y], y);
    assert l in heap;
    var j :| 0 <= j < |heap| && heap[j] == l;
    assert KeyLe(e, heap[j]);
  }

  /** Cutting a walk at `k`: the costs of the pieces add up and the heuristic drops by at most the second. */
  lemma TailBound(g: Grid, conn: Connectivity, s: Strategy, p: seq<Cell>, k: nat)
    requires Consistent(g, conn, s) && IsWalk(g, conn, p) && k < |p|
    ensures PathCost(g, conn, p) == PathCost(g, conn, p[..k + 1]) + PathCost(g, conn, p[k..])
    ensures H(s, p[k]) <= PathCost(g, conn, p[k..]) + H(s, Last(p))
  {
    WalkPieces(g, conn, p, k);
    Telescope(g, conn, s, p[k..]);
    PathCostSplit(g, conn, p, k);
  }

  /**
   * With a consistent strategy, the cell `heappop` returns, when open, already has its
   * least cost: a walk from the start to it leaves the closed set at some open cell `y`,
   * whose entry is no smaller than the popped one, and the heuristic bounds what the
   * rest of the walk can save.
   */
  lemma PoppedIsOptimal(g: Grid, conn: Connectivity, s: Strategy, st: State, latest: map<Cell, nat>)
    requires KeysOk(g, st.gCost, st.cameFrom, st.closed) && HeapOk(s, st.heap, st.gCost, st.closed, latest)
    requires ClosedOptimal(g, conn, st.gCost, st.closed) && ExploredExcept(g, conn, st.gCost, st.closed, {})
    requires Consistent(g, conn, s)
    requires |st.heap| > 0 && st.heap[MinIndex(st.heap)].cell !in st.closed
    ensures Optimal(g, conn, st.gCost, st.heap[MinIndex(st.heap)].cell)
  {
    var e := st.heap[MinIndex(st.heap)];
    PopExact(s, st.heap, st.gCost, st.closed, latest);
    forall p | WalkFromTo(g, conn, p, g.start, e.cell)
      ensures st.gCost[e.cell] <= PathCost(g, conn, p)
    {
      var k := FirstOutside(p, st.closed);
      EnterBound(g, conn, st.gCost, st.cameFrom, st.closed, p, k);
      HeapBound(s, st.heap, st.gCost, st.closed, latest, e, p[k]);
      TailBound(g, conn, s, p, k);
    }
  }

  // ------------------------------------------------------------ closing

  lemma CloseKeys(g: Grid, gCost: map<Cell, real>, cameFrom: map<Cell, Cell>, closed: set<Cell>, n: Cell)
    requires KeysOk(g, gCost, cameFrom, closed) && n in gCost && n != g.goal
    ensures KeysOk(g, gCost, cameFrom, closed + {n})
  {
    assert n == g.start || g.start in closed;
  }

  lemma CloseRank(closed: set<Cell>, rank: map<Cell, nat>, n: Cell)
    requires RankOk(closed, rank) && n !in closed
    ensures RankOk(closed + {n}, rank[n := |closed|])
  {
  }

  lemma CloseParents(g: Grid, conn: Connectivity, gCost: map<Cell, real>, cameFrom: map<Cell, Cell>,
                     closed: set<Cell>, rank: map<Cell, nat>, n: Cell)
    requires ParentsOk(g, conn, gCost, cameFrom, closed, rank) && RankOk(closed, rank) && n !in closed
    ensures ParentsOk(g, conn, gCost, cameFrom, closed + {n}, rank[n := |closed|])
  {
    forall m | m in cameFrom
      ensures ParentOk(g, conn, gCost, cameFrom, closed + {n}, rank[n := |closed|], m)
    {
      assert ParentOk(g, conn, gCost, cameFrom, closed, rank, m);
    }
  }

  lemma CloseExplored(g: Grid, conn: Connectivity, gCost: map<Cell, real>, closed: set<Cell>, n: Cell)
    requires ExploredExcept(g, conn, gCost, closed, {})
    ensures ExploredExcept(g, conn, gCost, closed + {n}, {n})
  {
    forall x | x in closed + {n} && x !in {n}
      ensures Explored(g, conn, gCost, closed + {n}, x)
    {
      assert Explored(g, conn, gCost, closed, x);
    }
  }

  /** Closing the popped open cell (not the goal) keeps the invariant; all but it stay expanded. */
  lemma CloseStep(g: Grid, conn: Connectivity, s: Strategy, st: State, rank: map<Cell, nat>, latest: map<Cell, nat>)
    requires Inv(g, conn, s, st, rank, latest) && ExploredExcept(g, conn, st.gCost, st.closed, {})
    requires |st.heap| > 0
    requires st.heap[MinIndex(st.heap)].cell !in st.closed && st.heap[MinIndex(st.heap)].cell != g.goal
    ensures var k := MinIndex(st.heap);
            var n := st.heap[k].cell;
            var st' := State(RemoveAt(st.heap, k), st.gCost, st.cameFrom, st.closed + {n}, st.counter);
            Inv(g, conn, s, st', rank[n := |st.closed|], latest) && ExploredExcept(g, conn, st'.gCost, st'.closed, {n})
  {
    var k := MinIndex(st.heap);
    var n := st.heap[k].cell;
    assert EntryOk(s, st.gCost, st.heap[k]);
    PopHeap(s, st.heap, st.gCost, st.closed, latest, st.counter, k);
    CloseKeys(g, st.gCost, st.cameFrom, st.closed, n);
    CloseRank(st.closed, rank, n);
    CloseParents(g, conn, st.gCost, st.cameFrom, st.closed, rank, n);
    if Consistent(g, conn, s) {
      PoppedIsOptimal(g, conn, s, st, latest);
    }
    CloseExplored(g, conn, st.gCost, st.closed, n);
  }

  // --------------------------------------------------------- relaxation

  lemma RelaxKeys(g: Grid, gCost: map<Cell, real>, cameFrom: map<Cell, Cell>, closed: set<Cell>,
                  current: Cell, nb: Cell, t: real)
    requires KeysOk(g, gCost, cameFrom, closed) && current in closed && nb !in closed && IsPassable(g, nb)
    ensures KeysOk(g, gCost[nb := t], cameFrom[nb := current], closed)
  {
    assert nb != g.start;
  }

  lemma RelaxHeap(s: Strategy, heap: seq<Entry>, gCost: map<Cell, real>, closed: set<Cell>, latest: map<Cell, nat>,
                  counter: nat, nb: Cell, t: real)
    requires HeapOk(s, heap, gCost, closed, latest) && nb !in closed && (nb !in gCost || t < gCost[nb])
    ensures HeapOk(s, heap + [Entry(t + H(s, nb), counter, nb)], gCost[nb := t], closed, latest[nb := counter])
  {
    var heap' := heap + [Entry(t + H(s, nb), counter, nb)];
    forall i | 0 <= i < |heap'|
      ensures EntryOk(s, gCost[nb := t], heap'[i])
    {
      if i < |heap| {
        assert EntryOk(s, gCost, heap[i]);
      }
    }
    forall m | m in gCost[nb := t] && m !in closed
      ensures m in latest[nb := counter] && Entry(gCost[nb := t][m] + H(s, m), latest[nb := counter][m], m) in heap'
    {
      if m != nb {
        assert Entry(gCost[m] + H(s, m), latest[m], m) in heap;
      } else {
        assert heap'[|heap|] == Entry(t + H(s, nb), counter, nb);
      }
    }
  }

  lemma RelaxCounters(heap: seq<Entry>, counter: nat, e: Entry)
    requires CountersOk(heap, counter) && e.counter == counter
    ensures CountersOk(heap + [e], counter + 1)
  {
  }

  lemma RelaxParents(g: Grid, conn: Connectivity, gCost: map<Cell, real>, cameFrom: map<Cell, Cell>,
                     closed: set<Cell>, rank: map<Cell, nat>, current: Cell, nb: Cell, t: real)
    requires ParentsOk(g, conn, gCost, cameFrom, closed, rank)
    requires current in closed && current in gCost && nb !in closed && IsMove(g, conn, current, nb)
    requires t == gCost[current] + StepCost(g, conn, current, nb)
    ensures ParentsOk(g, conn, gCost[nb := t], cameFrom[nb := current], closed, rank)
  {
    forall m | m in cameFrom || m == nb
      ensures ParentOk(g, conn, gCost[nb := t], cameFrom[nb := current], closed, rank, m)
    {
      if m != nb {
        assert ParentOk(g, conn, gCost, cameFrom, closed, rank, m);
      }
    }
  }

  lemma RelaxOptimal(g: Grid, conn: Connectivity, gCost: map<Cell, real>, closed: set<Cell>, nb: Cell, t: real)
    requires ClosedOptimal(g, conn, gCost, closed) && nb !in closed
    ensures ClosedOptimal(g, conn, gCost[nb := t], closed)
  {
    forall x | x in closed
      ensures Optimal(g, conn, gCost[nb := t], x)
    {
      assert Optimal(g, conn, gCost, x);
    }
  }

  /** Lowering the cost of an open cell keeps every relaxation out of a closed cell done. */
  lemma RelaxHandled(g: Grid, conn: Connectivity, gCost: map<Cell, real>, closed: set<Cell>, nb: Cell, t: real,
                     x: Cell, b: Cell)
    requires nb !in closed && (nb !in gCost || t < gCost[nb])
    requires x in closed && Handled(g, conn, gCost, closed, x, b)
    ensures Handled(g, conn, gCost[nb := t], closed, x, b)
  {
  }

  lemma RelaxExplored(g: Grid, conn: Connectivity, gCost: map<Cell, real>, closed: set<Cell>, current: Cell,
                      nb: Cell, t: real)
    requires ExploredExcept(g, conn, gCost, closed, {current}) && nb !in closed && (nb !in gCost || t < gCost[nb])
    ensures ExploredExcept(g, conn, gCost[nb := t], closed, {current})
  {
    forall x, b | x in closed && x !in {current} && IsMove(g, conn, x, b)
      ensures Handled(g, conn, gCost[nb := t], closed, x, b)
    {
      assert Explored(g, conn, gCost, closed, x);
      RelaxHandled(g, conn, gCost, closed, nb, t, x, b);
    }
  }

  /** A relaxation that lowers (or first sets) the cost of an open neighbour keeps the invariant. */
  lemma RelaxStep(g: Grid, conn: Connectivity, s: Strategy, st: State, rank: map<Cell, nat>, latest: map<Cell, nat>,
                  current: Cell, nb: Cell, t: real)
    requires Inv(g, conn, s, st, rank, latest) && ExploredExcept(g, conn, st.gCost, st.closed, {current})
    requires current in st.closed && current in st.gCost && nb !in st.closed && IsMove(g, conn, current, nb)
    requires t == st.gCost[current] + StepCost(g, conn, current, nb)
    requires nb !in st.gCost || t < st.gCost[nb]
    ensures var st' := State(st.heap + [Entry(t + H(s, nb), st.counter, nb)], st.gCost[nb := t],
                             st.cameFrom[nb := current], st.closed, st.counter + 1);
            && Inv(g, conn, s, st', rank, latest[nb := st.counter])
            && ExploredExcept(g, conn, st'.gCost, st'.closed, {current})
            && Handled(g, conn, st'.gCost, st'.closed, current, nb)
  {
    RelaxKeys(g, st.gCost, st.cameFrom, st.closed, current, nb, t);
    RelaxHeap(s, st.heap, st.gCost, st.closed, latest, st.counter, nb, t);
    RelaxCounters(st.heap, st.counter, Entry(t + H(s, nb), st.counter, nb));
    RelaxParents(g, conn, st.gCost, st.cameFrom, st.closed, rank, current, nb, t);
    if Consistent(g, conn, s) {
      RelaxOptimal(g, conn, st.gCost, st.closed, nb, t);
    }
    RelaxExplored(g, conn, st.gCost, st.closed, current, nb, t);
  }

  /** Once every listed neighbour of `current` is relaxed, `current` is expanded. */
  lemma FinishExpansion(g: Grid, conn: Connectivity, gCost: map<Cell, real>, closed: set<Cell>, current: Cell)
    requires ExploredExcept(g, conn, gCost, closed, {current})
    requires HandledPrefix(g, conn, gCost, closed, current, Neighbors(g, conn, current), |Neighbors(g, conn, current)|)
    ensures ExploredExcept(g, conn, gCost, closed, {})
  {
    var ns := Neighbors(g, conn, current);
    forall b | IsMove(g, conn, current, b)
      ensures Handled(g, conn, gCost, closed, current, b)
    {
      NeighborsSpec(g, conn, current, b, StepMult(conn, current, b));
      var j :| 0 <= j < |ns| && ns[j] == Move(b, StepMult(conn, current, b));
      assert ns[j].target == b;
    }
    assert Explored(g, conn, gCost, closed, current);
  }

  // -------------------------------------------------------- exhaustion

  /** Every cell of a walk that starts in a move-closed set stays in it. */
  lemma {:induction false} WalkStaysIn(g: Grid, conn: Connectivity, c: set<Cell>, p: seq<Cell>)
    requires IsWalk(g, conn, p) && p[0] in c
    requires forall a, b :: a in c && IsMove(g, conn, a, b) ==> b in c
    ensures Last(p) in c
    decreases |p|
  {
    if |p| > 1 {
      assert IsMove(g, conn, p[0], p[1]);
      WalkPieces(g, conn, p, 1);
      WalkStaysIn(g, conn, c, p[1..]);
    }
  }

  /** An exhausted open set means every cell with a cost is closed and no walk reaches the goal. */
  lemma ExhaustedUnreachable(g: Grid, conn: Connectivity, s: Strategy, gCost: map<Cell, real>,
                             cameFrom: map<Cell, Cell>, closed: set<Cell>, latest: map<Cell, nat>)
    requires KeysOk(g, gCost, cameFrom, closed) && HeapOk(s, [], gCost, closed, latest)
    requires ExploredExcept(g, conn, gCost, closed, {})
    ensures !Reachable(g, conn, g.start, g.goal)
  {
    forall a, b | a in closed && IsMove(g, conn, a, b)
      ensures b in closed
    {
      assert Explored(g, conn, gCost, closed, a);
      assert Handled(g, conn, gCost, closed, a, b);
    }
    if Reachable(g, conn, g.start, g.goal) {
      var p :| WalkFromTo(g, conn, p, g.start, g.goal);
      WalkStaysIn(g, conn, closed, p);
    }
  }

  // ------------------------------------------------------- reconstruction

  /** Every parent is ranked, below its child when the child is ranked too. */
  ghost predicate RankedParents(cameFrom: map<Cell, Cell>, rank: map<Cell, nat>, bound: nat) {
    && (forall n :: n in rank ==> rank[n] < bound)
    && (forall n :: n in cameFrom ==> cameFrom[n] in rank && (n in rank ==> rank[cameFrom[n]] < rank[n]))
  }

  lemma ParentsRanked(g: Grid, conn: Connectivity, gCost: map<Cell, real>, cameFrom: map<Cell, Cell>,
                      closed: set<Cell>, rank: map<Cell, nat>)
    requires ParentsOk(g, conn, gCost, cameFrom, closed, rank) && RankOk(closed, rank)
    ensures RankedParents(cameFrom, rank, |closed|)
  {
    forall n | n in cameFrom
      ensures cameFrom[n] in rank && (n in rank ==> rank[cameFrom[n]] < rank[n])
    {
      assert ParentOk(g, conn, gCost, cameFrom, closed, rank, n);
    }
  }

  ghost function Height(rank: map<Cell, nat>, bound: nat, c: Cell): nat {
    if c in rank then rank[c] else bound
  }

  /**
   * `_reconstruct_path`: follows `came_from` back from `current` to a cell without
   * a parent. The path comes out from that cell to `current`, each cell the parent
   * of the next, no cell twice.
   */
  method ReconstructPath(cameFrom: map<Cell, Cell>, current: Cell, ghost rank: map<Cell, nat>, ghost bound: nat)
    returns (path: seq<Cell>)
    requires RankedParents(cameFrom, rank, bound)
    ensures |path| >= 1 && Last(path) == current && path[0] !in cameFrom
    ensures forall i :: 0 < i < |path| ==> path[i] in cameFrom && cameFrom[path[i]] == path[i - 1]
    ensures Distinct(path)
    ensures current !in cameFrom ==> path == [current]
  {
    var cur := current;
    path := [cur];
    while cur in cameFrom
      invariant |path| >= 1 && path[0] == cur && Last(path) == current
      invariant forall i :: 0 < i < |path| ==> path[i] in cameFrom && cameFrom[path[i]] == path[i - 1]
      invariant forall i, j :: 0 <= i < j < |path| ==> path[i] in rank && (path[j] in rank ==> rank[path[i]] < rank[path[j]])
      decreases Height(rank, bound, cur)
    {
      var parent := cameFrom[cur];
      path := [parent] + path;
      cur := parent;
    }
    forall i, j | 0 <= i < j < |path|
      ensures path[i] != path[j]
    {
      assert path[i] in rank;
    }
  }

  /** Along `path` the cost table starts at 0 and grows by each move's step cost. */
  ghost predicate CostsFollow(g: Grid, conn: Connectivity, gCost: map<Cell, real>, path: seq<Cell>) {
    && |path| >= 1 && path[0] in gCost && gCost[path[0]] == 0.0
    && forall i :: 0 < i < |path| ==> StepFollows(g, conn, gCost, path[i - 1], path[i])
  }

  /** The cost table grows by the step cost of the move from `a` to `b`. */
  ghost predicate StepFollows(g: Grid, conn: Connectivity, gCost: map<Cell, real>, a: Cell, b: Cell) {
    a in gCost && b in gCost && gCost[b] == gCost[a] + StepCost(g, conn, a, b)
  }

  /** Then the cost table holds the cost of the path so far. */
  lemma {:induction false} ChainCost(g: Grid, conn: Connectivity, gCost: map<Cell, real>, path: seq<Cell>, j: nat)
    requires CostsFollow(g, conn, gCost, path) && j < |path|
    ensures path[j] in gCost && gCost[path[j]] == PathCost(g, conn, path[..j + 1])
  {
    if j == 0 {
      assert path[..1] == [path[0]];
    } else {
      ChainCost(g, conn, gCost, path, j - 1);
      PathCostAppend(g, conn, path[..j], path[j]);
      assert path[..j] + [path[j]] == path[..j + 1];
    }
  }

  /** The reconstructed path is a walk from the start whose cost is the cost table's entry of its end. */
  lemma ChainIsWalk(g: Grid, conn: Connectivity, gCost: map<Cell, real>, cameFrom: map<Cell, Cell>,
                    closed: set<Cell>, rank: map<Cell, nat>, path: seq<Cell>)
    requires KeysOk(g, gCost, cameFrom, closed) && ParentsOk(g, conn, gCost, cameFrom, closed, rank)
    requires |path| >= 1 && Last(path) in gCost && path[0] !in cameFrom
    requires forall i :: 0 < i < |path| ==> path[i] in cameFrom && cameFrom[path[i]] == path[i - 1]
    ensures IsWalk(g, conn, path) && path[0] == g.start
    ensures gCost[Last(path)] == PathCost(g, conn, path)
  {
    forall i | 0 < i < |path|
      ensures IsMove(g, conn, path[i - 1], path[i])
      ensures StepFollows(g, conn, gCost, path[i - 1], path[i])
    {
      assert ParentOk(g, conn, gCost, cameFrom, closed, rank, path[i]);
    }
    if |path| > 1 {
      assert ParentOk(g, conn, gCost, cameFrom, closed, rank, path[1]);
    }
    assert forall i :: 0 <= i < |path| - 1 ==> IsMove(g, conn, path[i], path[(i + 1) - 1 + 1]);
    ChainCost(g, conn, gCost, path, |path| - 1);
    assert path[..|path|] == path;
  }

  // ------------------------------------------------------------ expansion

  /** A listed neighbour is a move, and its multiplier times its negated reward is the move's cost. */
  lemma MoveCost(g: Grid, conn: Connectivity, current: Cell, mv: Move)
    requires mv in Neighbors(g, conn, current)
    ensures IsMove(g, conn, current, mv.target)
    ensures mv.mult * -Reward(g, mv.target) == StepCost(g, conn, current, mv.target)
  {
    NeighborsSpec(g, conn, current, mv.target, mv.mult);
    assert mv == Move(mv.target, mv.mult);
  }

  /** The cost of entering the listed neighbour `mv.target`: its negated reward, times the diagonal multiplier. */
  method EnterCost(g: Grid, conn: Connectivity, current: Cell, mv: Move) returns (cost: real)
    requires mv in Neighbors(g, conn, current)
    ensures IsMove(g, conn, current, mv.target) && cost == StepCost(g, conn, current, mv.target)
  {
    MoveCost(g, conn, current, mv);
    cost := mv.mult * -Reward(g, mv.target);
  }

  /** The relaxing branch of `RelaxNeighbor`: the new state keeps everything its loop needs. */
  lemma RelaxKeeps(g: Grid, conn: Connectivity, s: Strategy, st: State, rank: map<Cell, nat>, latest: map<Cell, nat>,
                   current: Cell, nb: Cell, t: real)
    requires Inv(g, conn, s, st, rank, latest) && ExploredExcept(g, conn, st.gCost, st.closed, {current})
    requires current in st.closed && current in st.gCost && nb !in st.closed && IsMove(g, conn, current, nb)
    requires t == st.gCost[current] + StepCost(g, conn, current, nb)
    requires nb !in st.gCost || t < st.gCost[nb]
    ensures var st' := State(st.heap + [Entry(t + H(s, nb), st.counter, nb)], st.gCost[nb := t],
                             st.cameFrom[nb := current], st.closed, st.counter + 1);
            && Inv(g, conn, s, st', rank, latest[nb := st.counter])
            && ExploredExcept(g, conn, st'.gCost, st'.closed, {current})
            && current in st'.gCost && st'.gCost[current] == st.gCost[current]
            && Handled(g, conn, st'.gCost, st'.closed, current, nb)
            && forall b :: Handled(g, conn, st.gCost, st.closed, current, b) ==> Handled(g, conn, st'.gCost, st'.closed, current, b)
  {
    RelaxStep(g, conn, s, st, rank, latest, current, nb, t);
    KeepHandled(g, conn, st.gCost, st.closed, nb, t, current);
    assert nb != current;
  }

  /** A neighbour that is closed, or already as cheap, is relaxed as it stands. */
  lemma SkipHandled(g: Grid, conn: Connectivity, s: Strategy, st: State, rank: map<Cell, nat>, latest: map<Cell, nat>,
                    current: Cell, nb: Cell, t: real)
    requires Inv(g, conn, s, st, rank, latest)
    requires current in st.gCost && t == st.gCost[current] + StepCost(g, conn, current, nb)
    requires nb in st.closed || (nb in st.gCost && t >= st.gCost[nb])
    ensures Handled(g, conn, st.gCost, st.closed, current, nb)
  {
  }

  /** Lowering the cost of an open cell keeps every move already relaxed out of `current` relaxed. */
  lemma KeepHandled(g: Grid, conn: Connectivity, gCost: map<Cell, real>, closed: set<Cell>, nb: Cell, t: real,
                    current: Cell)
    requires nb !in closed && (nb !in gCost || t < gCost[nb]) && current in closed
    ensures forall b :: Handled(g, conn, gCost, closed, current, b) ==> Handled(g, conn, gCost[nb := t], closed, current, b)
  {
    forall b | Handled(g, conn, gCost, closed, current, b)
      ensures Handled(g, conn, gCost[nb := t], closed, current, b)
    {
      RelaxHandled(g, conn, gCost, closed, nb, t, current, b);
    }
  }

  /**
   * One pass of the loop over the neighbours: a neighbour `nb` that is not closed and
   * either has no cost yet or a higher one than through `current` gets the lower cost,
   * `current` as its parent, and a new entry in the open set; otherwise nothing changes.
   */
  method RelaxNeighbor(g: Grid, conn: Connectivity, s: Strategy, st0: State, current: Cell, currentG: real,
                       mv: Move, ghost rank: map<Cell, nat>, ghost latest0: map<Cell, nat>)
    returns (st: State, ghost latest: map<Cell, nat>)
    requires Inv(g, conn, s, st0, rank, latest0) && ExploredExcept(g, conn, st0.gCost, st0.closed, {current})
    requires current in st0.closed && current in st0.gCost && currentG == st0.gCost[current]
    requires mv in Neighbors(g, conn, current)
    ensures Inv(g, conn, s, st, rank, latest) && ExploredExcept(g, conn, st.gCost, st.closed, {current})
    ensures st.closed == st0.closed && current in st.gCost && st.gCost[current] == currentG
    ensures Handled(g, conn, st.gCost, st.closed, current, mv.target)
    ensures forall b :: Handled(g, conn, st0.gCost, st0.closed, current, b) ==> Handled(g, conn, st.gCost, st.closed, current, b)
  {
    st, latest := st0, latest0;
    var nb := mv.target;
    var cost := EnterCost(g, conn, current, mv);
    var tentative := currentG + cost;
    if nb in st.closed || (nb in st.gCost && tentative >= st.gCost[nb]) {
      SkipHandled(g, conn, s, st, rank, latest, current, nb, tentative);
    } else {
      RelaxKeeps(g, conn, s, st, rank, latest, current, nb, tentative);
      latest := latest[nb := st.counter];
      st := State(st.heap + [Entry(tentative + H(s, nb), st.counter, nb)], st.gCost[nb := tentative],
                  st.cameFrom[nb := current], st.closed, st.counter + 1);
    }
  }

  /** The moves out of `current` to the first `i` listed neighbours have been relaxed. */
  ghost predicate HandledPrefix(g: Grid, conn: Connectivity, gCost: map<Cell, real>, closed: set<Cell>,
                                current: Cell, ns: seq<Move>, i: nat)
    requires i <= |ns|
  {
    forall j :: 0 <= j < i ==> Handled(g, conn, gCost, closed, current, ns[j].target)
  }

  /** One more relaxed neighbour, on a state that keeps the relaxations done so far, extends the prefix. */
  lemma HandledExtend(g: Grid, conn: Connectivity, gCost: map<Cell, real>, closed: set<Cell>,
                      gCost': map<Cell, real>, closed': set<Cell>, current: Cell, ns: seq<Move>, i: nat)
    requires i < |ns| && HandledPrefix(g, conn, gCost, closed, current, ns, i)
    requires forall b :: Handled(g, conn, gCost, closed, current, b) ==> Handled(g, conn, gCost', closed', current, b)
    requires Handled(g, conn, gCost', closed', current, ns[i].target)
    ensures HandledPrefix(g, conn, gCost', closed', current, ns, i + 1)
  {
    forall j | 0 <= j < i + 1
      ensures Handled(g, conn, gCost', closed', current, ns[j].target)
    {
      if j < i {
        assert Handled(g, conn, gCost, closed, current, ns[j].target);
      }
    }
  }

  /**
   * The `for` loop over the neighbours of the cell just closed; afterwards that cell
   * is expanded too.
   */
  method Expand(g: Grid, conn: Connectivity, s: Strategy, st0: State, current: Cell, currentG: real,
                ghost rank: map<Cell, nat>, ghost latest0: map<Cell, nat>)
    returns (st: State, ghost latest: map<Cell, nat>)
    requires Inv(g, conn, s, st0, rank, latest0) && ExploredExcept(g, conn, st0.gCost, st0.closed, {current})
    requires current in st0.closed && current in st0.gCost && currentG == st0.gCost[current]
    ensures Inv(g, conn, s, st, rank, latest) && ExploredExcept(g, conn, st.gCost, st.closed, {})
    ensures st.closed == st0.closed
  {
    st, latest := st0, latest0;
    var ns := GetNeighbors(g, conn, current);
    for i := 0 to |ns|
      invariant Inv(g, conn, s, st, rank, latest) && ExploredExcept(g, conn, st.gCost, st.closed, {current})
      invariant st.closed == st0.closed
      invariant current in st.gCost && currentG == st.gCost[current]
      invariant HandledPrefix(g, conn, st.gCost, st.closed, current, ns, i)
    {
      ghost var before := st;
      st, latest := RelaxNeighbor(g, conn, s, st, current, currentG, ns[i], rank, latest);
      HandledExtend(g, conn, before.gCost, before.closed, st.gCost, st.closed, current, ns, i);
    }
    FinishExpansion(g, conn, st.gCost, st.closed, current);
  }

  // ------------------------------------------------------------ the search

  /** Popping an entry whose cell is already closed changes nothing but the open set. */
  lemma StaleStep(g: Grid, conn: Connectivity, s: Strategy, st: State, rank: map<Cell, nat>, latest: map<Cell, nat>)
    requires Inv(g, conn, s, st, rank, latest) && ExploredExcept(g, conn, st.gCost, st.closed, {})
    requires |st.heap| > 0 && st.heap[MinIndex(st.heap)].cell in st.closed
    ensures var st' := st.(heap := RemoveAt(st.heap, MinIndex(st.heap)));
            Inv(g, conn, s, st', rank, latest) && ExploredExcept(g, conn, st'.gCost, st'.closed, {})
  {
    var k := MinIndex(st.heap);
    PopHeap(s, st.heap, st.gCost, st.closed, latest, st.counter, k);
    AbsorbClosed(s, RemoveAt(st.heap, k), st.gCost, st.closed, latest, st.heap[k].cell);
    NewHeap(g, conn, s, st, rank, latest, RemoveAt(st.heap, k));
  }

  lemma AbsorbClosed(s: Strategy, heap: seq<Entry>, gCost: map<Cell, real>, closed: set<Cell>, latest: map<Cell, nat>, c: Cell)
    requires c in closed && HeapOk(s, heap, gCost, closed + {c}, latest)
    ensures HeapOk(s, heap, gCost, closed, latest)
  {
    assert closed + {c} == closed;
  }

  /** A state keeps the invariant when its heap is replaced by one that keeps the heap's part of it. */
  lemma NewHeap(g: Grid, conn: Connectivity, s: Strategy, st: State, rank: map<Cell, nat>, latest: map<Cell, nat>, heap: seq<Entry>)
    requires Inv(g, conn, s, st, rank, latest) && ExploredExcept(g, conn, st.gCost, st.closed, {})
    requires HeapOk(s, heap, st.gCost, st.closed, latest) && CountersOk(heap, st.counter)
    ensures Inv(g, conn, s, st.(heap := heap), rank, latest) && ExploredExcept(g, conn, st.gCost, st.closed, {})
  {
    var st' := st.(heap := heap);
    assert st'.gCost == st.gCost && st'.cameFrom == st.cameFrom && st'.closed == st.closed && st'.counter == st.counter;
  }

  /** Closing the popped open cell brings the closed set closer to the cells a search can reach. */
  lemma CloseShrinks(g: Grid, s: Strategy, st: State, latest: map<Cell, nat>)
    requires KeysOk(g, st.gCost, st.cameFrom, st.closed) && HeapOk(s, st.heap, st.gCost, st.closed, latest)
    requires |st.heap| > 0 && st.heap[MinIndex(st.heap)].cell !in st.closed
    ensures var n := st.heap[MinIndex(st.heap)].cell;
            |Universe(g) - (st.closed + {n})| < |Universe(g) - st.closed|
  {
    var n := st.heap[MinIndex(st.heap)].cell;
    PopExact(s, st.heap, st.gCost, st.closed, latest);
    assert n in Universe(g) by {
      if n != g.start {
        assert IsPassable(g, n);
        assert n == Cell(n.row, n.col);
      }
    }
    Shrinks(Universe(g), st.closed, n);
  }

  /**
   * The `current == goal` branch: the path rebuilt from `came_from` is a walk from the
   * start to the goal without repeated cells, the one-cell path when the start is the
   * goal, and, with a consistent strategy, one of least cost.
   */
  method Arrive(g: Grid, conn: Connectivity, s: Strategy, st: State, ghost rank: map<Cell, nat>,
                ghost latest: map<Cell, nat>) returns (cells: seq<Cell>)
    requires Inv(g, conn, s, st, rank, latest) && ExploredExcept(g, conn, st.gCost, st.closed, {})
    requires |st.heap| > 0 && st.heap[MinIndex(st.heap)].cell == g.goal
    ensures WalkFromTo(g, conn, cells, g.start, g.goal) && Distinct(cells)
    ensures g.start == g.goal ==> cells == [g.start]
    ensures Consistent(g, conn, s) ==>
      forall p :: WalkFromTo(g, conn, p, g.start, g.goal) ==> PathCost(g, conn, cells) <= PathCost(g, conn, p)
  {
    ParentsRanked(g, conn, st.gCost, st.cameFrom, st.closed, rank);
    cells := ReconstructPath(st.cameFrom, g.goal, rank, |st.closed|);
    PopExact(s, st.heap, st.gCost, st.closed, latest);
    ChainIsWalk(g, conn, st.gCost, st.cameFrom, st.closed, rank, cells);
    if Consistent(g, conn, s) {
      PoppedIsOptimal(g, conn, s, st, latest);
    }
  }

  /**
   * One pass of the search loop whose popped cell is not the goal: a cell already
   * closed is skipped, any other is closed and its neighbours relaxed. Either the
   * closed set grows or it stays and the heap shrinks.
   */
  method Step(g: Grid, conn: Connectivity, s: Strategy, st: State, ghost rank: map<Cell, nat>,
              ghost latest: map<Cell, nat>) returns (next: State, ghost rank': map<Cell, nat>, ghost latest': map<Cell, nat>)
    requires Inv(g, conn, s, st, rank, latest) && ExploredExcept(g, conn, st.gCost, st.closed, {})
    requires |st.heap| > 0 && st.heap[MinIndex(st.heap)].cell != g.goal
    ensures Inv(g, conn, s, next, rank', latest') && ExploredExcept(g, conn, next.gCost, next.closed, {})
    ensures |Universe(g) - next.closed| < |Universe(g) - st.closed|
         || (next.closed == st.closed && |next.heap| < |st.heap|)
  {
    var k := MinIndex(st.heap);
    var current := st.heap[k].cell;
    if current in st.closed {
      StaleStep(g, conn, s, st, rank, latest);
      return st.(heap := RemoveAt(st.heap, k)), rank, latest;
    }
    var e := st.heap[k];
    PopExact(s, st.heap, st.gCost, st.closed, latest);
    CloseStep(g, conn, s, st, rank, latest);
    CloseShrinks(g, s, st, latest);
    rank' := rank[current := |st.closed|];
    var closing := State(RemoveAt(st.heap, k), st.gCost, st.cameFrom, st.closed + {current}, st.counter);
    var currentG := if s.AStar? then closing.gCost[current] else e.priority;
    next, latest' := Expand(g, conn, s, closing, current, currentG, rank', latest);
  }

  /**
   * `solve` / `solve_dijkstra` of `Maze` and `DiagonalMaze`. The result is `None`
   * exactly when no walk leads from the start to the goal; otherwise a walk from the
   * start to the goal without repeated cells, the one-cell path when they coincide,
   * and, when the strategy is consistent, a cheapest one.
   */
  method BestFirst(g: Grid, conn: Connectivity, s: Strategy) returns (path: Option<seq<Cell>>)
    ensures path.None? <==> !Reachable(g, conn, g.start, g.goal)
    ensures path.Some? ==> WalkFromTo(g, conn, path.value, g.start, g.goal) && Distinct(path.value)
    ensures g.start == g.goal ==> path == Some([g.start])
    ensures path.Some? && Consistent(g, conn, s) ==>
      forall p :: WalkFromTo(g, conn, p, g.start, g.goal) ==> PathCost(g, conn, path.value) <= PathCost(g, conn, p)
  {
    var st := State([Entry(H(s, g.start), 0, g.start)], map[g.start := 0.0], map[], {}, 1);
    ghost var rank: map<Cell, nat> := map[];
    ghost var latest: map<Cell, nat> := map[g.start := 0];
    InitOk(g, conn, s);
    while st.heap != []
      invariant Inv(g, conn, s, st, rank, latest) && ExploredExcept(g, conn, st.gCost, st.closed, {})
      decreases |Universe(g) - st.closed|, |st.heap|
    {
      if st.heap[MinIndex(st.heap)].cell == g.goal {
        var cells := Arrive(g, conn, s, st, rank, latest);
        return Some(cells);
      }
      st, rank, latest := Step(g, conn, s, st, rank, latest);
    }
    ExhaustedUnreachable(g, conn, s, st.gCost, st.cameFrom, st.closed, latest);
    path := None;
  }
}

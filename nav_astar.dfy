/** The planner of nav_pygame.py: A* over a 0/1 occupancy grid, 4-connected,
    unit cost, Manhattan heuristic, a binary heap of `(f, g, cell)` tuples and
    a closed set `visited`. */
module NavPlanner {
  import opened GridBasics

  /** `grid[r][c]`: 0 free, 1 wall. */
  type Grid = seq<seq<int>>

  /** astar takes `len(grid)` rows and `len(grid[0])` columns. */
  predicate WellFormed(grid: Grid) {
    |grid| > 0 && forall r :: 0 <= r < |grid| ==> |grid[r]| == |grid[0]|
  }

  predicate InBounds(grid: Grid, c: Cell)
    requires WellFormed(grid)
  {
    0 <= c.0 < |grid| && 0 <= c.1 < |grid[0]|
  }

  /** The test astar applies before relaxing a neighbour. */
  predicate Passable(grid: Grid, c: Cell)
    requires WellFormed(grid)
  {
    InBounds(grid, c) && grid[c.0][c.1] == 0
  }

  /** A route from `start` to `goal` through 4-adjacent cells, every cell but
      the first passable. The start cell is never tested. */
  predicate IsPath(grid: Grid, p: seq<Cell>, start: Cell, goal: Cell)
    requires WellFormed(grid)
  {
    && |p| > 0 && p[0] == start && p[|p| - 1] == goal
    && (forall i :: 0 < i < |p| ==> Passable(grid, p[i]))
    && (forall i :: 0 <= i < |p| - 1 ==> Adjacent(p[i], p[i + 1]))
  }

  /** `g.get(cell, 1e9)`: the cost astar assumes for a cell it has not reached. */
  const Unseen: int := 1_000_000_000

  /** A heap entry `(f, g, cell)`. */
  datatype Entry = Entry(f: int, cost: int, cell: Cell)

  /** Python's order on the tuples `(f, g, (r, c))`. */
  predicate EntryLe(a: Entry, b: Entry) {
    || a.f < b.f
    || (a.f == b.f && a.cost < b.cost)
    || (a.f == b.f && a.cost == b.cost && a.cell.0 < b.cell.0)
    || (a.f == b.f && a.cost == b.cost && a.cell.0 == b.cell.0 && a.cell.1 <= b.cell.1)
  }

  /** The cells that have an entry in the heap. */
  function Cells(q: seq<Entry>): set<Cell>
    decreases |q|
  {
    if q == [] then {} else Cells(q[..|q| - 1]) + {q[|q| - 1].cell}
  }

  lemma CellsPush(q: seq<Entry>, e: Entry)
    ensures Cells(q + [e]) == Cells(q) + {e.cell}
  {
    assert (q + [e])[..|q|] == q;
  }

  lemma {:induction false} CellsConcat(a: seq<Entry>, b: seq<Entry>)
    ensures Cells(a + b) == Cells(a) + Cells(b)
    decreases |b|
  {
    if b != [] {
      var b' := b[..|b| - 1];
      CellsConcat(a, b');
      assert a + b == (a + b') + [b[|b| - 1]];
      CellsPush(a + b', b[|b| - 1]);
      CellsPush(b', b[|b| - 1]);
      assert b' + [b[|b| - 1]] == b;
    } else {
      assert a + b == a;
    }
  }

  /** `heapq.heappop`: removes and returns the least entry. The heap is kept
      as the sequence of its entries; what is modelled is the order in which
      entries leave it, not the array layout of the heap. */
  method HeapPop(q: seq<Entry>) returns (e: Entry, rest: seq<Entry>)
    requires |q| > 0
    ensures e in q && forall x :: x in q ==> EntryLe(e, x)
    ensures multiset(rest) + multiset{e} == multiset(q)
    ensures |rest| == |q| - 1
    ensures Cells(q) == Cells(rest) + {e.cell}
  {
    var k := 0;
    for i := 1 to |q|
      invariant 0 <= k < |q|
      invariant forall j :: 0 <= j < i ==> EntryLe(q[k], q[j])
    {
      if !EntryLe(q[k], q[i]) {
        k := i;
      }
    }
    e := q[k];
    rest := q[..k] + q[k + 1..];
    assert q == q[..k] + [e] + q[k + 1..];
    CellsConcat(q[..k] + [e], q[k + 1..]);
    CellsConcat(q[..k], [e]);
    CellsConcat(q[..k], q[k + 1..]);
    assert Cells([e]) == {e.cell} by {
      assert [e][..0] == [];
    }
  }

  /** Every passable 4-neighbour of `v` is in `reached`. */
  predicate Expanded(grid: Grid, v: Cell, reached: set<Cell>)
    requires WellFormed(grid)
  {
    forall i :: 0 <= i < |Moves| ==> Handled(grid, Shift(v, Moves[i]), reached)
  }

  predicate Handled(grid: Grid, nb: Cell, reached: set<Cell>)
    requires WellFormed(grid)
  {
    Passable(grid, nb) ==> nb in reached
  }

  /** A set that holds the start, not the goal, and every passable neighbour
      of its members cuts every route from the start to the goal. */
  lemma {:induction false} ClosedSetCutsRoutes(grid: Grid, closed: set<Cell>, p: seq<Cell>, start: Cell, goal: Cell)
    requires WellFormed(grid)
    requires start in closed && goal !in closed
    requires forall v :: v in closed ==> Expanded(grid, v, closed)
    ensures !IsPath(grid, p, start, goal)
  {
    if IsPath(grid, p, start, goal) {
      var k := 0;
      while k < |p| - 1
        invariant 0 <= k < |p| && p[k] in closed
      {
        var i := AdjacentIsMove(p[k], p[k + 1]);
        assert Handled(grid, Shift(p[k], Moves[i]), closed);
        assert Passable(grid, p[k + 1]);
        k := k + 1;
      }
    }
  }

  /** The bookkeeping of `g` and `came`: the start costs 0 and has no parent;
      every other reached cell is passable, 4-adjacent to its parent and
      costs more than it. */
  ghost predicate Tree(grid: Grid, came: map<Cell, Cell>, g: map<Cell, int>, start: Cell)
    requires WellFormed(grid)
  {
    && start in g && g[start] == 0 && start !in came
    && g.Keys == came.Keys + {start}
    && forall x {:trigger came[x]} :: x in came ==> came[x] in g && 0 <= g[came[x]] < g[x] && Adjacent(came[x], x) && Passable(grid, x)
  }

  /** Each cell of `walk` is reached from the next one, and all but the last
      are passable: the shape of the list astar builds by following `came`. */
  predicate BackWalk(grid: Grid, walk: seq<Cell>)
    requires WellFormed(grid)
  {
    forall i :: 0 <= i < |walk| - 1 ==> Adjacent(walk[i + 1], walk[i]) && Passable(grid, walk[i])
  }

  lemma BackWalkExtend(grid: Grid, walk: seq<Cell>, c: Cell)
    requires WellFormed(grid) && BackWalk(grid, walk) && |walk| > 0
    requires Adjacent(c, walk[|walk| - 1]) && Passable(grid, walk[|walk| - 1])
    ensures BackWalk(grid, walk + [c])
  {
  }

  /** A back walk from the goal to the start, read backwards, is a route
      from the start to the goal. */
  lemma ReversedWalkIsPath(grid: Grid, walk: seq<Cell>, start: Cell, goal: Cell)
    requires WellFormed(grid) && |walk| > 0 && walk[0] == goal && walk[|walk| - 1] == start
    requires BackWalk(grid, walk)
    ensures IsPath(grid, Reverse(walk), start, goal)
  {
    var p := Reverse(walk);
    forall i | 0 < i < |p| ensures Passable(grid, p[i]) {
      assert p[i] == walk[|walk| - 1 - i];
    }
    forall i | 0 <= i < |p| - 1 ensures Adjacent(p[i], p[i + 1]) {
      assert p[i] == walk[|walk| - 1 - i] && p[i + 1] == walk[|walk| - 2 - i];
    }
  }

  /** The reconstruction loop of astar: follow `came` back from the goal and
      reverse (`path[::-1]`). */
  method Rebuild(grid: Grid, came: map<Cell, Cell>, g: map<Cell, int>, start: Cell, goal: Cell) returns (route: seq<Cell>)
    requires WellFormed(grid) && Tree(grid, came, g, start) && goal in g
    ensures IsPath(grid, route, start, goal)
    ensures goal !in came ==> route == [goal]
  {
    var current := goal;
    var path := [current];
    while current in came
      invariant current in g
      invariant |path| > 0 && path[0] == goal && path[|path| - 1] == current
      invariant BackWalk(grid, path)
      invariant goal !in came ==> path == [goal]
      decreases g[current]
    {
      BackWalkExtend(grid, path, came[current]);
      current := came[current];
      path := path + [current];
    }
    ReversedWalkIsPath(grid, path, start, goal);
    route := Reverse(path);
  }

  /** Giving a passable neighbour of a reached cell a cheaper cost through
      that cell keeps the bookkeeping intact. */
  lemma RelaxKeepsTree(grid: Grid, came: map<Cell, Cell>, g: map<Cell, int>, start: Cell, current: Cell, nb: Cell)
    requires WellFormed(grid) && Tree(grid, came, g, start) && current in g
    requires Passable(grid, nb) && Adjacent(current, nb)
    requires nb in g ==> g[current] + 1 < g[nb]
    ensures Tree(grid, came[nb := current], g[nb := g[current] + 1], start)
  {
  }

  /** The state astar keeps between two heap operations: the bookkeeping,
      costs bounded by `bound`, every reached cell either expanded (in
      `closed`) or waiting in the heap, every heap entry a reached cell,
      every expanded cell reached, and the goal not expanded. */
  ghost predicate Search(grid: Grid, start: Cell, goal: Cell, came: map<Cell, Cell>, g: map<Cell, int>, openq: seq<Entry>, closed: set<Cell>, bound: int)
    requires WellFormed(grid)
  {
    && Tree(grid, came, g, start)
    && (forall x :: x in g ==> g[x] <= bound)
    && Cells(openq) <= g.Keys
    && g.Keys <= closed + Cells(openq)
    && closed <= g.Keys
    && goal !in closed
  }

  /** The body of astar's neighbour loop for one neighbour `nb` of
      `current`: when it is in bounds and free and `g[current] + 1` beats
      `g.get(nb, 1e9)`, it gets `current` as parent, the new cost and a heap
      entry. */
  method Relax(grid: Grid, start: Cell, goal: Cell, current: Cell, nb: Cell, g: map<Cell, int>, came: map<Cell, Cell>, openq: seq<Entry>, ghost closed: set<Cell>, ghost bound: int)
    returns (g': map<Cell, int>, came': map<Cell, Cell>, openq': seq<Entry>)
    requires WellFormed(grid) && Search(grid, start, goal, came, g, openq, closed, bound)
    requires current in g && Adjacent(current, nb) && g[current] + 1 <= bound
    ensures Search(grid, start, goal, came', g', openq', closed, bound)
    ensures current in g' && g'[current] == g[current]
    ensures g.Keys <= g'.Keys
    ensures g[current] + 1 < Unseen ==> Handled(grid, nb, g'.Keys)
  {
    g', came', openq' := g, came, openq;
    if 0 <= nb.0 < |grid| && 0 <= nb.1 < |grid[0]| && grid[nb.0][nb.1] == 0 {
      var tentative := g[current] + 1;
      if tentative < (if nb in g then g[nb] else Unseen) {
        RelaxKeepsTree(grid, came, g, start, current, nb);
        var entry := Entry(tentative + Manhattan(nb, goal), tentative, nb);
        CellsPush(openq, entry);
        came' := came[nb := current];
        g' := g[nb := tentative];
        openq' := openq + [entry];
      }
    }
  }

  /** One expansion of astar: `Relax` for each of the four moves in turn. */
  method Expand(grid: Grid, start: Cell, goal: Cell, current: Cell, g: map<Cell, int>, came: map<Cell, Cell>, openq: seq<Entry>, ghost closed: set<Cell>, ghost bound: int)
    returns (g': map<Cell, int>, came': map<Cell, Cell>, openq': seq<Entry>)
    requires WellFormed(grid) && Search(grid, start, goal, came, g, openq, closed, bound)
    requires current in g && g[current] + 1 <= bound
    ensures Search(grid, start, goal, came', g', openq', closed, bound)
    ensures g.Keys <= g'.Keys
    ensures g[current] + 1 < Unseen ==> Expanded(grid, current, g'.Keys)
  {
    g', came', openq' := g, came, openq;
    for i := 0 to |Moves|
      invariant Search(grid, start, goal, came', g', openq', closed, bound)
      invariant current in g' && g'[current] == g[current]
      invariant g.Keys <= g'.Keys
      invariant g[current] + 1 < Unseen ==> forall j :: 0 <= j < i ==> Handled(grid, Shift(current, Moves[j]), g'.Keys)
    {
      MoveIsAdjacent(current, i);
      ghost var keys := g'.Keys;
      g', came', openq' := Relax(grid, start, goal, current, Shift(current, Moves[i]), g', came', openq', closed, bound);
      assert forall j :: 0 <= j < i && Handled(grid, Shift(current, Moves[j]), keys) ==> Handled(grid, Shift(current, Moves[j]), g'.Keys);
    }
  }

  /** Taking the least entry off the heap and expanding its cell (or
      finding it already expanded) keeps the search state, with the cell now
      counted as expanded. */
  lemma PopKeepsSearch(grid: Grid, start: Cell, goal: Cell, came: map<Cell, Cell>, g: map<Cell, int>, openq: seq<Entry>, rest: seq<Entry>, closed: set<Cell>, bound: int, current: Cell, bound': int)
    requires WellFormed(grid) && Search(grid, start, goal, came, g, openq, closed, bound)
    requires Cells(openq) == Cells(rest) + {current} && current != goal && bound <= bound'
    ensures Search(grid, start, goal, came, g, rest, closed + {current}, bound')
  {
  }

  /** Dropping a heap entry whose cell is already expanded keeps the search
      state. */
  lemma SkipKeepsSearch(grid: Grid, start: Cell, goal: Cell, came: map<Cell, Cell>, g: map<Cell, int>, openq: seq<Entry>, rest: seq<Entry>, closed: set<Cell>, bound: int, current: Cell)
    requires WellFormed(grid) && Search(grid, start, goal, came, g, openq, closed, bound)
    requires Cells(openq) == Cells(rest) + {current} && current in closed
    ensures Search(grid, start, goal, came, g, rest, closed, bound)
  {
  }

  /** Every reached cell is the start or a cell of the grid. */
  lemma ReachedInGrid(grid: Grid, came: map<Cell, Cell>, g: map<Cell, int>, start: Cell)
    requires WellFormed(grid) && Tree(grid, came, g, start)
    ensures g.Keys <= Elems(Enumerate(|grid|, |grid[0]|)) + {start}
  {
    forall x | x in g && x != start ensures x in Enumerate(|grid|, |grid[0]|) {
      assert x in came;
    }
  }

  /** Reaching more cells keeps a cell expanded. */
  lemma ExpandedGrows(grid: Grid, v: Cell, reached: set<Cell>, reached': set<Cell>)
    requires WellFormed(grid) && Expanded(grid, v, reached) && reached <= reached'
    ensures Expanded(grid, v, reached')
  {
    forall i | 0 <= i < |Moves| ensures Handled(grid, Shift(v, Moves[i]), reached') {
      assert Handled(grid, Shift(v, Moves[i]), reached);
    }
  }

  /** After one more expansion, every expanded cell, old and new, still has
      all its passable neighbours reached. */
  lemma ExpandedStaysExpanded(grid: Grid, closed: set<Cell>, current: Cell, reached: set<Cell>, reached': set<Cell>)
    requires WellFormed(grid) && reached <= reached'
    requires forall v :: v in closed ==> Expanded(grid, v, reached)
    requires Expanded(grid, current, reached')
    ensures forall v :: v in closed + {current} ==> Expanded(grid, v, reached')
  {
    forall v | v in closed ensures Expanded(grid, v, reached') {
      ExpandedGrows(grid, v, reached, reached');
    }
  }

  /** Expanding one more cell of a finite set shrinks what is left of it. */
  lemma ClosedGrows(universe: set<Cell>, closed: set<Cell>, c: Cell)
    requires closed <= universe && c in universe && c !in closed
    ensures |universe - (closed + {c})| < |universe - closed|
  {
    assert universe - closed == (universe - (closed + {c})) + {c};
  }

  /** When the heap runs dry with every expanded cell's neighbours reached,
      no route leads from the start to the goal. */
  lemma ExhaustedMeansUnreachable(grid: Grid, start: Cell, goal: Cell, came: map<Cell, Cell>, g: map<Cell, int>, closed: set<Cell>, bound: int)
    requires WellFormed(grid) && Search(grid, start, goal, came, g, [], closed, bound)
    requires forall v :: v in closed ==> Expanded(grid, v, g.Keys)
    ensures forall p :: !IsPath(grid, p, start, goal)
  {
    assert g.Keys == closed;
    forall p ensures !IsPath(grid, p, start, goal) {
      ClosedSetCutsRoutes(grid, closed, p, start, goal);
    }
  }

  /** nav_pygame's `astar`. Pops the least `(f, g, cell)` entry; returns the
      route rebuilt through `came` when it pops the goal; skips cells already
      expanded; otherwise expands the cell. Every cell is expanded at most
      once, which bounds the loop. An unreachable goal gives `None` as long as
      no cost reaches the 1e9 that stands for "not reached", which holds on
      any grid of fewer than 1e9 - 1 cells. */
  method AStar(grid: Grid, start: Cell, goal: Cell) returns (r: Option<seq<Cell>>)
    requires WellFormed(grid)
    ensures r.Some? ==> IsPath(grid, r.value, start, goal)
    ensures r.None? && |grid| * |grid[0]| + 1 < Unseen ==> forall p :: !IsPath(grid, p, start, goal)
    ensures start == goal ==> r == Some([start])
  {
    var rows, cols := |grid|, |grid[0]|;
    var openq := [Entry(Manhattan(start, goal), 0, start)];
    var came: map<Cell, Cell> := map[];
    var g: map<Cell, int> := map[start := 0];
    var visited: set<Cell> := {};
    ghost var universe := Elems(Enumerate(rows, cols)) + {start};
    ghost var small := rows * cols + 1 < Unseen;
    ElemsCard(Enumerate(rows, cols));
    assert Cells(openq) == {start} by {
      assert openq[..0] == [];
    }
    while |openq| > 0
      invariant Search(grid, start, goal, came, g, openq, visited, |visited|)
      invariant small ==> forall v :: v in visited ==> Expanded(grid, v, g.Keys)
      invariant start == goal ==> openq == [Entry(0, 0, start)] && came == map[]
      decreases |universe - visited|, |openq|
    {
      ghost var q0 := openq;
      var e, rest := HeapPop(openq);
      openq := rest;
      var current := e.cell;
      if current == goal {
        var path := Rebuild(grid, came, g, start, goal);
        return Some(path);
      }
      if current in visited {
        SkipKeepsSearch(grid, start, goal, came, g, q0, rest, visited, |visited|, current);
        continue;
      }
      PopKeepsSearch(grid, start, goal, came, g, q0, rest, visited, |visited|, current, |visited| + 1);
      ReachedInGrid(grid, came, g, start);
      ClosedGrows(universe, visited, current);
      ghost var g0, visited0 := g, visited;
      visited := visited + {current};
      g, came, openq := Expand(grid, start, goal, current, g, came, openq, visited, |visited|);
      if small {
        ExpandedStaysExpanded(grid, visited0, current, g0.Keys, g.Keys);
      }
    }
    if small {
      ExhaustedMeansUnreachable(grid, start, goal, came, g, visited, |visited|);
    }
    return None;
  }
}

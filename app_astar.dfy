/** app.py's navigation helpers: `neighbors`, `heuristic` (the Manhattan
    distance of GridBasics) and `a_star`, the A* search over a `w` by `h`
    grid of (x, y) cells with a set of obstacle cells, a plain open set,
    `min` by f and no closed set. */
module AppPlanner {
  import opened GridBasics

  /** `0 <= x < w and 0 <= y < h`. */
  predicate InGrid(c: Cell, w: int, h: int) {
    0 <= c.0 < w && 0 <= c.1 < h
  }

  /** One move of `neighbors`: `b` is a 4-neighbour of `a` inside the grid. */
  predicate Step(a: Cell, b: Cell, w: int, h: int) {
    InGrid(b, w, h) && Adjacent(a, b)
  }

  /** The in-grid cells among `cs`, in order. */
  function InGridOnly(cs: seq<Cell>, w: int, h: int): (r: seq<Cell>)
    ensures |r| <= |cs|
    ensures forall c :: c in r <==> c in cs && InGrid(c, w, h)
  {
    if cs == [] then []
    else (if InGrid(cs[0], w, h) then [cs[0]] else []) + InGridOnly(cs[1..], w, h)
  }

  /** `neighbors(pt, w, h)`: the four moves from `pt`, in the order of
      `Moves`, that stay inside the grid. */
  function Neighbors(pt: Cell, w: int, h: int): (ns: seq<Cell>)
    ensures |ns| <= 4
    ensures forall c :: c in ns <==> Step(pt, c, w, h)
  {
    var cs := [Shift(pt, Moves[0]), Shift(pt, Moves[1]), Shift(pt, Moves[2]), Shift(pt, Moves[3])];
    assert forall c :: Adjacent(pt, c) ==> c in cs by {
      forall c | Adjacent(pt, c) ensures c in cs {
        var i := AdjacentIsMove(pt, c);
        assert cs[i] == c;
      }
    }
    InGridOnly(cs, w, h)
  }

  /** `neighbors` yields no cell twice. */
  lemma NeighborsDistinct(pt: Cell, w: int, h: int)
    ensures Distinct(Neighbors(pt, w, h))
  {
    var ns := Neighbors(pt, w, h);
    var cs := [Shift(pt, Moves[0]), Shift(pt, Moves[1]), Shift(pt, Moves[2]), Shift(pt, Moves[3])];
    forall i, j | 0 <= i < j < |ns| ensures ns[i] != ns[j] {
      InGridOnlyOrder(cs, w, h, i, j);
    }
  }

  /** Two positions of a filtered sequence come from two distinct positions
      of the four moves, which lead to four distinct cells. */
  lemma {:induction false} InGridOnlyOrder(cs: seq<Cell>, w: int, h: int, i: int, j: int)
    requires Distinct(cs)
    requires 0 <= i < j < |InGridOnly(cs, w, h)|
    ensures InGridOnly(cs, w, h)[i] != InGridOnly(cs, w, h)[j]
    decreases |cs|
  {
    var r := InGridOnly(cs, w, h);
    var rest := InGridOnly(cs[1..], w, h);
    assert Distinct(cs[1..]);
    if InGrid(cs[0], w, h) {
      assert r == [cs[0]] + rest;
      if i == 0 {
        assert r[j] in rest;
        assert r[j] in cs[1..];
      } else {
        InGridOnlyOrder(cs[1..], w, h, i - 1, j - 1);
      }
    } else {
      assert r == rest;
      InGridOnlyOrder(cs[1..], w, h, i, j);
    }
  }

  /** A route of a_star: it starts at `start`, ends at `goal`, every cell is
      a `neighbors` move from the one before, and no cell after the first
      is an obstacle. */
  predicate AppPath(w: int, h: int, obstacles: set<Cell>, p: seq<Cell>, start: Cell, goal: Cell) {
    && |p| > 0 && p[0] == start && p[|p| - 1] == goal
    && (forall i :: 0 <= i < |p| - 1 ==> Step(p[i], p[i + 1], w, h))
    && (forall i :: 0 < i < |p| ==> p[i] !in obstacles)
  }

  /** No route is shorter than the heuristic allows: a route from `start`
      to `goal` has at least `heuristic(start, goal) + 1` cells. */
  lemma {:induction false} RouteLength(w: int, h: int, obstacles: set<Cell>, p: seq<Cell>, start: Cell, goal: Cell)
    requires AppPath(w, h, obstacles, p, start, goal)
    ensures |p| >= Manhattan(start, goal) + 1
    decreases |p|
  {
    if |p| > 1 {
      var q := p[1..];
      assert AppPath(w, h, obstacles, q, p[1], goal) by {
        forall i | 0 <= i < |q| - 1 ensures Step(q[i], q[i + 1], w, h) {
          assert Step(p[i + 1], p[i + 2], w, h);
        }
      }
      RouteLength(w, h, obstacles, q, p[1], goal);
      ManhattanMetric(start, p[1], goal);
    }
  }

  // ---------- the termination measure ----------

  /** How many of `cells` have no g value yet. */
  function Unseen(cells: seq<Cell>, g: map<Cell, nat>): nat {
    if cells == [] then 0
    else (if cells[0] in g then 0 else 1) + Unseen(cells[1..], g)
  }

  /** The sum of the g values of `cells`. */
  function GSum(cells: seq<Cell>, g: map<Cell, nat>): nat {
    if cells == [] then 0
    else (if cells[0] in g then g[cells[0]] else 0) + GSum(cells[1..], g)
  }

  /** `a` is below `b` in the lexicographic order on (unseen cells, g sum). */
  predicate Below(cells: seq<Cell>, a: map<Cell, nat>, b: map<Cell, nat>) {
    Unseen(cells, a) < Unseen(cells, b) || (Unseen(cells, a) == Unseen(cells, b) && GSum(cells, a) < GSum(cells, b))
  }

  /** Giving a grid cell its first g value, or a smaller one, lowers the
      measure over the grid's cells. */
  lemma Lowered(w: int, h: int, g: map<Cell, nat>, x: Cell, t: nat)
    requires InGrid(x, w, h) && (x !in g || t < g[x])
    ensures Below(Enumerate(w, h), g[x := t], g)
  {
    var cells := Enumerate(w, h);
    assert x in cells;
    var i :| 0 <= i < |cells| && cells[i] == x;
    LoweredAt(cells, g, x, t, i);
  }

  lemma {:induction false} LoweredAt(cells: seq<Cell>, g: map<Cell, nat>, x: Cell, t: nat, i: nat)
    requires Distinct(cells) && i < |cells| && cells[i] == x && (x !in g || t < g[x])
    ensures x !in g ==> Unseen(cells, g[x := t]) + 1 == Unseen(cells, g)
    ensures x in g ==> Unseen(cells, g[x := t]) == Unseen(cells, g) && GSum(cells, g[x := t]) < GSum(cells, g)
    decreases |cells|
  {
    var g' := g[x := t];
    var rest := cells[1..];
    assert Distinct(rest);
    if i == 0 {
      assert x !in rest;
      Untouched(rest, g, x, t);
    } else {
      assert cells[0] != x;
      LoweredAt(rest, g, x, t, i - 1);
    }
  }

  /** Changing the g value of a cell outside `cells` changes neither count. */
  lemma {:induction false} Untouched(cells: seq<Cell>, g: map<Cell, nat>, x: Cell, t: nat)
    requires x !in cells
    ensures Unseen(cells, g[x := t]) == Unseen(cells, g) && GSum(cells, g[x := t]) == GSum(cells, g)
  {
    if cells != [] {
      Untouched(cells[1..], g, x, t);
    }
  }

  // ---------- a_star ----------

  /** The search state a_star keeps between iterations:
      `came_from` links every reached cell except `start` to a neighbour
      with a smaller g, `start` has g 0, every open cell has a g and an f,
      and a reached cell other than `start` is an in-grid non-obstacle. */
  ghost predicate Links(w: int, h: int, obstacles: set<Cell>, start: Cell, came: map<Cell, Cell>, g: map<Cell, nat>) {
    && start in g && g[start] == 0 && start !in came
    && (forall n :: n in g ==> n == start || n in came)
    && (forall n {:trigger came[n]} :: n in came ==> n in g && came[n] in g && g[came[n]] < g[n])
    && (forall n {:trigger came[n]} :: n in came ==> Step(came[n], n, w, h) && n !in obstacles)
  }

  /** Every reached cell that has left the open set has had all its
      non-obstacle neighbours reached. */
  ghost predicate Relaxed(w: int, h: int, obstacles: set<Cell>, g: map<Cell, nat>, open: set<Cell>, except: Cell) {
    forall n, m :: n in g && n !in open && n != except && Step(n, m, w, h) && m !in obstacles ==> m in g
  }

  /** A cell is reached once the search knows a route to it; when the
      open set runs dry, every route from `start` stays among reached
      cells, so a `goal` that was never reached has no route. */
  lemma NoRoute(w: int, h: int, obstacles: set<Cell>, g: map<Cell, nat>, start: Cell, goal: Cell)
    requires start in g && goal !in g && Relaxed(w, h, obstacles, g, {}, goal)
    ensures forall p :: !AppPath(w, h, obstacles, p, start, goal)
  {
    forall p | AppPath(w, h, obstacles, p, start, goal) ensures false {
      var i := 0;
      while i < |p| - 1
        invariant 0 <= i < |p| && p[i] in g
      {
        assert Step(p[i], p[i + 1], w, h) && p[i + 1] !in obstacles;
        i := i + 1;
      }
    }
  }

  /** The cell a_star expands next: any open cell of least f. */
  lemma LeastF(open: set<Cell>, f: map<Cell, nat>) returns (c: Cell)
    requires open != {} && open <= f.Keys
    ensures c in open && forall n :: n in open ==> f[c] <= f[n]
    decreases |open|
  {
    var x :| x in open;
    if open == {x} {
      c := x;
    } else {
      var y := LeastF(open - {x}, f);
      c := if f[x] <= f[y] then x else y;
    }
  }

  /** `a_star(start, goal, w, h, obstacles)`. A non-empty result is a
      route without repeated cells; `[]` means no route exists; a trip to
      the start itself is `[start]`. */
  method AStar(start: Cell, goal: Cell, w: int, h: int, obstacles: set<Cell>) returns (path: seq<Cell>)
    ensures path != [] ==> AppPath(w, h, obstacles, path, start, goal) && Distinct(path)
    ensures path == [] ==> forall p :: !AppPath(w, h, obstacles, p, start, goal)
    ensures start == goal ==> path == [start]
  {
    ghost var cells := Enumerate(w, h);
    var open := {start};
    var came: map<Cell, Cell> := map[];
    var g: map<Cell, nat> := map[start := 0];
    var f: map<Cell, nat> := map[start := Manhattan(start, goal)];
    while open != {}
      invariant Links(w, h, obstacles, start, came, g)
      invariant open <= g.Keys && g.Keys == f.Keys
      invariant Relaxed(w, h, obstacles, g, open, goal)
      invariant goal in g ==> goal in open
      invariant start == goal ==> open == {start} && came == map[]
      decreases Unseen(cells, g), GSum(cells, g), |open|
    {
      ghost var least := LeastF(open, f);
      var current :| current in open && forall n :: n in open ==> f[current] <= f[n];
      if current == goal {
        path := Reconstruct(w, h, obstacles, start, came, g, current);
        return;
      }
      open := open - {current};
      ghost var g0, open0 := g, open;
      came, g, f, open := Expand(w, h, obstacles, start, goal, current, came, g, f, open);
      assert Below(cells, g, g0) || (g == g0 && open == open0);
    }
    NoRoute(w, h, obstacles, g, start, goal);
    path := [];
  }

  /** The `for nb in neighbors(current, w, h)` loop of a_star: every
      non-obstacle neighbour whose g improves gets `current` as its
      predecessor, a new g and f, and joins the open set. */
  method Expand(w: int, h: int, obstacles: set<Cell>, start: Cell, goal: Cell, current: Cell,
                came0: map<Cell, Cell>, g0: map<Cell, nat>, f0: map<Cell, nat>, open0: set<Cell>)
    returns (came: map<Cell, Cell>, g: map<Cell, nat>, f: map<Cell, nat>, open: set<Cell>)
    requires Links(w, h, obstacles, start, came0, g0) && current in g0 && current !in open0
    requires open0 <= g0.Keys && g0.Keys == f0.Keys
    requires Relaxed(w, h, obstacles, g0, open0, current) && current != goal && (goal in g0 ==> goal in open0)
    ensures Links(w, h, obstacles, start, came, g)
    ensures open <= g.Keys && g.Keys == f.Keys
    ensures Relaxed(w, h, obstacles, g, open, goal)
    ensures goal in g ==> goal in open
    ensures Below(Enumerate(w, h), g, g0) || (g == g0 && open == open0)
  {
    ghost var cells := Enumerate(w, h);
    came, g, f, open := came0, g0, f0, open0;
    var ns := Neighbors(current, w, h);
    for i := 0 to |ns|
      invariant Links(w, h, obstacles, start, came, g) && current in g && current !in open
      invariant open <= g.Keys && g.Keys == f.Keys && g0.Keys <= g.Keys && open0 <= open
      invariant g.Keys - g0.Keys <= open
      invariant Relaxed(w, h, obstacles, g, open, current)
      invariant goal in g ==> goal in open
      invariant Reached(ns[..i], obstacles, g)
      invariant Below(cells, g, g0) || (g == g0 && open == open0)
    {
      ghost var g1, open1 := g, open;
      came, g, f, open := Relax(w, h, obstacles, start, goal, current, ns[i], came, g, f, open);
      ReachedOneMore(ns, i, obstacles, g1, g);
      if g != g1 || open != open1 {
        BelowTrans(cells, g, g1, g0);
      }
    }
    assert ns[..|ns|] == ns;
    Finished(w, h, obstacles, g, open, current, goal, ns);
  }

  /** One pass of the body of a_star's neighbour loop: an obstacle is
      skipped; otherwise, when `g[current] + 1` beats the neighbour's g (or
      it has none), the neighbour is linked to `current` and opened. */
  method Relax(w: int, h: int, obstacles: set<Cell>, start: Cell, goal: Cell, current: Cell, nb: Cell,
               came0: map<Cell, Cell>, g0: map<Cell, nat>, f0: map<Cell, nat>, open0: set<Cell>)
    returns (came: map<Cell, Cell>, g: map<Cell, nat>, f: map<Cell, nat>, open: set<Cell>)
    requires Links(w, h, obstacles, start, came0, g0) && current in g0 && current !in open0
    requires open0 <= g0.Keys && g0.Keys == f0.Keys && Step(current, nb, w, h)
    requires Relaxed(w, h, obstacles, g0, open0, current) && (goal in g0 ==> goal in open0)
    ensures Links(w, h, obstacles, start, came, g) && current in g && current !in open
    ensures open <= g.Keys && g.Keys == f.Keys && g0.Keys <= g.Keys && open0 <= open && g.Keys - g0.Keys <= open
    ensures Relaxed(w, h, obstacles, g, open, current) && (goal in g ==> goal in open)
    ensures nb !in obstacles ==> nb in g
    ensures Below(Enumerate(w, h), g, g0) || (g == g0 && open == open0)
    ensures nb in obstacles ==> g == g0 && open == open0
  {
    came, g, f, open := came0, g0, f0, open0;
    if nb !in obstacles {
      var tentative := g[current] + 1;
      if nb !in g || tentative < g[nb] {
        Lowered(w, h, g, nb, tentative);
        Improved(w, h, obstacles, start, came, g, current, nb);
        came, g, f, open := came[nb := current], g[nb := tentative], f[nb := tentative + Manhattan(nb, goal)], open + {nb};
        Widened(w, h, obstacles, g0, open0, g, open, current);
      }
    }
  }

  /** Every non-obstacle cell of `ns` has a g value. */
  predicate Reached(ns: seq<Cell>, obstacles: set<Cell>, g: map<Cell, nat>) {
    forall j :: 0 <= j < |ns| && ns[j] !in obstacles ==> ns[j] in g
  }

  lemma ReachedOneMore(ns: seq<Cell>, i: int, obstacles: set<Cell>, g: map<Cell, nat>, g': map<Cell, nat>)
    requires 0 <= i < |ns| && Reached(ns[..i], obstacles, g) && g.Keys <= g'.Keys
    requires ns[i] !in obstacles ==> ns[i] in g'
    ensures Reached(ns[..i + 1], obstacles, g')
  {
    assert forall j :: 0 <= j < i ==> ns[..i + 1][j] == ns[..i][j];
  }

  /** Giving `nb` the predecessor `current` and g value `g[current] + 1`
      keeps the search state, when that value is new or smaller. */
  lemma Improved(w: int, h: int, obstacles: set<Cell>, start: Cell, came: map<Cell, Cell>, g: map<Cell, nat>, current: Cell, nb: Cell)
    requires Links(w, h, obstacles, start, came, g) && current in g
    requires Step(current, nb, w, h) && nb !in obstacles
    requires nb !in g || g[current] + 1 < g[nb]
    ensures Links(w, h, obstacles, start, came[nb := current], g[nb := g[current] + 1])
  {
    var came', g' := came[nb := current], g[nb := g[current] + 1];
    forall n {:trigger came'[n]} | n in came'
      ensures n in g' && came'[n] in g' && g'[came'[n]] < g'[n]
    {
      if n != nb {
        assert CameFrom(came, n, came'[n]);
      }
    }
    forall n {:trigger came'[n]} | n in came'
      ensures Step(came'[n], n, w, h) && n !in obstacles
    {
      if n != nb {
        assert CameFrom(came, n, came'[n]);
      }
    }
  }

  /** Reaching more cells, each of them open, keeps a closed cell's
      neighbours reached. */
  lemma Widened(w: int, h: int, obstacles: set<Cell>, g: map<Cell, nat>, open: set<Cell>, g': map<Cell, nat>, open': set<Cell>, except: Cell)
    requires Relaxed(w, h, obstacles, g, open, except)
    requires g.Keys <= g'.Keys && open <= open' && g'.Keys - g.Keys <= open'
    ensures Relaxed(w, h, obstacles, g', open', except)
  {
  }

  /** The measure order is transitive. */
  lemma BelowTrans(cells: seq<Cell>, a: map<Cell, nat>, b: map<Cell, nat>, c: map<Cell, nat>)
    requires Below(cells, a, b) && (Below(cells, b, c) || b == c)
    ensures Below(cells, a, c)
  {
  }

  /** Once every non-obstacle neighbour of `current` is reached, `current`
      itself is relaxed. */
  lemma Finished(w: int, h: int, obstacles: set<Cell>, g: map<Cell, nat>, open: set<Cell>, current: Cell, goal: Cell, ns: seq<Cell>)
    requires ns == Neighbors(current, w, h)
    requires Relaxed(w, h, obstacles, g, open, current)
    requires Reached(ns, obstacles, g)
    ensures Relaxed(w, h, obstacles, g, open, goal)
  {
    forall n, m | n in g && n !in open && n != goal && Step(n, m, w, h) && m !in obstacles
      ensures m in g
    {
      if n == current {
        var j :| 0 <= j < |ns| && ns[j] == m;
      }
    }
  }

  /** `came_from[n] == p`. */
  predicate CameFrom(came: map<Cell, Cell>, n: Cell, p: Cell) {
    n in came && came[n] == p
  }

  /** The reconstruction of a_star: follow `came_from` back from the goal to
      the start. The source appends each predecessor and reverses the list
      at the end; putting each predecessor in front gives the same list. */
  method Reconstruct(w: int, h: int, obstacles: set<Cell>, start: Cell, came: map<Cell, Cell>, g: map<Cell, nat>, goal: Cell)
    returns (path: seq<Cell>)
    requires Links(w, h, obstacles, start, came, g) && goal in g
    ensures AppPath(w, h, obstacles, path, start, goal) && Distinct(path)
    ensures start == goal && came == map[] ==> path == [start]
  {
    var current := goal;
    path := [current];
    while current in came
      invariant |path| > 0 && current in g && path[0] == current && path[|path| - 1] == goal
      invariant forall i :: 0 <= i < |path| ==> path[i] in g
      invariant forall i :: 0 <= i < |path| - 1 ==> CameFrom(came, path[i + 1], path[i])
      decreases g[current]
    {
      current := came[current];
      path := [current] + path;
    }
    forall i | 0 <= i < |path| - 1
      ensures Step(path[i], path[i + 1], w, h) && Rises(g, path[i], path[i + 1])
    {
      assert CameFrom(came, path[i + 1], path[i]);
    }
    forall i | 0 < i < |path| ensures path[i] !in obstacles {
      assert CameFrom(came, path[i], path[i - 1]);
    }
    Ascending(path, g);
  }

  predicate Rises(g: map<Cell, nat>, a: Cell, b: Cell) {
    a in g && b in g && g[a] < g[b]
  }

  /** Cells whose g values strictly rise along a sequence are all different. */
  lemma {:induction false} Ascending(s: seq<Cell>, g: map<Cell, nat>)
    requires forall i :: 0 <= i < |s| ==> s[i] in g
    requires forall i :: 0 <= i < |s| - 1 ==> Rises(g, s[i], s[i + 1])
    ensures Distinct(s)
    ensures forall i :: 0 <= i < |s| ==> g[s[i]] <= g[s[|s| - 1]]
  {
    if |s| > 1 {
      var t := s[..|s| - 1];
      Ascending(t, g);
      assert Rises(g, t[|t| - 1], s[|s| - 1]);
    }
  }
}

/** app.py's navigation tab: `randomize_obstacles`, the cell clamping of
    `cast_lidar_rays`, and the session state the robot animation updates
    (`obstacles`, `start`, `goal`, `robot_pos`, `path`, `nav_on`), with the
    buttons and the burst of eight path steps that runs on every rerun. */
module AppNavigation {
  import opened GridBasics
  import opened AppPlanner

  /** Session defaults of `init_state`. */
  const GridW := 30
  const GridH := 18
  const RoomCell: Cell := (2, 9)
  const PharmacyCell: Cell := (27, 9)
  const LidarRange := 10
  const LidarRays := 72
  /** `steps_per_burst`. */
  const StepsPerBurst := 8
  /** `margin` of `randomize_obstacles`. */
  const ClearMargin := 2

  function Max(a: int, b: int): int { if a < b then b else a }

  // ---------- randomize_obstacles ----------

  /** The cells `randomize_obstacles` never draws for: `start`, `goal` and
      the squares of half-width `margin` around them. */
  predicate Cleared(c: Cell, start: Cell, goal: Cell, margin: int) {
    || c == start || c == goal
    || (Abs(c.0 - start.0) <= margin && Abs(c.1 - start.1) <= margin)
    || (Abs(c.0 - goal.0) <= margin && Abs(c.1 - goal.1) <= margin)
  }

  /** `randomize_obstacles(w, h, start, goal, density, margin)`. The draw
      `random.random() < density` a cell gets is `coin(c)`. The result is
      exactly the in-grid cells outside the cleared zones whose coin came
      up. */
  method RandomizeObstacles(w: int, h: int, start: Cell, goal: Cell, margin: int, coin: Cell -> bool)
    returns (obs: set<Cell>)
    ensures forall c :: c in obs <==> InGrid(c, w, h) && !Cleared(c, start, goal, margin) && coin(c)
  {
    obs := {};
    var x := 0;
    while x < w
      invariant 0 <= x && (x <= w || x == 0)
      invariant forall c :: c in obs <==> InGrid(c, w, h) && c.0 < x && !Cleared(c, start, goal, margin) && coin(c)
    {
      var y := 0;
      while y < h
        invariant 0 <= y && (y <= h || y == 0)
        invariant forall c :: c in obs <==>
          InGrid(c, w, h) && (c.0 < x || (c.0 == x && c.1 < y)) && !Cleared(c, start, goal, margin) && coin(c)
      {
        if !Cleared((x, y), start, goal, margin) && coin((x, y)) {
          obs := obs + {(x, y)};
        }
        y := y + 1;
      }
      x := x + 1;
    }
  }

  /** What the source promises of a random map: every obstacle is in the
      grid, is neither endpoint, and lies farther than `margin` (in the
      larger of the two coordinate differences) from both. */
  lemma RandomMapKeepsClear(w: int, h: int, start: Cell, goal: Cell, margin: int, obs: set<Cell>, coin: Cell -> bool, c: Cell)
    requires forall d :: d in obs <==> InGrid(d, w, h) && !Cleared(d, start, goal, margin) && coin(d)
    requires c in obs
    ensures InGrid(c, w, h) && c != start && c != goal
    ensures Max(Abs(c.0 - start.0), Abs(c.1 - start.1)) > margin
    ensures Max(Abs(c.0 - goal.0), Abs(c.1 - goal.1)) > margin
  {
  }

  // ---------- cast_lidar_rays ----------

  /** `min(max(v, 0), hi - 1)`. */
  function Clamp(v: int, hi: int): (r: int)
    ensures hi > 0 ==> 0 <= r < hi
    ensures 0 <= v < hi ==> r == v
  {
    Min(Max(v, 0), hi - 1)
  }

  /** A clamped value is the in-range value nearest to the original. */
  lemma ClampNearest(v: int, hi: int, u: int)
    requires 0 <= u < hi
    ensures Abs(Clamp(v, hi) - v) <= Abs(u - v)
  {
  }

  /** A sample point mapped onto the grid. */
  function ClampCell(p: Cell, w: int, h: int): (c: Cell)
    ensures w > 0 && h > 0 ==> InGrid(c, w, h)
    ensures InGrid(p, w, h) ==> c == p
  {
    (Clamp(p.0, w), Clamp(p.1, h))
  }

  /** Where ray `i` stops when its samples `k` to `n - 1` remain and it
      stands on `last`: at the first clamped sample that is an obstacle,
      or at the last sample. `point(i, k)` is the rounded position of
      sample `k` (angle `2 pi i / rays`, distance `k / 4`). */
  function RayHit(last: Cell, obstacles: set<Cell>, w: int, h: int, point: (int, int) -> Cell, i: int, k: int, n: int): (hit: Cell)
    ensures k < n && w > 0 && h > 0 ==> InGrid(hit, w, h)
    ensures hit == last || exists j :: k <= j < n && hit == ClampCell(point(i, j), w, h)
    decreases n - k
  {
    if k >= n then last
    else
      var c := ClampCell(point(i, k), w, h);
      if c in obstacles then c else RayHit(c, obstacles, w, h, point, i, k + 1, n)
  }

  /** Sample `m` of ray `i` is an obstacle and samples `k` to `m - 1` are not. */
  predicate FirstBlocked(obstacles: set<Cell>, w: int, h: int, point: (int, int) -> Cell, i: int, k: int, m: int) {
    && ClampCell(point(i, m), w, h) in obstacles
    && forall l :: k <= l < m ==> ClampCell(point(i, l), w, h) !in obstacles
  }

  /** A ray that meets an obstacle stops at the first one it meets. */
  lemma {:induction false} RayStopsAtFirstObstacle(last: Cell, obstacles: set<Cell>, w: int, h: int, point: (int, int) -> Cell, i: int, k: int, n: int, j: int)
    requires k <= j < n && ClampCell(point(i, j), w, h) in obstacles
    ensures RayHit(last, obstacles, w, h, point, i, k, n) in obstacles
    ensures exists m :: k <= m <= j && FirstBlocked(obstacles, w, h, point, i, k, m) && RayHit(last, obstacles, w, h, point, i, k, n) == ClampCell(point(i, m), w, h)
    decreases n - k
  {
    var c := ClampCell(point(i, k), w, h);
    if c !in obstacles {
      RayStopsAtFirstObstacle(c, obstacles, w, h, point, i, k + 1, n, j);
      var m :| k + 1 <= m <= j && FirstBlocked(obstacles, w, h, point, i, k + 1, m) && RayHit(c, obstacles, w, h, point, i, k + 1, n) == ClampCell(point(i, m), w, h);
      assert FirstBlocked(obstacles, w, h, point, i, k, m);
    } else {
      assert FirstBlocked(obstacles, w, h, point, i, k, k);
    }
  }

  /** A ray without obstacles on it ends at its last sample. */
  lemma {:induction false} RayRunsFullRange(last: Cell, obstacles: set<Cell>, w: int, h: int, point: (int, int) -> Cell, i: int, k: int, n: int)
    requires k < n && forall l :: k <= l < n ==> ClampCell(point(i, l), w, h) !in obstacles
    ensures RayHit(last, obstacles, w, h, point, i, k, n) == ClampCell(point(i, n - 1), w, h)
    decreases n - k
  {
    if k + 1 < n {
      RayRunsFullRange(ClampCell(point(i, k), w, h), obstacles, w, h, point, i, k + 1, n);
    }
  }

  /** The inner `while dist < max_range` loop of `cast_lidar_rays` for ray
      `i`: `dist` takes the values `k / 4` for `k < 4 * max_range`, each
      exact in binary floating point. */
  method CastRay(pos: Cell, obstacles: set<Cell>, w: int, h: int, maxRange: int, point: (int, int) -> Cell, i: int)
    returns (hit: Cell)
    ensures hit == RayHit(pos, obstacles, w, h, point, i, 0, 4 * maxRange)
  {
    hit := pos;
    var k := 0;
    while k < 4 * maxRange
      invariant 0 <= k && (k <= 4 * maxRange || k == 0)
      invariant RayHit(hit, obstacles, w, h, point, i, k, 4 * maxRange) == RayHit(pos, obstacles, w, h, point, i, 0, 4 * maxRange)
      decreases 4 * maxRange - k
    {
      var cell := ClampCell(point(i, k), w, h);
      if cell in obstacles {
        hit := cell;
        break;
      }
      hit := cell;
      k := k + 1;
    }
  }

  /** `cast_lidar_rays(pos, obstacles, w, h, rays, max_range)`: one hit per
      ray, each where `RayHit` puts it, so inside the grid as soon as the
      grid and the range are non-empty. */
  method CastLidarRays(pos: Cell, obstacles: set<Cell>, w: int, h: int, rays: int, maxRange: int, point: (int, int) -> Cell)
    returns (hits: seq<Cell>)
    ensures |hits| == Max(rays, 0)
    ensures forall i :: 0 <= i < |hits| ==> hits[i] == RayHit(pos, obstacles, w, h, point, i, 0, 4 * maxRange)
    ensures w > 0 && h > 0 && maxRange > 0 ==> forall i :: 0 <= i < |hits| ==> InGrid(hits[i], w, h)
  {
    hits := [];
    var i := 0;
    while i < rays
      invariant 0 <= i && (i <= rays || i == 0) && |hits| == i
      invariant forall j :: 0 <= j < i ==> hits[j] == RayHit(pos, obstacles, w, h, point, j, 0, 4 * maxRange)
    {
      var hit := CastRay(pos, obstacles, w, h, maxRange, point, i);
      hits := hits + [hit];
      i := i + 1;
    }
  }

  // ---------- the navigation burst ----------

  /** The part of the session state the burst reads and writes. */
  datatype Nav = Nav(path: seq<Cell>, robot: Cell, start: Cell, goal: Cell)

  /** What the session keeps between reruns: the path starts where the
      robot stands and has no repeated cell, and it either ends at the goal
      or is only the robot's own cell; without a path the robot is at the
      start. */
  predicate Tracking(n: Nav) {
    && (n.path == [] ==> n.robot == n.start)
    && (n.path != [] ==> n.path[0] == n.robot && Distinct(n.path) && (n.path[|n.path| - 1] == n.goal || |n.path| == 1))
  }

  /** One move of the burst, `if len(path) > 1: robot_pos = path[1];
      path = path[1:]`. */
  function Move(n: Nav): (r: Nav)
    ensures |n.path| > 1 ==> |r.path| == |n.path| - 1 && r.robot == r.path[0] == n.path[1]
    ensures |n.path| > 1 ==> r.path[|r.path| - 1] == n.path[|n.path| - 1]
    ensures |n.path| <= 1 ==> r == n
    ensures r.start == n.start && r.goal == n.goal
  {
    if |n.path| > 1 then n.(robot := n.path[1], path := n.path[1..]) else n
  }

  /** `k` moves. */
  function Advance(n: Nav, k: nat): (r: Nav)
    ensures r.start == n.start && r.goal == n.goal
    decreases k
  {
    if k == 0 then n else Advance(Move(n), k - 1)
  }

  /** The last of `k + 1` moves comes after the first `k`. */
  lemma {:induction false} AdvanceLast(n: Nav, k: nat)
    ensures Advance(n, k + 1) == Move(Advance(n, k))
    decreases k
  {
    if k > 0 {
      AdvanceLast(Move(n), k - 1);
    }
  }

  /** `k` moves walk `min(k, len(path) - 1)` cells down the path. */
  lemma {:induction false} AdvanceClosed(n: Nav, k: nat)
    requires n.path != [] && n.path[0] == n.robot
    ensures var m := Min(k, |n.path| - 1);
      Advance(n, k) == Nav(n.path[m..], n.path[m], n.start, n.goal)
    decreases k
  {
    if k == 0 {
      assert n.path[0..] == n.path;
    } else if |n.path| == 1 {
      AdvanceStays(n, k - 1);
      assert n.path[0..] == n.path;
    } else {
      var n' := Move(n);
      assert Advance(n, k) == Advance(n', k - 1);
      AdvanceClosed(n', k - 1);
      var m := Min(k, |n.path| - 1);
      assert Min(k - 1, |n'.path| - 1) == m - 1;
      assert n'.path == n.path[1..];
      assert n'.path[m - 1] == n.path[m];
      assert n'.path[m - 1..] == n.path[m..];
      assert n'.start == n.start && n'.goal == n.goal;
      assert Advance(n, k) == Nav(n.path[m..], n.path[m], n.start, n.goal);
    }
  }

  /** With nowhere left to go, moves change nothing. */
  lemma {:induction false} AdvanceStays(n: Nav, k: nat)
    requires |n.path| <= 1
    ensures Advance(n, k + 1) == Advance(n, k) == n
    decreases k
  {
    if k > 0 {
      AdvanceStays(n, k - 1);
    }
  }

  /** The return swap at the goal, as written: the remaining path is
      reversed and `start` and `goal` trade places. */
  function Swap(n: Nav): (r: Nav)
    ensures r.robot == n.robot && |r.path| == |n.path|
    ensures n.robot != n.goal ==> r == n
    ensures n.robot == n.goal ==> r.start == n.goal && r.goal == n.start
  {
    if n.robot == n.goal then Nav(Reverse(n.path), n.robot, n.goal, n.start) else n
  }

  /** A reversed route is a route back, provided its first cell is an
      in-grid non-obstacle: the old start becomes the last cell. */
  lemma ReversedRoute(w: int, h: int, obstacles: set<Cell>, p: seq<Cell>, a: Cell, b: Cell)
    requires AppPath(w, h, obstacles, p, a, b) && InGrid(a, w, h) && a !in obstacles
    ensures AppPath(w, h, obstacles, Reverse(p), b, a)
  {
    var q := Reverse(p);
    forall i | 0 <= i < |q| - 1 ensures Step(q[i], q[i + 1], w, h) {
      var j := |p| - 2 - i;
      assert q[i] == p[j + 1] && q[i + 1] == p[j];
      assert Step(p[j], p[j + 1], w, h);
      ManhattanMetric(p[j], p[j + 1], p[j + 1]);
      if j > 0 {
        assert Step(p[j - 1], p[j], w, h);
      }
    }
    forall i | 0 < i < |q| ensures q[i] !in obstacles {
      assert q[i] == p[|p| - 1 - i];
    }
  }

  /** The burst of lines 453-481 as written, for a session with
      navigation on: nothing without a path, otherwise the return swap at
      the goal and then `steps` moves (`steps_per_burst`, which is 8). */
  function BurstAsWritten(n: Nav, steps: nat): Nav {
    if n.path == [] then n else Advance(Swap(n), steps)
  }

  /** A suffix of a sequence without repetition has none either. */
  lemma DistinctSuffix<T>(s: seq<T>, m: nat)
    requires Distinct(s) && m <= |s|
    ensures Distinct(s[m..])
  {
    forall i, j | 0 <= i < j < |s| - m ensures s[m..][i] != s[m..][j] {
      assert s[m..][i] == s[m + i] && s[m..][j] == s[m + j];
    }
  }

  /** Moving along the path keeps the session tracking it. */
  lemma TrackingAdvance(n: Nav, k: nat)
    requires Tracking(n) && n.path != []
    ensures Tracking(Advance(n, k)) && Advance(n, k).path != []
  {
    AdvanceClosed(n, k);
    DistinctSuffix(n.path, Min(k, |n.path| - 1));
  }

  /** At the goal, a tracked path is the robot's own cell alone, so the
      swap leaves the session tracking it. */
  lemma TrackingSwap(n: Nav)
    requires Tracking(n) && n.path != []
    ensures Tracking(Swap(n)) && Swap(n).path != []
  {
    if n.robot == n.goal {
      assert |n.path| == 1;
      assert Reverse(n.path) == n.path;
    }
  }

  /** Each burst keeps the session tracking its path. */
  lemma BurstKeepsTracking(n: Nav, steps: nat)
    requires Tracking(n)
    ensures Tracking(BurstAsWritten(n, steps))
  {
    if n.path != [] {
      TrackingSwap(n);
      TrackingAdvance(Swap(n), steps);
    }
  }

  /** `k` bursts as written. */
  function Bursts(n: Nav, steps: nat, k: nat): Nav
    decreases k
  {
    if k == 0 then n else Bursts(BurstAsWritten(n, steps), steps, k - 1)
  }

  /** The burst as evidently intended: at the goal the used-up path is
      dropped (rather than reversed) and `start` and `goal` trade places,
      so the loop's first pass plans the way back; `plan` is what
      `a_star(robot_pos, goal, ...)` returns there. An empty plan ends the
      burst with no path. */
  function BurstCorrected(n: Nav, plan: seq<Cell>, steps: nat): Nav {
    if n.path == [] then n
    else if n.robot != n.goal then Advance(n, steps)
    else if plan == [] then Nav([], n.robot, n.goal, n.start)
    else Advance(Nav(plan, n.robot, n.goal, n.start), steps)
  }

  /** The corrected burst keeps the session tracking its path when the plan
      is a route from the robot to the new goal without repeated cells. */
  lemma BurstCorrectedKeepsTracking(n: Nav, plan: seq<Cell>, steps: nat)
    requires Tracking(n)
    requires plan != [] ==> plan[0] == n.robot && plan[|plan| - 1] == n.start && Distinct(plan)
    ensures Tracking(BurstCorrected(n, plan, steps))
  {
    if n.path != [] && n.robot != n.goal {
      TrackingAdvance(n, steps);
    } else if n.path != [] && plan != [] {
      TrackingAdvance(Nav(plan, n.robot, n.goal, n.start), steps);
    }
  }

  /** `k` corrected bursts; `planner(from, to)` stands for `a_star`. */
  function CorrectedBursts(n: Nav, planner: (Cell, Cell) -> seq<Cell>, steps: nat, k: nat): Nav
    decreases k
  {
    if k == 0 then n else CorrectedBursts(BurstCorrected(n, planner(n.robot, n.start), steps), planner, steps, k - 1)
  }

  /** Away from the goal both bursts make the same moves. */
  lemma SameAwayFromGoal(n: Nav, plan: seq<Cell>, steps: nat)
    requires n.robot != n.goal
    ensures BurstCorrected(n, plan, steps) == BurstAsWritten(n, steps)
  {
  }

  /** `a` moves and then `b` more are `a + b` moves. */
  lemma {:induction false} AdvanceAdd(n: Nav, a: nat, b: nat)
    ensures Advance(Advance(n, a), b) == Advance(n, a + b)
    decreases a
  {
    if a > 0 {
      AdvanceAdd(Move(n), a - 1, b);
    }
  }

  /** The path leads from the robot to the goal without repeated cells. */
  predicate OnRoute(n: Nav) {
    n.path != [] && n.path[0] == n.robot && Distinct(n.path) && n.path[|n.path| - 1] == n.goal
  }

  /** A route to the goal without repeated cells, `k` cells shorter when
      `k` moves do not reach the goal. */
  lemma AdvanceRoute(n: Nav, k: nat)
    requires OnRoute(n)
    requires k < |n.path|
    ensures var r := Advance(n, k);
      OnRoute(r) && |r.path| == |n.path| - k
  {
    AdvanceClosed(n, k);
    DistinctSuffix(n.path, k);
  }

  /** Away from the goal both bursts are `steps` moves. */
  lemma OneBurst(n: Nav, plan: seq<Cell>, steps: nat)
    requires n.path != [] && n.robot != n.goal
    ensures BurstAsWritten(n, steps) == Advance(n, steps)
    ensures BurstCorrected(n, plan, steps) == Advance(n, steps)
  {
    assert Swap(n) == n;
  }

  /** `j` bursts of `steps` moves are one burst more than `j - 1`. */
  lemma BurstArithmetic(steps: nat, j: nat)
    requires j > 0
    ensures steps * j == steps * (j - 1) + steps && steps * (j - 1) >= 0
  {
  }

  /** Along a route to the goal without repeated cells, `k` bursts walk
      `steps * k` cells (as long as the goal is not reached before the last
      one), whichever burst runs. */
  lemma {:induction false} Travel(n: Nav, planner: (Cell, Cell) -> seq<Cell>, steps: nat, k: nat)
    requires OnRoute(n)
    requires k == 0 || steps * (k - 1) < |n.path| - 1
    ensures Bursts(n, steps, k) == Advance(n, steps * k)
    ensures CorrectedBursts(n, planner, steps, k) == Advance(n, steps * k)
    decreases k
  {
    if k > 0 {
      assert n.robot != n.goal by {
        assert n.path[0] != n.path[|n.path| - 1];
      }
      OneBurst(n, planner(n.robot, n.start), steps);
      var n' := Advance(n, steps);
      if k > 1 {
        var rest := steps * (k - 1);
        BurstArithmetic(steps, k - 1);
        AdvanceRoute(n, steps);
        Travel(n', planner, steps, k - 1);
        AdvanceAdd(n, steps, rest);
        assert steps + rest == steps * k;
      }
    }
  }

  /** The number of bursts a route of `len` cells takes: the ceiling of
      `(len - 1) / steps`. */
  function BurstsFor(len: nat, steps: nat): (k: nat)
    requires steps > 0
    ensures len > 1 ==> k > 0 && steps * (k - 1) < len - 1 <= steps * k
    ensures len <= 1 ==> k == 0
  {
    if len <= 1 then 0
    else
      var q := (len - 2) / steps;
      assert len - 2 == steps * q + (len - 2) % steps;
      assert steps * (q + 1) == steps * q + steps;
      q + 1
  }

  /** The outbound trip as written ends with the robot on the goal and the
      path reduced to that one cell. */
  lemma OutboundArrives(n: Nav, steps: nat)
    requires OnRoute(n) && steps > 0
    ensures Bursts(n, steps, BurstsFor(|n.path|, steps)) == Nav([n.goal], n.goal, n.start, n.goal)
  {
    var k := BurstsFor(|n.path|, steps);
    Travel(n, (a, b) => [], steps, k);
    AdvanceClosed(n, steps * k);
    assert n.path[|n.path| - 1..] == [n.goal];
  }

  /** Finding, as written: from the goal with the path used up to `[goal]`,
      the robot never moves again, however many bursts run, so it never
      returns to the start. */
  lemma {:induction false} ReturnLegStalls(n: Nav, steps: nat, k: nat)
    requires n.path == [n.robot] && n.robot == n.goal
    ensures Bursts(n, steps, k).robot == n.goal && Bursts(n, steps, k).path == [n.goal]
    decreases k
  {
    if k > 0 {
      var b := BurstAsWritten(n, steps);
      assert Reverse([n.robot]) == [n.robot];
      AdvanceStays(Swap(n), steps);
      assert b == Nav([n.goal], n.goal, n.goal, n.start);
      if n.start == n.goal {
        ReturnLegStalls(b, steps, k - 1);
      } else {
        StalledStays(b, steps, k - 1);
      }
    }
  }

  /** A robot whose only path cell is its own, away from the goal, stays. */
  lemma {:induction false} StalledStays(n: Nav, steps: nat, k: nat)
    requires n.path == [n.robot] && n.robot != n.goal
    ensures Bursts(n, steps, k) == n
    decreases k
  {
    if k > 0 {
      AdvanceStays(n, steps);
      StalledStays(n, steps, k - 1);
    }
  }

  /** Corrected: from the goal, if `a_star` finds a route back without
      repeated cells, the robot is back at the start after
      `ceil((len(route) - 1) / steps)` bursts. */
  lemma ReturnLegArrives(n: Nav, planner: (Cell, Cell) -> seq<Cell>, steps: nat)
    requires n.path != [] && n.robot == n.goal && steps > 0
    requires var p := planner(n.robot, n.start);
      p != [] && p[0] == n.robot && p[|p| - 1] == n.start && Distinct(p)
    ensures CorrectedBursts(n, planner, steps, BurstsFor(|planner(n.robot, n.start)|, steps)).robot == n.start
  {
    var p := planner(n.robot, n.start);
    var k := BurstsFor(|p|, steps);
    if k > 0 {
      var s := Nav(p, n.robot, n.goal, n.start);
      assert s.robot != s.goal by {
        assert p[0] != p[|p| - 1];
      }
      assert CorrectedBursts(n, planner, steps, k) == CorrectedBursts(s, planner, steps, k);
      Travel(s, planner, steps, k);
      AdvanceClosed(s, steps * k);
    }
  }

  /** The session state of the navigation tab. */
  class NavSession {
    const w: int
    const h: int
    var obstacles: set<Cell>
    var start: Cell
    var goal: Cell
    var robotPos: Cell
    var path: seq<Cell>
    var navOn: bool

    function Snapshot(): Nav
      reads this`path, this`robotPos, this`start, this`goal
    {
      Nav(path, robotPos, start, goal)
    }

    ghost predicate Valid()
      reads this`path, this`robotPos, this`start, this`goal
    {
      Tracking(Snapshot())
    }

    /** `init_state`'s navigation defaults. */
    constructor ()
      ensures Valid()
      ensures w == GridW && h == GridH && obstacles == {} && !navOn
      ensures start == RoomCell && goal == PharmacyCell && robotPos == RoomCell && path == []
    {
      w, h := GridW, GridH;
      obstacles, start, goal, robotPos, path, navOn := {}, RoomCell, PharmacyCell, RoomCell, [], false;
    }

    /** The Start Navigation button, shown while navigation is off: turn it
        on and plan from `start` to `goal` when there is no path. */
    method StartNavigation()
      requires Valid()
      modifies this`navOn, this`path
      ensures Valid()
      ensures old(navOn) ==> navOn && path == old(path)
      ensures !old(navOn) ==> navOn && (old(path) != [] ==> path == old(path))
      ensures !old(navOn) && old(path) == [] && path != [] ==> AppPath(w, h, obstacles, path, start, goal)
      ensures !old(navOn) && old(path) == [] && path == [] ==> forall p :: !AppPath(w, h, obstacles, p, start, goal)
    {
      if !navOn {
        navOn := true;
        if path == [] {
          path := AStar(start, goal, w, h, obstacles);
        }
      }
    }

    /** The Stop Navigation button, shown while navigation is on. */
    method StopNavigation()
      modifies this`navOn
      ensures !navOn
    {
      navOn := false;
    }

    /** The Randomize Obstacles button: a new map clear around `start` and
        `goal`, a new route, and the robot back at the start. */
    method RandomizeMap(coin: Cell -> bool)
      modifies this`obstacles, this`path, this`robotPos
      ensures Valid() && robotPos == start
      ensures forall c :: c in obstacles <==> InGrid(c, w, h) && !Cleared(c, start, goal, ClearMargin) && coin(c)
      ensures path != [] ==> AppPath(w, h, obstacles, path, start, goal)
      ensures path == [] ==> forall p :: !AppPath(w, h, obstacles, p, start, goal)
    {
      var obs := RandomizeObstacles(w, h, start, goal, ClearMargin, coin);
      var route := AStar(start, goal, w, h, obs);
      obstacles, path, robotPos := obs, route, start;
    }

    /** The Reset Map button: no obstacles, a new route, and the robot back
        at the start. */
    method ResetMap()
      modifies this`obstacles, this`path, this`robotPos
      ensures Valid() && robotPos == start && obstacles == {}
      ensures path != [] ==> AppPath(w, h, {}, path, start, goal) && |path| >= Manhattan(start, goal) + 1
      ensures path == [] ==> forall p :: !AppPath(w, h, {}, p, start, goal)
    {
      var route := AStar(start, goal, w, h, {});
      if route != [] {
        RouteLength(w, h, {}, route, start, goal);
      }
      obstacles, path, robotPos := {}, route, start;
    }

    /** "Ensure path is available": plan from `start` when there is no
        path. */
    method EnsurePath()
      requires Valid()
      modifies this`path
      ensures Valid()
      ensures old(path) != [] ==> path == old(path)
      ensures old(path) == [] && path != [] ==> AppPath(w, h, obstacles, path, start, goal)
      ensures old(path) == [] && path == [] ==> forall p :: !AppPath(w, h, obstacles, p, start, goal)
    {
      if path == [] {
        path := AStar(start, goal, w, h, obstacles);
      }
    }

    /** Lines 453-481 as written: with navigation on and a path, swap at the
        goal, then eight moves. */
    method Burst()
      requires Valid()
      modifies this`path, this`robotPos, this`start, this`goal
      ensures Valid()
      ensures Snapshot() == if old(navOn) then BurstAsWritten(old(Snapshot()), StepsPerBurst) else old(Snapshot())
    {
      ghost var s0 := Snapshot();
      if navOn && path != [] {
        if robotPos == goal {
          path, goal, start := Reverse(path), start, goal;
        }
        var i := 0;
        while i < StepsPerBurst
          invariant 0 <= i <= StepsPerBurst && path != []
          invariant Snapshot() == Advance(Swap(s0), i)
        {
          if path == [] {
            // The replanning branch: the path is non-empty on entry and a
            // move never empties it.
            assert false;
          }
          AdvanceLast(Swap(s0), i);
          if |path| > 1 {
            robotPos, path := path[1], path[1..];
          }
          i := i + 1;
        }
        BurstKeepsTracking(s0, StepsPerBurst);
      }
    }

    /** The burst as evidently intended (see `BurstCorrected`). Returns the
        plan `a_star` made at the goal, or `[]` when it made none. */
    method BurstFixed() returns (plan: seq<Cell>)
      requires Valid()
      modifies this`path, this`robotPos, this`start, this`goal
      ensures Valid()
      ensures Snapshot() == if old(navOn) then BurstCorrected(old(Snapshot()), plan, StepsPerBurst) else old(Snapshot())
      ensures plan != [] ==> AppPath(w, h, obstacles, plan, old(robotPos), old(start)) && Distinct(plan)
      ensures old(navOn) && old(path) != [] && old(robotPos) == old(goal) && plan == [] ==>
        forall p :: !AppPath(w, h, obstacles, p, old(robotPos), old(start))
    {
      ghost var s0 := Snapshot();
      ghost var atGoal := navOn && path != [] && robotPos == goal;
      ghost var base := s0;
      plan := [];
      if navOn && path != [] {
        if robotPos == goal {
          path, goal, start := [], start, goal;
          base := Snapshot();
        }
        var i := 0;
        while i < StepsPerBurst
          invariant 0 <= i <= StepsPerBurst
          invariant path == [] ==> atGoal && i == 0 && plan == [] && Snapshot() == Nav([], s0.robot, s0.goal, s0.start)
          invariant path != [] ==> base.path != [] && base.path[0] == base.robot && Snapshot() == Advance(base, i)
          invariant base == if atGoal then Nav(plan, s0.robot, s0.goal, s0.start) else s0
          invariant plan != [] ==> atGoal && AppPath(w, h, obstacles, plan, s0.robot, s0.start) && Distinct(plan)
        {
          if path == [] {
            plan := AStar(robotPos, goal, w, h, obstacles);
            path := plan;
            base := Nav(plan, s0.robot, s0.goal, s0.start);
            if path == [] {
              break;
            }
          }
          AdvanceLast(base, i);
          if |path| > 1 {
            robotPos, path := path[1], path[1..];
          }
          i := i + 1;
        }
        BurstCorrectedKeepsTracking(s0, plan, StepsPerBurst);
      }
    }
  }
}

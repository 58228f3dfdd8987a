/** The value-level pieces of nav_pygame.py's simulation: the demo wall
    layout, the six-line log window, the cells dynamic obstacles may occupy,
    the random walk of those obstacles, the LIDAR beam walk and the
    composite occupancy view that planning uses. */
module NavWorld {
  import opened GridBasics
  import opened NavPlanner

  /** `OBSTACLE_COUNT`. */
  const ObstacleCount: nat := 10

  /** The log keeps the six most recent lines. */
  const MaxLog: nat := 6

  /** `LIDAR_RANGE_CELLS`: cells probed along each beam. */
  const LidarRangeCells: nat := 5

  /** `LIDAR_ANGLE_STEP` in degrees; `range(0, 360, 6)` gives 60 beams. */
  const LidarAngleStep: nat := 6
  const BeamCount: nat := 60

  /** The probability `move_dynamic` compares `random.random()` against. */
  const MoveChance: real := 0.6

  /** The directions `move_dynamic` shuffles, staying put first. */
  const StepDirs: seq<Cell> := [(0, 0), (1, 0), (-1, 0), (0, 1), (0, -1)]

  // ---------- the demo layout ----------

  /** The walls `__init__` draws: column 7 of rows 3 to 10 and row 9 of
      columns 6 to 15, with a gap left at (9, 10). */
  predicate DemoWall(r: int, c: int) {
    (3 <= r <= 10 && c == 7) || (r == 9 && 6 <= c <= 15 && c != 10)
  }

  function DemoGrid(rows: nat, cols: nat): Grid {
    seq(rows, r => seq(cols, c => if DemoWall(r, c) then 1 else 0))
  }

  /** A grid of `rows` rows of `cols` zeros and ones. */
  predicate Board(grid: Grid, rows: int, cols: int) {
    && |grid| == rows > 0 && cols > 0
    && (forall r :: 0 <= r < rows ==> |grid[r]| == cols)
    && (forall r, c :: 0 <= r < rows && 0 <= c < cols ==> grid[r][c] == 0 || grid[r][c] == 1)
  }

  /** The demo grid is a board of walls exactly where the layout puts them,
      and on any grid large enough for the layout the start `(rows - 2, 2)`
      and the goal `(2, cols - 3)` are free cells of it. */
  lemma DemoLayout(rows: nat, cols: nat)
    requires rows >= 11 && cols >= 16
    ensures Board(DemoGrid(rows, cols), rows, cols) && WellFormed(DemoGrid(rows, cols))
    ensures forall r, c :: 0 <= r < rows && 0 <= c < cols ==> (DemoGrid(rows, cols)[r][c] == 1 <==> DemoWall(r, c))
    ensures Passable(DemoGrid(rows, cols), (rows - 2, 2)) && Passable(DemoGrid(rows, cols), (2, cols - 3))
  {
  }

  /** `[[0]*cols for _ in range(rows)]` followed by the wall loops of
      `__init__`. */
  method BuildDemoGrid(rows: nat, cols: nat) returns (g: Grid)
    requires rows >= 11 && cols >= 16
    ensures g == DemoGrid(rows, cols)
  {
    g := seq(rows, r => seq(cols, c => 0));
    for r := 3 to 11
      invariant |g| == rows && forall i :: 0 <= i < rows ==> |g[i]| == cols
      invariant forall i, j :: 0 <= i < rows && 0 <= j < cols ==> g[i][j] == (if 3 <= i < r && j == 7 then 1 else 0)
    {
      g := g[r := g[r][7 := 1]];
    }
    for c := 6 to 16
      invariant |g| == rows && forall i :: 0 <= i < rows ==> |g[i]| == cols
      invariant forall i, j :: 0 <= i < rows && 0 <= j < cols ==>
        g[i][j] == (if (3 <= i <= 10 && j == 7) || (i == 9 && 6 <= j < c) then 1 else 0)
    {
      g := g[9 := g[9][c := 1]];
    }
    g := g[9 := g[9][10 := 0]];
    assert forall i :: 0 <= i < rows ==> g[i] == DemoGrid(rows, cols)[i];
  }

  // ---------- the log window ----------

  /** `add_log`: append the line, then drop the oldest line once there are
      more than six. */
  function LogAppend(log: seq<string>, line: string): (r: seq<string>)
    ensures |log| <= MaxLog ==> |r| == Min(|log| + 1, MaxLog)
    ensures 0 < |r| <= |log| + 1 && r[|r| - 1] == line
    ensures forall i :: 0 <= i < |r| ==> r[i] == (log + [line])[|log| + 1 - |r| + i]
  {
    var l := log + [line];
    if |l| > MaxLog then seq(|l| - 1, i requires 0 <= i < |l| - 1 => l[i + 1]) else l
  }

  /** The decimal digits of `n`, as `f"{n}"` writes them. */
  function NatToString(n: nat): (s: string)
    ensures |s| > 0 && forall i :: 0 <= i < |s| ==> '0' <= s[i] <= '9'
    ensures s[0] == '0' ==> n == 0
  {
    if n < 10 then [Digit(n)] else NatToString(n / 10) + [Digit(n % 10)]
  }

  function Digit(d: nat): char
    requires d < 10
  {
    "0123456789"[d]
  }

  /** The number a string of decimal digits denotes. */
  function DecimalValue(s: string): int {
    if s == [] then 0 else DecimalValue(s[..|s| - 1]) * 10 + (s[|s| - 1] as int - '0' as int)
  }

  /** The digits read back give the number. */
  lemma {:induction false} NatToStringRoundTrip(n: nat)
    ensures DecimalValue(NatToString(n)) == n
  {
    if n >= 10 {
      NatToStringRoundTrip(n / 10);
      var s := NatToString(n);
      assert s[..|s| - 1] == NatToString(n / 10);
    }
  }

  // ---------- cells for dynamic obstacles ----------

  /** A free cell of the grid that is neither the start nor the goal. */
  predicate Spawnable(grid: Grid, start: Cell, goal: Cell, c: Cell)
    requires WellFormed(grid)
  {
    Passable(grid, c) && c != start && c != goal
  }

  function KeepSpawnable(grid: Grid, start: Cell, goal: Cell, s: seq<Cell>): (r: seq<Cell>)
    requires WellFormed(grid)
    ensures forall c :: c in r <==> c in s && Spawnable(grid, start, goal, c)
    ensures Distinct(s) ==> Distinct(r)
  {
    if s == [] then []
    else (if Spawnable(grid, start, goal, s[0]) then [s[0]] else []) + KeepSpawnable(grid, start, goal, s[1..])
  }

  /** The list comprehension `free` of `spawn_dynamic`: the spawnable cells
      in row-major order, each once. */
  function FreeCells(grid: Grid, start: Cell, goal: Cell): (r: seq<Cell>)
    requires WellFormed(grid)
    ensures forall c :: c in r <==> Spawnable(grid, start, goal, c)
    ensures Distinct(r)
  {
    KeepSpawnable(grid, start, goal, Enumerate(|grid|, |grid[0]|))
  }

  /** `free` after `random.shuffle(free)`: every spawnable cell, each
      once, in some order. */
  ghost predicate FreeShuffle(grid: Grid, start: Cell, goal: Cell, s: seq<Cell>)
    requires WellFormed(grid)
  {
    Distinct(s) && forall c :: c in s <==> Spawnable(grid, start, goal, c)
  }

  /** The shuffles of `free` are exactly its permutations. */
  lemma FreeShuffleIsPermutation(grid: Grid, start: Cell, goal: Cell, s: seq<Cell>)
    requires WellFormed(grid)
    ensures FreeShuffle(grid, start, goal, s) <==> multiset(s) == multiset(FreeCells(grid, start, goal))
  {
    var f := FreeCells(grid, start, goal);
    DistinctCounts(f);
    if FreeShuffle(grid, start, goal, s) {
      DistinctCounts(s);
      assert forall x :: multiset(s)[x] == multiset(f)[x];
    }
    if multiset(s) == multiset(f) {
      forall c ensures c in s <==> Spawnable(grid, start, goal, c) {
        assert c in s <==> c in multiset(s);
        assert c in f <==> c in multiset(f);
      }
      forall i, j | 0 <= i < j < |s| ensures s[i] != s[j] {
        if s[i] == s[j] {
          RepeatCounts(s, i, j);
        }
      }
    }
  }

  /** What `spawn_dynamic` adds out of a shuffle of `free` to the obstacles
      `dyn`: at most `n` new cells, every one spawnable. */
  lemma SpawnedCells(grid: Grid, start: Cell, goal: Cell, dyn: set<Cell>, shuffled: seq<Cell>, n: nat)
    requires WellFormed(grid) && FreeShuffle(grid, start, goal, shuffled)
    ensures |(dyn + Elems(shuffled[..Min(n, |shuffled|)])) - dyn| <= n
    ensures forall c :: c in shuffled[..Min(n, |shuffled|)] ==> Spawnable(grid, start, goal, c)
  {
    var added := Elems(shuffled[..Min(n, |shuffled|)]);
    var joined := (dyn + added) - dyn;
    ElemsCard(shuffled[..Min(n, |shuffled|)]);
    assert joined <= added;
    assert added == joined + (added - joined);
  }

  /** The loop of `spawn_dynamic`: the first `min(n, len(free))` cells of
      the shuffled list join the obstacles `dyn`. */
  method SpawnCells(dyn: set<Cell>, shuffled: seq<Cell>, n: nat) returns (d: set<Cell>)
    ensures d == dyn + Elems(shuffled[..Min(n, |shuffled|)])
  {
    d := dyn;
    for i := 0 to Min(n, |shuffled|)
      invariant d == dyn + Elems(shuffled[..i])
    {
      assert shuffled[..i + 1] == shuffled[..i] + [shuffled[i]];
      d := d + {shuffled[i]};
    }
  }

  // ---------- the random walk of dynamic obstacles ----------

  /** The test `move_dynamic` applies to a candidate cell: in bounds, free,
      not an obstacle already, not the start, not the goal. */
  predicate Fits(grid: Grid, start: Cell, goal: Cell, dyn: set<Cell>, x: Cell)
    requires WellFormed(grid)
  {
    Spawnable(grid, start, goal, x) && x !in dyn
  }

  /** The position of the first direction in `dirs` whose cell fits, or
      `|dirs|` when none does. */
  function FirstFit(grid: Grid, start: Cell, goal: Cell, dyn: set<Cell>, c: Cell, dirs: seq<Cell>): (k: nat)
    requires WellFormed(grid)
    ensures k <= |dirs|
    ensures forall j :: 0 <= j < k ==> !Fits(grid, start, goal, dyn, Shift(c, dirs[j]))
    ensures k < |dirs| ==> Fits(grid, start, goal, dyn, Shift(c, dirs[k]))
  {
    if dirs == [] then 0
    else if Fits(grid, start, goal, dyn, Shift(c, dirs[0])) then 0
    else 1 + FirstFit(grid, start, goal, dyn, c, dirs[1..])
  }

  /** A position before which nothing fits and at which something fits, or
      the end, is the first fit. */
  lemma FirstFitAt(grid: Grid, start: Cell, goal: Cell, dyn: set<Cell>, c: Cell, dirs: seq<Cell>, i: nat)
    requires WellFormed(grid) && i <= |dirs|
    requires forall j :: 0 <= j < i ==> !Fits(grid, start, goal, dyn, Shift(c, dirs[j]))
    requires i < |dirs| ==> Fits(grid, start, goal, dyn, Shift(c, dirs[i]))
    ensures FirstFit(grid, start, goal, dyn, c, dirs) == i
  {
  }

  /** Where one obstacle at `c` goes: with `coin < 0.6` to the first fitting
      cell in its shuffled directions, if any; otherwise it stays. */
  function NextCell(grid: Grid, start: Cell, goal: Cell, dyn: set<Cell>, c: Cell, coin: real, dirs: seq<Cell>): Cell
    requires WellFormed(grid)
  {
    if coin < MoveChance then
      var k := FirstFit(grid, start, goal, dyn, c, dirs);
      if k < |dirs| then Shift(c, dirs[k]) else c
    else c
  }

  /** The `newset` of `move_dynamic`: every obstacle's next cell, each
      obstacle drawing its own coin and direction shuffle. */
  function Moved(grid: Grid, start: Cell, goal: Cell, dyn: set<Cell>, coins: map<Cell, real>, shuffles: map<Cell, seq<Cell>>): set<Cell>
    requires WellFormed(grid) && dyn <= coins.Keys && dyn <= shuffles.Keys
  {
    set c | c in dyn :: NextCell(grid, start, goal, dyn, c, coins[c], shuffles[c])
  }

  /** The "stay" direction never passes the test, because the obstacle's own
      cell is in the obstacle set: an obstacle stays only when it loses the
      coin toss or no neighbour fits. */
  lemma StayNeverFits(grid: Grid, start: Cell, goal: Cell, dyn: set<Cell>, c: Cell)
    requires WellFormed(grid) && c in dyn
    ensures !Fits(grid, start, goal, dyn, Shift(c, StepDirs[0]))
  {
  }

  /** An obstacle either keeps its cell or moves to a 4-neighbour that is
      free, in bounds, not the start or the goal and held by no obstacle
      before the move. */
  lemma {:induction false} NextCellStep(grid: Grid, start: Cell, goal: Cell, dyn: set<Cell>, c: Cell, coin: real, dirs: seq<Cell>)
    requires WellFormed(grid) && c in dyn && forall d :: d in dirs ==> d in StepDirs
    ensures var x := NextCell(grid, start, goal, dyn, c, coin, dirs);
      x == c || (Adjacent(c, x) && Fits(grid, start, goal, dyn, x))
  {
    var k := FirstFit(grid, start, goal, dyn, c, dirs);
    if coin < MoveChance && k < |dirs| {
      var x := Shift(c, dirs[k]);
      assert dirs[k] in StepDirs;
      if dirs[k] == StepDirs[0] {
        StayNeverFits(grid, start, goal, dyn, c);
      }
    }
  }

  /** `move_dynamic` keeps obstacles on spawnable cells, and the new set is
      no larger than the old one: two obstacles may land on one cell. */
  lemma {:induction false} MovedSpawnable(grid: Grid, start: Cell, goal: Cell, dyn: set<Cell>, coins: map<Cell, real>, shuffles: map<Cell, seq<Cell>>)
    requires WellFormed(grid) && dyn <= coins.Keys && dyn <= shuffles.Keys
    requires forall c :: c in dyn ==> multiset(shuffles[c]) == multiset(StepDirs)
    requires forall c :: c in dyn ==> Spawnable(grid, start, goal, c)
    ensures forall x :: x in Moved(grid, start, goal, dyn, coins, shuffles) ==> Spawnable(grid, start, goal, x)
    ensures |Moved(grid, start, goal, dyn, coins, shuffles)| <= |dyn|
  {
    forall x | x in Moved(grid, start, goal, dyn, coins, shuffles) ensures Spawnable(grid, start, goal, x) {
      var c :| c in dyn && x == NextCell(grid, start, goal, dyn, c, coins[c], shuffles[c]);
      forall d | d in shuffles[c] ensures d in StepDirs {
        assert d in multiset(shuffles[c]);
      }
      NextCellStep(grid, start, goal, dyn, c, coins[c], shuffles[c]);
    }
    ImageCard(grid, start, goal, dyn, dyn, coins, shuffles);
  }

  /** The next cells of the obstacles in `part` are no more than `part`. */
  lemma {:induction false} ImageCard(grid: Grid, start: Cell, goal: Cell, dyn: set<Cell>, part: set<Cell>, coins: map<Cell, real>, shuffles: map<Cell, seq<Cell>>)
    requires WellFormed(grid) && part <= dyn && dyn <= coins.Keys && dyn <= shuffles.Keys
    ensures |set c | c in part :: NextCell(grid, start, goal, dyn, c, coins[c], shuffles[c])| <= |part|
    decreases |part|
  {
    if part != {} {
      var c :| c in part;
      var rest := part - {c};
      ImageCard(grid, start, goal, dyn, rest, coins, shuffles);
      var img := set x | x in part :: NextCell(grid, start, goal, dyn, x, coins[x], shuffles[x]);
      var img' := set x | x in rest :: NextCell(grid, start, goal, dyn, x, coins[x], shuffles[x]);
      var bigger := img' + {NextCell(grid, start, goal, dyn, c, coins[c], shuffles[c])};
      assert img <= bigger;
      assert bigger == img + (bigger - img);
    }
  }
  /** One more obstacle's turn added to the part of `newset` built so far. */
  lemma MovedStep(grid: Grid, start: Cell, goal: Cell, dyn: set<Cell>, done: set<Cell>, c: Cell, coins: map<Cell, real>, shuffles: map<Cell, seq<Cell>>)
    requires WellFormed(grid) && done <= dyn && c in dyn && dyn <= coins.Keys && dyn <= shuffles.Keys
    ensures (set x | x in done :: NextCell(grid, start, goal, dyn, x, coins[x], shuffles[x])) + {NextCell(grid, start, goal, dyn, c, coins[c], shuffles[c])}
      == set x | x in done + {c} :: NextCell(grid, start, goal, dyn, x, coins[x], shuffles[x])
  {
  }

  /** One obstacle's turn in `move_dynamic`, given its coin and its
      shuffled directions: try them in order against the obstacle set `dyn`
      as it was before the move. */
  method StepObstacle(grid: Grid, start: Cell, goal: Cell, dyn: set<Cell>, c: Cell, coin: real, dirs: seq<Cell>) returns (x: Cell)
    requires WellFormed(grid)
    ensures x == NextCell(grid, start, goal, dyn, c, coin, dirs)
  {
    if coin < MoveChance {
      for i := 0 to |dirs|
        invariant forall j :: 0 <= j < i ==> !Fits(grid, start, goal, dyn, Shift(c, dirs[j]))
      {
        var nb := Shift(c, dirs[i]);
        if 0 <= nb.0 < |grid| && 0 <= nb.1 < |grid[0]| && grid[nb.0][nb.1] == 0 && nb !in dyn && nb != start && nb != goal {
          FirstFitAt(grid, start, goal, dyn, c, dirs, i);
          return nb;
        }
      }
      FirstFitAt(grid, start, goal, dyn, c, dirs, |dirs|);
    }
    return c;
  }

  /** The loop of `move_dynamic`: every obstacle, in some order, takes its
      turn, and `newset` collects where they go. */
  method MoveAll(grid: Grid, start: Cell, goal: Cell, dyn: set<Cell>, coins: map<Cell, real>, shuffles: map<Cell, seq<Cell>>) returns (newset: set<Cell>)
    requires WellFormed(grid) && dyn <= coins.Keys && dyn <= shuffles.Keys
    ensures newset == Moved(grid, start, goal, dyn, coins, shuffles)
  {
    newset := {};
    ghost var done: set<Cell> := {};
    var todo := dyn;
    while todo != {}
      invariant todo <= dyn && done == dyn - todo
      invariant newset == set x | x in done :: NextCell(grid, start, goal, dyn, x, coins[x], shuffles[x])
      decreases |todo|
    {
      var c :| c in todo;
      var x := StepObstacle(grid, start, goal, dyn, c, coins[c], shuffles[c]);
      MovedStep(grid, start, goal, dyn, done, c, coins, shuffles);
      newset := newset + {x};
      done, todo := done + {c}, todo - {c};
    }
    assert done == dyn;
  }


  // ---------- the LIDAR beam walk ----------

  /** The cells a beam lights up, then the cell it detects, if any. */
  datatype Sweep = Sweep(lit: seq<Cell>, hit: Option<Cell>)

  /** `self.grid[rr][cc] == 1 or (rr, cc) in self.dynamic`. */
  predicate Occupied(grid: Grid, dyn: set<Cell>, x: Cell)
    requires WellFormed(grid) && InBounds(grid, x)
  {
    grid[x.0][x.1] == 1 || x in dyn
  }

  /** One beam of `lidar_scan`: its cells in order of distance. The walk
      stops before the first cell outside the grid and after the first
      occupied cell, which it detects. */
  function BeamScan(grid: Grid, dyn: set<Cell>, beam: seq<Cell>): Sweep
    requires WellFormed(grid)
  {
    if beam == [] || !InBounds(grid, beam[0]) then Sweep([], None)
    else if Occupied(grid, dyn, beam[0]) then Sweep([beam[0]], Some(beam[0]))
    else
      var rest := BeamScan(grid, dyn, beam[1..]);
      Sweep([beam[0]] + rest.lit, rest.hit)
  }

  /** The cells a beam lights are a prefix of it, all in the grid and all
      but the last free; it detects exactly its first occupied cell, and it
      stops early only at a detection or at a cell outside the grid. */
  lemma {:induction false} BeamScanSpec(grid: Grid, dyn: set<Cell>, beam: seq<Cell>)
    requires WellFormed(grid)
    ensures var r := BeamScan(grid, dyn, beam);
      && |r.lit| <= |beam| && r.lit == beam[..|r.lit|]
      && (forall j :: 0 <= j < |r.lit| ==> InBounds(grid, r.lit[j]))
      && (forall j :: 0 <= j < |r.lit| - 1 ==> !Occupied(grid, dyn, r.lit[j]))
      && (r.hit.Some? <==> |r.lit| > 0 && Occupied(grid, dyn, r.lit[|r.lit| - 1]))
      && (r.hit.Some? ==> r.hit.value == r.lit[|r.lit| - 1])
      && (|r.lit| < |beam| ==> r.hit.Some? || !InBounds(grid, beam[|r.lit|]))
  {
    if beam != [] && InBounds(grid, beam[0]) && !Occupied(grid, dyn, beam[0]) {
      BeamScanSpec(grid, dyn, beam[1..]);
      var rest := BeamScan(grid, dyn, beam[1..]);
      assert beam[..|rest.lit| + 1] == [beam[0]] + beam[1..][..|rest.lit|];
    }
  }

  /** Walking a beam whose first `d` cells are in the grid and free: what
      the walk gives when it stops at position `d`. */
  lemma {:induction false} BeamScanStops(grid: Grid, dyn: set<Cell>, beam: seq<Cell>, d: nat)
    requires WellFormed(grid) && d <= |beam|
    requires forall j :: 0 <= j < d ==> InBounds(grid, beam[j]) && !Occupied(grid, dyn, beam[j])
    ensures d == |beam| ==> BeamScan(grid, dyn, beam) == Sweep(beam, None)
    ensures d < |beam| && !InBounds(grid, beam[d]) ==> BeamScan(grid, dyn, beam) == Sweep(beam[..d], None)
    ensures d < |beam| && InBounds(grid, beam[d]) && Occupied(grid, dyn, beam[d]) ==>
      BeamScan(grid, dyn, beam) == Sweep(beam[..d + 1], Some(beam[d]))
    decreases d
  {
    if d > 0 {
      BeamScanStops(grid, dyn, beam[1..], d - 1);
      assert [beam[0]] + beam[1..] == beam;
      assert d - 1 < |beam| - 1 ==> [beam[0]] + beam[1..][..d - 1] == beam[..d] && [beam[0]] + beam[1..][..d] == beam[..d + 1];
    }
  }

  /** The `sensors` list of a sweep: every beam's lit cells, beam after beam. */
  function SweepLit(grid: Grid, dyn: set<Cell>, beams: seq<seq<Cell>>): seq<Cell>
    requires WellFormed(grid)
  {
    if beams == [] then []
    else SweepLit(grid, dyn, beams[..|beams| - 1]) + BeamScan(grid, dyn, beams[|beams| - 1]).lit
  }

  /** The `detected` set of a sweep: every beam's detected cell. */
  function SweepHits(grid: Grid, dyn: set<Cell>, beams: seq<seq<Cell>>): set<Cell>
    requires WellFormed(grid)
  {
    if beams == [] then {}
    else
      var last := BeamScan(grid, dyn, beams[|beams| - 1]).hit;
      SweepHits(grid, dyn, beams[..|beams| - 1]) + (if last.Some? then {last.value} else {})
  }

  /** A cell is detected exactly when some beam detects it; every detected
      cell is in bounds and is a wall or a dynamic obstacle. */
  lemma {:induction false} SweepHitsSpec(grid: Grid, dyn: set<Cell>, beams: seq<seq<Cell>>)
    requires WellFormed(grid)
    ensures forall x :: x in SweepHits(grid, dyn, beams) <==>
      exists i :: 0 <= i < |beams| && BeamScan(grid, dyn, beams[i]).hit == Some(x)
    ensures forall x :: x in SweepHits(grid, dyn, beams) ==> InBounds(grid, x) && Occupied(grid, dyn, x)
  {
    if beams != [] {
      BeamScanSpec(grid, dyn, beams[|beams| - 1]);
      var front := beams[..|beams| - 1];
      SweepHitsSpec(grid, dyn, front);
      forall x | x in SweepHits(grid, dyn, beams) ensures exists i :: 0 <= i < |beams| && BeamScan(grid, dyn, beams[i]).hit == Some(x) {
        if x in SweepHits(grid, dyn, front) {
          var i :| 0 <= i < |front| && BeamScan(grid, dyn, front[i]).hit == Some(x);
          assert beams[i] == front[i];
        } else {
          assert BeamScan(grid, dyn, beams[|beams| - 1]).hit == Some(x);
        }
      }
      forall x, i | 0 <= i < |beams| && BeamScan(grid, dyn, beams[i]).hit == Some(x) ensures x in SweepHits(grid, dyn, beams) {
        if i < |front| {
          assert front[i] == beams[i];
        }
      }
    }
  }

  /** The sensor's rotation after a sweep: six degrees on, modulo 360. */
  function NextAngle(angle: int): (a: int)
    ensures 0 <= a < 360
    ensures 0 <= angle < 360 ==> a == if angle + LidarAngleStep < 360 then angle + LidarAngleStep else angle + LidarAngleStep - 360
  {
    (angle + LidarAngleStep) % 360
  }

  // ---------- the composite occupancy view ----------

  /** `grid` with every cell of `cells` that lies inside it set to 1. */
  function Overlay(grid: Grid, cells: set<Cell>): (g: Grid)
    ensures |g| == |grid| && forall r :: 0 <= r < |g| ==> |g[r]| == |grid[r]|
  {
    seq(|grid|, r requires 0 <= r < |grid| => seq(|grid[r]|, c requires 0 <= c < |grid[r]| => if (r, c) in cells then 1 else grid[r][c]))
  }

  /** `current_grid`: the walls, then the dynamic obstacles, then the
      detected cells. */
  function Composite(grid: Grid, dyn: set<Cell>, detected: set<Cell>): (g: Grid)
    ensures WellFormed(grid) ==> WellFormed(g)
  {
    Overlay(grid, dyn + detected)
  }

  /** On a board, the composite view is a board of the same size, a cell is
      1 in it exactly when it is a wall, a dynamic obstacle or a detected
      cell, and a cell is passable in it exactly when it is passable on the
      walls alone and neither an obstacle nor detected. */
  lemma CompositeSpec(grid: Grid, rows: int, cols: int, dyn: set<Cell>, detected: set<Cell>)
    requires Board(grid, rows, cols)
    ensures Board(Composite(grid, dyn, detected), rows, cols) && WellFormed(Composite(grid, dyn, detected))
    ensures forall r, c :: 0 <= r < rows && 0 <= c < cols ==>
      (Composite(grid, dyn, detected)[r][c] == 1 <==> grid[r][c] == 1 || (r, c) in dyn || (r, c) in detected)
    ensures forall x :: Passable(Composite(grid, dyn, detected), x) <==> WellFormed(grid) && Passable(grid, x) && x !in dyn && x !in detected
  {
    var g := Composite(grid, dyn, detected);
    forall x ensures Passable(g, x) <==> Passable(grid, x) && x !in dyn && x !in detected {
      if InBounds(grid, x) {
        assert g[x.0][x.1] == if x in dyn + detected then 1 else grid[x.0][x.1];
      }
    }
  }

  /** Marking one more in-bounds cell is one more assignment `g[r][c] = 1`. */
  lemma OverlayMark(grid: Grid, cells: set<Cell>, x: Cell)
    requires 0 <= x.0 < |grid| && 0 <= x.1 < |grid[x.0]|
    ensures Overlay(grid, cells + {x}) == Overlay(grid, cells)[x.0 := Overlay(grid, cells)[x.0][x.1 := 1]]
  {
    var a := Overlay(grid, cells + {x});
    var b := Overlay(grid, cells)[x.0 := Overlay(grid, cells)[x.0][x.1 := 1]];
    assert |a| == |b|;
    forall r | 0 <= r < |a| ensures a[r] == b[r] {
      assert |a[r]| == |b[r]|;
    }
  }

  /** Marking nothing leaves the grid as it is. */
  lemma OverlayNothing(grid: Grid)
    ensures Overlay(grid, {}) == grid
  {
    forall r | 0 <= r < |grid| ensures Overlay(grid, {})[r] == grid[r] {
    }
  }

  /** A cell outside the grid changes nothing when marked. */
  lemma OverlayOutside(grid: Grid, cells: set<Cell>, x: Cell)
    requires !(0 <= x.0 < |grid| && 0 <= x.1 < |grid[x.0]|)
    ensures Overlay(grid, cells + {x}) == Overlay(grid, cells)
  {
    var a := Overlay(grid, cells + {x});
    var b := Overlay(grid, cells);
    forall r | 0 <= r < |a| ensures a[r] == b[r] {
    }
  }

  /** The first loop of `current_grid`: set every cell of `cells` to 1 in
      `g`, which shows `grid` with `marked` set. The cells are in the grid. */
  method MarkObstacles(grid: Grid, ghost marked: set<Cell>, g0: Grid, cells: set<Cell>) returns (g: Grid)
    requires g0 == Overlay(grid, marked)
    requires forall c :: c in cells ==> 0 <= c.0 < |grid| && 0 <= c.1 < |grid[c.0]|
    ensures g == Overlay(grid, marked + cells)
  {
    g := g0;
    ghost var done: set<Cell> := {};
    assert marked + done == marked;
    var todo := cells;
    while todo != {}
      invariant todo <= cells && done == cells - todo
      invariant g == Overlay(grid, marked + done)
      decreases |todo|
    {
      var c :| c in todo;
      OverlayMark(grid, marked + done, c);
      g := g[c.0 := g[c.0][c.1 := 1]];
      assert marked + (done + {c}) == marked + done + {c};
      done, todo := done + {c}, todo - {c};
    }
    assert done == cells;
  }

  /** The second loop of `current_grid`: the same for the detected cells,
      skipping those outside the grid. */
  method MarkDetected(grid: Grid, ghost marked: set<Cell>, g0: Grid, cells: set<Cell>) returns (g: Grid)
    requires WellFormed(grid) && g0 == Overlay(grid, marked)
    ensures g == Overlay(grid, marked + cells)
  {
    g := g0;
    ghost var done: set<Cell> := {};
    assert marked + done == marked;
    var todo := cells;
    while todo != {}
      invariant todo <= cells && done == cells - todo
      invariant g == Overlay(grid, marked + done)
      decreases |todo|
    {
      var c :| c in todo;
      if 0 <= c.0 < |grid| && 0 <= c.1 < |grid[0]| {
        OverlayMark(grid, marked + done, c);
        g := g[c.0 := g[c.0][c.1 := 1]];
      } else {
        OverlayOutside(grid, marked + done, c);
      }
      assert marked + (done + {c}) == marked + done + {c};
      done, todo := done + {c}, todo - {c};
    }
    assert done == cells;
  }

  /** `current_grid` on the simulator's values: the walls, then every
      obstacle, then every in-bounds detected cell, set to 1. */
  method CompositeGrid(grid: Grid, dyn: set<Cell>, detected: set<Cell>) returns (g: Grid)
    requires WellFormed(grid) && forall c :: c in dyn ==> Passable(grid, c)
    ensures g == Composite(grid, dyn, detected)
  {
    OverlayNothing(grid);
    g := MarkObstacles(grid, {}, grid, dyn);
    assert {} + dyn == dyn;
    g := MarkDetected(grid, dyn, g, detected);
  }

  /** `compute_path` on the simulator's values: A* on the composite view.
      A route it returns avoids walls, obstacles and detected cells; `None`
      means there is no such route (within the search's cost horizon); a
      trip to the cell itself is the one-cell route. */
  method PlanRoute(grid: Grid, dyn: set<Cell>, detected: set<Cell>, from: Cell, to: Cell) returns (r: Option<seq<Cell>>)
    requires |grid| > 0 && Board(grid, |grid|, |grid[0]|) && forall c :: c in dyn ==> Passable(grid, c)
    ensures r.Some? ==> IsPath(Composite(grid, dyn, detected), r.value, from, to)
    ensures r.None? && |grid| * |grid[0]| + 1 < Unseen ==> forall p :: !IsPath(Composite(grid, dyn, detected), p, from, to)
    ensures from == to ==> r == Some([from])
  {
    var g := CompositeGrid(grid, dyn, detected);
    CompositeSpec(grid, |grid|, |grid[0]|, dyn, detected);
    r := AStar(g, from, to);
  }

  /** An in-bounds route on the composite view stays in the grid. */
  lemma RouteInGrid(grid: Grid, rows: int, cols: int, dyn: set<Cell>, detected: set<Cell>, p: seq<Cell>, from: Cell, to: Cell)
    requires Board(grid, rows, cols) && InBounds(grid, from)
    requires WellFormed(Composite(grid, dyn, detected)) && IsPath(Composite(grid, dyn, detected), p, from, to)
    ensures forall i :: 0 <= i < |p| ==> InBounds(grid, p[i])
  {
    CompositeSpec(grid, rows, cols, dyn, detected);
  }
}

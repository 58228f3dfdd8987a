/** nav_pygame.py's `NavSim`: the occupancy grid and its fixed start and
    goal, the dynamic obstacles, the LIDAR findings, the log, and the robot
    controller that `start_navigation` launches and `animate_robot` drives. */
module NavSimulation {
  import opened GridBasics
  import opened NavPlanner
  import opened NavWorld

  /** `for _ in range(1000000)` in `animate_robot`. */
  const StepBudget: nat := 1_000_000

  /** A walk of in-bounds, 4-adjacent cells from `from` to `to`. */
  predicate Route(grid: Grid, p: seq<Cell>, from: Cell, to: Cell)
    requires WellFormed(grid)
  {
    && |p| > 0 && p[0] == from && p[|p| - 1] == to
    && (forall i :: 0 <= i < |p| ==> InBounds(grid, p[i]))
    && (forall i :: 0 <= i < |p| - 1 ==> Adjacent(p[i], p[i + 1]))
  }

  /** The layout fixed when the simulator is built: the static walls and
      the two landmarks. */
  datatype Ward = Ward(grid: Grid, start: Cell, goal: Cell)

  /** A 0/1 rectangle with both landmarks on it. */
  predicate WardShape(w: Ward) {
    && |w.grid| > 0 && Board(w.grid, |w.grid|, |w.grid[0]|) && WellFormed(w.grid)
    && InBounds(w.grid, w.start) && InBounds(w.grid, w.goal)
  }

  type Layout = w: Ward | WardShape(w) witness Ward([[0]], (0, 0), (0, 0))

  /** The log keeps its last six lines. */
  type LogLines = l: seq<string> | |l| <= MaxLog witness []

  /** A sweep angle in whole degrees. */
  type Degrees = a: int | 0 <= a < 360

  /** The robot stands in the grid on the path it follows: the path's cells
      lie in the grid, each is 4-adjacent to the next, and the robot is on
      `path[0]` before the first arrival and on `path[index - 1]` after it. */
  predicate Tracking(grid: Grid, robot: Cell, path: seq<Cell>, index: nat)
    requires WellFormed(grid)
  {
    && InBounds(grid, robot)
    && index <= |path|
    && (forall i :: 0 <= i < |path| ==> InBounds(grid, path[i]))
    && (forall i :: 0 <= i < |path| - 1 ==> Adjacent(path[i], path[i + 1]))
    && (index == 0 && |path| > 0 ==> path[0] == robot)
    && (index > 0 ==> path[index - 1] == robot)
  }

  /** A route planned on the composite view from the robot's cell becomes
      the followed path: the robot stands on its first cell, and the path
      ends at the route's destination. */
  lemma RouteTracking(grid: Grid, dyn: set<Cell>, detected: set<Cell>, p: seq<Cell>, from: Cell, to: Cell)
    requires |grid| > 0 && Board(grid, |grid|, |grid[0]|) && InBounds(grid, from)
    requires IsPath(Composite(grid, dyn, detected), p, from, to)
    ensures Tracking(grid, from, p, 0) && |p| > 0 && p[|p| - 1] == to
  {
    RouteInGrid(grid, |grid|, |grid[0]|, dyn, detected, p, from, to);
  }

  /** An arrival keeps the robot on its path, one cell further along. */
  lemma AdvanceTracking(grid: Grid, robot: Cell, path: seq<Cell>, index: nat)
    requires WellFormed(grid) && Tracking(grid, robot, path, index) && index < |path|
    ensures Tracking(grid, path[index], path, index + 1)
    ensures Manhattan(robot, path[index]) <= 1
  {
    if index > 0 {
      assert Adjacent(path[index - 1], path[index]);
    }
  }

  /** Once the index has passed the whole path, the robot stands on its
      last cell. */
  lemma PathDone(grid: Grid, robot: Cell, path: seq<Cell>, index: nat)
    requires WellFormed(grid) && Tracking(grid, robot, path, index) && |path| > 0 && index >= |path|
    ensures robot == path[|path| - 1]
  {
  }

  class NavSim {
    const ward: Layout
    /** The static walls: 0 free, 1 wall. */
    const grid: Grid := ward.grid
    const rows: nat := |ward.grid|
    const cols: nat := |ward.grid[0]|
    const start: Cell := ward.start
    const goal: Cell := ward.goal

    var dynamic: set<Cell>
    var robotCell: Cell
    var path: seq<Cell>
    var pathIndex: nat
    var moving: bool
    var paused: bool
    var returning: bool
    /** `last_lidar_angle`. */
    var lidarAngle: Degrees
    var detected: set<Cell>
    var log: LogLines

    /** Where the robot is heading: the start on the way back, else the goal. */
    function Destination(): Cell
      reads this`returning
    {
      if returning then start else goal
    }

    /** Every dynamic obstacle stands on a spawnable cell. */
    ghost predicate ObstaclesPlaced()
      reads this`dynamic
    {
      forall c :: c in dynamic ==> Spawnable(grid, start, goal, c)
    }

    /** While the controller runs, its path ends at the leg's destination. */
    ghost predicate Heading()
      reads this`moving, this`path, this`returning
    {
      moving ==> |path| > 0 && path[|path| - 1] == (if returning then start else goal)
    }

    ghost predicate Valid()
      reads this`dynamic, this`robotCell, this`path, this`pathIndex, this`moving, this`returning
    {
      && ObstaclesPlaced()
      && Tracking(grid, robotCell, path, pathIndex)
      && Heading()
    }

    /** The test on the next path cell after an arrival: a dynamic
        obstacle, a wall or a detected cell. */
    predicate Blocked(x: Cell)
      reads this`dynamic, this`detected
      requires InBounds(grid, x)
    {
      x in dynamic || grid[x.0][x.1] == 1 || x in detected
    }

    /** `NavSim(Config(rows, cols))` without the display: the demo walls,
        ten dynamic obstacles out of `shuffled`, the robot at the start and
        one log line. */
    constructor (rows: nat, cols: nat, shuffled: seq<Cell>)
      requires rows >= 11 && cols >= 16
      requires FreeShuffle(DemoGrid(rows, cols), (rows - 2, 2), (2, cols - 3), shuffled)
      ensures Valid()
      ensures this.rows == rows && this.cols == cols && grid == DemoGrid(rows, cols)
      ensures start == (rows - 2, 2) && goal == (2, cols - 3)
      ensures dynamic == Elems(shuffled[..Min(ObstacleCount, |shuffled|)])
      ensures robotCell == start && path == [] && pathIndex == 0
      ensures !moving && !paused && !returning && lidarAngle == 0 && detected == {}
      ensures log == ["Ready. Press SPACE to start navigation."]
    {
      DemoLayout(rows, cols);
      var g := BuildDemoGrid(rows, cols);
      SpawnedCells(g, (rows - 2, 2), (2, cols - 3), {}, shuffled, ObstacleCount);
      var d := SpawnCells({}, shuffled, ObstacleCount);
      assert d == Elems(shuffled[..Min(ObstacleCount, |shuffled|)]);
      ward := Ward(g, (rows - 2, 2), (2, cols - 3));
      dynamic := d;
      robotCell := (rows - 2, 2);
      path, pathIndex := [], 0;
      moving, paused, returning := false, false, false;
      lidarAngle, detected := 0, {};
      log := LogAppend([], "Ready. Press SPACE to start navigation.");
    }

    /** `add_log` without the timestamp. */
    method AddLog(line: string)
      modifies this`log
      ensures log == LogAppend(old(log), line)
    {
      log := LogAppend(log, line);
    }

    /** `spawn_dynamic(n)`, with `shuffled` the list `free` after
        `random.shuffle`: the first `min(n, len(free))` cells join the
        obstacles. */
    method SpawnDynamic(n: nat, shuffled: seq<Cell>)
      requires ObstaclesPlaced() && FreeShuffle(grid, start, goal, shuffled)
      modifies this`dynamic
      ensures ObstaclesPlaced()
      ensures dynamic == old(dynamic) + Elems(shuffled[..Min(n, |shuffled|)])
      ensures |dynamic - old(dynamic)| <= n
    {
      SpawnedCells(grid, start, goal, dynamic, shuffled, n);
      dynamic := SpawnCells(dynamic, shuffled, n);
    }

    /** `current_grid`: a copy of the walls with every dynamic obstacle and
        every in-bounds detected cell set to 1. The walls are not changed. */
    method CurrentGrid() returns (g: Grid)
      requires ObstaclesPlaced()
      ensures g == Composite(grid, dynamic, detected)
    {
      g := CompositeGrid(grid, dynamic, detected);
    }

    /** `toggle_dynamic`: clear the obstacles if there are any, otherwise
        spawn ten out of `shuffled`. */
    method ToggleDynamic(shuffled: seq<Cell>)
      requires Valid() && FreeShuffle(grid, start, goal, shuffled)
      modifies this`dynamic, this`log
      ensures Valid()
      ensures old(dynamic) != {} ==> dynamic == {} && log == LogAppend(old(log), "Dynamic obstacles OFF")
      ensures old(dynamic) == {} ==> (dynamic == Elems(shuffled[..Min(ObstacleCount, |shuffled|)])
        && log == LogAppend(old(log), "Dynamic obstacles ON"))
    {
      if dynamic != {} {
        dynamic, log := {}, LogAppend(log, "Dynamic obstacles OFF");
      } else {
        SpawnedCells(grid, start, goal, {}, shuffled, ObstacleCount);
        var d := SpawnCells({}, shuffled, ObstacleCount);
        assert d == Elems(shuffled[..Min(ObstacleCount, |shuffled|)]);
        dynamic, log := d, LogAppend(log, "Dynamic obstacles ON");
      }
    }

    /** `compute_path`: A* on the composite view. */
    method ComputePath(from: Cell, to: Cell) returns (r: Option<seq<Cell>>)
      requires ObstaclesPlaced()
      ensures r.Some? ==> IsPath(Composite(grid, dynamic, detected), r.value, from, to)
      ensures r.None? && rows * cols + 1 < Unseen ==> forall p :: !IsPath(Composite(grid, dynamic, detected), p, from, to)
      ensures from == to ==> r == Some([from])
    {
      r := PlanRoute(grid, dynamic, detected, from, to);
    }

    /** `move_dynamic`: every obstacle, in some order, takes its turn against
        the obstacle set as it was before the move. */
    method MoveDynamic(coins: map<Cell, real>, shuffles: map<Cell, seq<Cell>>)
      requires Valid() && dynamic <= coins.Keys && dynamic <= shuffles.Keys
      requires forall c :: c in dynamic ==> multiset(shuffles[c]) == multiset(StepDirs)
      modifies this`dynamic
      ensures Valid()
      ensures dynamic == Moved(grid, start, goal, old(dynamic), coins, shuffles)
      ensures |dynamic| <= |old(dynamic)|
    {
      var newset := MoveAll(grid, start, goal, dynamic, coins, shuffles);
      MovedSpawnable(grid, start, goal, dynamic, coins, shuffles);
      dynamic := newset;
    }

    /** One beam of `lidar_scan`: walk its cells until one leaves the grid or
        one is occupied. */
    method WalkBeam(beam: seq<Cell>) returns (lit: seq<Cell>, hit: Option<Cell>)
      ensures Sweep(lit, hit) == BeamScan(grid, dynamic, beam)
    {
      lit, hit := [], None;
      for d := 0 to |beam|
        invariant lit == beam[..d]
        invariant forall j :: 0 <= j < d ==> InBounds(grid, beam[j]) && !Occupied(grid, dynamic, beam[j])
      {
        var x := beam[d];
        if !(0 <= x.0 < rows && 0 <= x.1 < cols) {
          BeamScanStops(grid, dynamic, beam, d);
          return;
        }
        lit := lit + [x];
        if grid[x.0][x.1] == 1 || x in dynamic {
          BeamScanStops(grid, dynamic, beam, d);
          hit := Some(x);
          return;
        }
      }
      BeamScanStops(grid, dynamic, beam, |beam|);
    }

    /** `lidar_scan`, with the trigonometry done by the caller: `beams[i]`
        holds the cells at range 1 to 5 of the i-th beam of this sweep. The
        findings replace `detected` and the sweep turns by six degrees. */
    method LidarScan(beams: seq<seq<Cell>>) returns (sensors: seq<Cell>, found: set<Cell>)
      requires Valid() && |beams| == BeamCount && forall i :: 0 <= i < |beams| ==> |beams[i]| == LidarRangeCells
      modifies this`detected, this`lidarAngle
      ensures Valid()
      ensures sensors == SweepLit(grid, dynamic, beams) && found == SweepHits(grid, dynamic, beams)
      ensures detected == found && lidarAngle == NextAngle(old(lidarAngle))
      ensures forall x :: x in detected ==> InBounds(grid, x) && Occupied(grid, dynamic, x)
    {
      sensors, found := [], {};
      for b := 0 to |beams|
        invariant sensors == SweepLit(grid, dynamic, beams[..b]) && found == SweepHits(grid, dynamic, beams[..b])
        modifies {}
      {
        var lit, hit := WalkBeam(beams[b]);
        assert beams[..b + 1][..b] == beams[..b];
        sensors := sensors + lit;
        if hit.Some? {
          found := found + {hit.value};
        }
      }
      assert beams[..|beams|] == beams;
      SweepHitsSpec(grid, dynamic, beams);
      lidarAngle := NextAngle(lidarAngle);
      detected := found;
    }

    /** The head of `animate_robot`: an empty path ends the run at once;
        otherwise the robot sets out towards the goal along it. */
    method BeginAnimation(route: seq<Cell>)
      requires Valid() && (route != [] ==> Tracking(grid, robotCell, route, 0) && route[|route| - 1] == goal)
      modifies this`path, this`pathIndex, this`moving, this`returning, this`log
      ensures Valid()
      ensures route == [] ==> (!moving && path == old(path) && pathIndex == old(pathIndex)
        && returning == old(returning) && log == LogAppend(old(log), "No path found."))
      ensures route != [] ==> (moving && !returning && path == route && pathIndex == 0
        && log == LogAppend(old(log), "Path found (" + NatToString(|route|) + " steps). Starting navigation."))
    {
      if route == [] {
        log, moving := LogAppend(log, "No path found."), false;
        return;
      }
      var line := "Path found (" + NatToString(|route|) + " steps). Starting navigation.";
      log, moving, returning, path, pathIndex := LogAppend(log, line), true, false, route, 0;
    }

    /** `start_navigation`: refused while moving; otherwise plan from the
        robot's cell to the goal on the composite view and, if a route
        exists, start the controller along it. The controller's thread is
        modelled by its head here and by its iterations in `AnimateStep`. */
    method StartNavigation()
      requires Valid()
      modifies this`path, this`pathIndex, this`moving, this`returning, this`log
      ensures Valid()
      ensures old(moving) ==> (moving && path == old(path) && pathIndex == old(pathIndex)
        && returning == old(returning) && log == LogAppend(old(log), "Already navigating"))
      ensures !old(moving) && moving ==> (!returning && pathIndex == 0
        && IsPath(Composite(grid, dynamic, detected), path, robotCell, goal)
        && log == LogAppend(old(log), "Path found (" + NatToString(|path|) + " steps). Starting navigation."))
      ensures !old(moving) && !moving ==> (path == old(path) && pathIndex == old(pathIndex)
        && returning == old(returning) && log == LogAppend(old(log), "No initial path found.")
        && (rows * cols + 1 < Unseen ==> forall p :: !IsPath(Composite(grid, dynamic, detected), p, robotCell, goal)))
    {
      if moving {
        AddLog("Already navigating");
        return;
      }
      var r := PlanRoute(grid, dynamic, detected, robotCell, goal);
      if r.None? {
        AddLog("No initial path found.");
        return;
      }
      RouteTracking(grid, dynamic, detected, r.value, robotCell, goal);
      BeginAnimation(r.value);
    }

    /** `stop_navigation`. */
    method StopNavigation()
      requires Valid()
      modifies this`moving
      ensures Valid() && !moving
    {
      moving := false;
    }

    /** The `P` key: flip the pause flag and log it. */
    method TogglePause()
      requires Valid()
      modifies this`paused, this`log
      ensures Valid() && paused == !old(paused)
      ensures log == LogAppend(old(log), if paused then "Paused=True" else "Paused=False")
    {
      paused := !paused;
      AddLog(if paused then "Paused=True" else "Paused=False");
    }

    /** `reset`: new obstacles out of `shuffled`, the robot back at the start
        with no path, the controller stopped and the findings cleared. The
        pause flag and the sweep angle are kept. */
    method Reset(shuffled: seq<Cell>)
      requires Valid() && FreeShuffle(grid, start, goal, shuffled)
      modifies this`dynamic, this`robotCell, this`path, this`pathIndex, this`moving, this`returning, this`detected, this`log
      ensures Valid()
      ensures dynamic == Elems(shuffled[..Min(ObstacleCount, |shuffled|)])
      ensures robotCell == start && path == [] && pathIndex == 0 && !moving && !returning && detected == {}
      ensures log == LogAppend(old(log), "Simulation reset.")
    {
      SpawnedCells(grid, start, goal, {}, shuffled, ObstacleCount);
      var d := SpawnCells({}, shuffled, ObstacleCount);
      assert d == Elems(shuffled[..Min(ObstacleCount, |shuffled|)]);
      dynamic, robotCell, path, pathIndex, moving, returning, detected, log :=
        d, start, [], 0, false, false, {}, LogAppend(log, "Simulation reset.");
    }

    /** The end of the way back in `animate_robot`: the run is over. */
    method FinishReturn()
      requires Valid() && moving && returning && pathIndex >= |path|
      modifies this`moving, this`log
      ensures Valid() && !moving && robotCell == start
      ensures log == LogAppend(old(log), "Returned to start. Navigation complete.")
    {
      PathDone(grid, robotCell, path, pathIndex);
      moving, log := false, LogAppend(log, "Returned to start. Navigation complete.");
    }

    /** The end of the way out in `animate_robot`: at the goal, plan the way
        back to the start, or stop when there is none. */
    method TurnBack() returns (done: bool)
      requires Valid() && moving && !returning && pathIndex >= |path|
      modifies this`path, this`pathIndex, this`moving, this`returning, this`log
      ensures Valid() && robotCell == goal && returning && done == !moving
      ensures moving ==> (pathIndex == 0
        && IsPath(Composite(grid, dynamic, detected), path, goal, start)
        && log == LogAppend(LogAppend(old(log), "Reached pharmacy."), "Return path computed. Heading back."))
      ensures !moving ==> (path == old(path) && pathIndex == old(pathIndex)
        && log == LogAppend(LogAppend(old(log), "Reached pharmacy."), "No return path found.")
        && (rows * cols + 1 < Unseen ==> forall p :: !IsPath(Composite(grid, dynamic, detected), p, goal, start)))
    {
      PathDone(grid, robotCell, path, pathIndex);
      var lines := LogAppend(log, "Reached pharmacy.");
      var r := PlanRoute(grid, dynamic, detected, goal, start);
      if r.None? {
        returning, moving, log := true, false, LogAppend(lines, "No return path found.");
        return true;
      }
      RouteTracking(grid, dynamic, detected, r.value, goal, start);
      returning, path, pathIndex, log := true, r.value, 0, LogAppend(lines, "Return path computed. Heading back.");
      return false;
    }

    /** The replanning branch of an arrival: log the obstacle, plan from the
        robot's cell to the destination of the current leg, and either take
        the new route or stop. */
    method Replan() returns (done: bool)
      requires Valid() && moving
      modifies this`path, this`pathIndex, this`moving, this`log
      ensures Valid() && done == !moving
      ensures moving ==> (pathIndex == 0
        && IsPath(Composite(grid, dynamic, detected), path, robotCell, Destination())
        && log == LogAppend(LogAppend(old(log), "Obstacle detected on path. Replanning..."), "New path found, resuming."))
      ensures !moving ==> (path == old(path) && pathIndex == old(pathIndex)
        && log == LogAppend(LogAppend(old(log), "Obstacle detected on path. Replanning..."), "No alternative path found.")
        && (rows * cols + 1 < Unseen ==> forall p :: !IsPath(Composite(grid, dynamic, detected), p, robotCell, Destination())))
    {
      var lines := LogAppend(log, "Obstacle detected on path. Replanning...");
      var from, to := robotCell, Destination();
      var r := PlanRoute(grid, dynamic, detected, from, to);
      if r.None? {
        moving, log := false, LogAppend(lines, "No alternative path found.");
        return true;
      }
      RouteTracking(grid, dynamic, detected, r.value, from, to);
      path, pathIndex, log := r.value, 0, LogAppend(lines, "New path found, resuming.");
      return false;
    }

    /** An arrival in `animate_robot`: the robot takes the cell it was
        heading for; if the cell after it is blocked, it replans from there
        to the destination of the current leg. */
    method ArriveNext() returns (done: bool)
      requires Valid() && moving && pathIndex < |path|
      modifies this`robotCell, this`path, this`pathIndex, this`moving, this`log
      ensures Valid()
      ensures robotCell == old(path[pathIndex]) && Manhattan(old(robotCell), robotCell) <= 1
      ensures done == !moving
      ensures !old(pathIndex + 1 < |path| && Blocked(path[pathIndex + 1])) ==>
        (!done && path == old(path) && pathIndex == old(pathIndex) + 1 && log == old(log))
      ensures old(pathIndex + 1 < |path| && Blocked(path[pathIndex + 1])) && moving ==> (pathIndex == 0
        && IsPath(Composite(grid, dynamic, detected), path, robotCell, Destination())
        && log == LogAppend(LogAppend(old(log), "Obstacle detected on path. Replanning..."), "New path found, resuming."))
      ensures old(pathIndex + 1 < |path| && Blocked(path[pathIndex + 1])) && !moving ==> (path == old(path)
        && pathIndex == old(pathIndex) + 1
        && log == LogAppend(LogAppend(old(log), "Obstacle detected on path. Replanning..."), "No alternative path found.")
        && (rows * cols + 1 < Unseen ==> forall p :: !IsPath(Composite(grid, dynamic, detected), p, robotCell, Destination())))
    {
      var target := path[pathIndex];
      // The test on the cell after `target`; no field it reads changes on arrival.
      var blocked := pathIndex + 1 < |path| && Blocked(path[pathIndex + 1]);
      AdvanceTracking(grid, robotCell, path, pathIndex);
      robotCell, pathIndex := target, pathIndex + 1;
      if blocked {
        done := Replan();
      } else {
        done := false;
      }
    }

    /** One iteration of the loop of `animate_robot` that changes the
        discrete state: a stop noticed, a pause, the end of a leg, or an
        arrival at the next path cell. The robot moves at most one cell. */
    method AnimateStep() returns (done: bool)
      requires Valid()
      modifies this`robotCell, this`path, this`pathIndex, this`moving, this`returning, this`log
      ensures Valid()
      ensures Manhattan(old(robotCell), robotCell) <= 1
      ensures done ==> !moving
      ensures !old(moving) ==> (done && path == old(path) && pathIndex == old(pathIndex)
        && returning == old(returning) && robotCell == old(robotCell)
        && log == LogAppend(old(log), "Navigation aborted."))
      ensures old(moving) && paused ==> !done && unchanged(this)
      ensures old(moving) && !paused && old(pathIndex) >= |old(path)| ==>
        robotCell == old(robotCell) == old(Destination()) && returning
      // The end of the way back: the run is over.
      ensures old(moving) && !paused && old(pathIndex) >= |old(path)| && old(returning) ==>
        (done && !moving && robotCell == start && path == old(path) && pathIndex == old(pathIndex)
        && log == LogAppend(old(log), "Returned to start. Navigation complete."))
      // The end of the way out: a route back to the start, or a stop.
      ensures old(moving) && !paused && old(pathIndex) >= |old(path)| && !old(returning) && moving ==>
        (!done && pathIndex == 0 && IsPath(Composite(grid, dynamic, detected), path, goal, start)
        && log == LogAppend(LogAppend(old(log), "Reached pharmacy."), "Return path computed. Heading back."))
      ensures old(moving) && !paused && old(pathIndex) >= |old(path)| && !old(returning) && !moving ==>
        (done && path == old(path) && pathIndex == old(pathIndex)
        && log == LogAppend(LogAppend(old(log), "Reached pharmacy."), "No return path found.")
        && (rows * cols + 1 < Unseen ==> forall p :: !IsPath(Composite(grid, dynamic, detected), p, goal, start)))
      // An arrival: go on along the path, or replan past a blocked cell.
      ensures old(moving) && !paused && old(pathIndex) < |old(path)| ==>
        robotCell == old(path[pathIndex]) && returning == old(returning) && done == !moving
      ensures old(moving) && !paused && old(pathIndex) < |old(path)| && !old(pathIndex + 1 < |path| && Blocked(path[pathIndex + 1])) ==>
        (!done && path == old(path) && pathIndex == old(pathIndex) + 1 && log == old(log))
      ensures old(moving) && !paused && old(pathIndex) < |old(path)| && old(pathIndex + 1 < |path| && Blocked(path[pathIndex + 1])) && moving ==>
        (pathIndex == 0 && IsPath(Composite(grid, dynamic, detected), path, robotCell, Destination())
        && log == LogAppend(LogAppend(old(log), "Obstacle detected on path. Replanning..."), "New path found, resuming."))
      ensures old(moving) && !paused && old(pathIndex) < |old(path)| && old(pathIndex + 1 < |path| && Blocked(path[pathIndex + 1])) && !moving ==>
        (path == old(path) && pathIndex == old(pathIndex) + 1
        && log == LogAppend(LogAppend(old(log), "Obstacle detected on path. Replanning..."), "No alternative path found.")
        && (rows * cols + 1 < Unseen ==> forall p :: !IsPath(Composite(grid, dynamic, detected), p, robotCell, Destination())))
    {
      if !moving {
        AddLog("Navigation aborted.");
        return true;
      }
      if paused {
        return false;
      }
      if pathIndex >= |path| && returning {
        FinishReturn();
        done := true;
      } else if pathIndex >= |path| {
        done := TurnBack();
      } else {
        done := ArriveNext();
      }
    }

    /** `animate_robot(route)` run on its own: the head, then the loop of
        at most a million iterations that ends when the controller stops. */
    method AnimateRobot(route: seq<Cell>)
      requires Valid() && (route != [] ==> Route(grid, route, robotCell, goal))
      modifies this`robotCell, this`path, this`pathIndex, this`moving, this`returning, this`log
      ensures Valid()
      ensures route == [] ==> !moving && path == old(path) && log == LogAppend(old(log), "No path found.")
    {
      BeginAnimation(route);
      if route == [] {
        return;
      }
      for step := 0 to StepBudget
        invariant Valid()
      {
        var done := AnimateStep();
        if done {
          return;
        }
      }
    }
  }
}

# MEDBO-AI grid navigation, modelled in Dafny

MEDBO-AI contains two robot navigators on a grid. Both plan with A* and a
Manhattan-distance heuristic:

- `nav_pygame.py` is a pygame simulator (`NavSim`). It has:
  - a static wall layout;
  - ten randomly walking dynamic obstacles;
  - a rotating LIDAR sweep that marks the obstacle cells it sees;
  - a six-line event log;
  - a controller, `animate_robot`, that drives the robot from a start
    cell to the pharmacy goal and back. On every arrival it checks the
    next path cell, and it replans or aborts when that cell is blocked.
- `app.py` is a Streamlit tab. Each rerun of the page does three things:
  - it keeps the navigation state in the session: obstacles, start,
    goal, robot position, path and the on/off flag;
  - it moves the robot by a burst of eight path steps;
  - it swaps start and goal when the robot stands at the goal.

  The tab also has buttons that randomise or clear the obstacles and
  replan. Its LIDAR only draws rays that are clamped into the grid.

The project has six modules:

| file | module | what it holds |
|---|---|---|
| `grid.dfy` | `GridBasics` | cells, the four moves, Manhattan distance, 4-adjacency, row-major enumeration, reversal |
| `nav_astar.dfy` | `NavPlanner` | `heuristic` and the heap-based `astar` of `nav_pygame.py` |
| `nav_world.dfy` | `NavWorld` | the demo walls, the log, obstacle spawning and the random walk, the LIDAR beams and the composite occupancy grid |
| `nav_sim.dfy` | `NavSimulation` | the `NavSim` class: its fields, its methods and the `animate_robot` state machine |
| `app_astar.dfy` | `AppPlanner` | `neighbors`, `heuristic` and the open-set `a_star` of `app.py` |
| `app_nav.dfy` | `AppNavigation` | `randomize_obstacles`, the clamping of `cast_lidar_rays`, the navigation session with its buttons, and the burst with its return swap |

Some code loops and mutates state, and that code is imperative Dafny:

- both A* searches;
- obstacle spawning and the random walk;
- the LIDAR beams;
- the grid copy of `current_grid`;
- `randomize_obstacles`;
- the burst.

Each such method is proved against a specification function or predicate.
`NavSim` and the Streamlit session are classes whose methods modify their
fields.

Randomness becomes parameters that the caller supplies:

| random call | parameter |
|---|---|
| the shuffled free-cell list | `shuffled`, whose multiset must be the list's |
| `random.random()` in `move_dynamic` | `coins` |
| the shuffled directions in `move_dynamic` | `shuffles` |
| `random.random() < density` in `randomize_obstacles` | one boolean `coin` per cell |

Trigonometry is also a parameter: the cells each LIDAR beam covers
(`beams`), and the rounded ray points of `cast_lidar_rays` (`point`).

Some of the code's behaviour is easy to misread, and the model follows
the code:

- `move_dynamic` tests a candidate cell against the whole obstacle set,
  including the moving obstacle itself. So the "stay" direction `(0,0)`
  never fits (`NavWorld.StayNeverFits`). An obstacle whose coin is below
  0.6 stays put only when every direction fails; one whose coin is at or
  above 0.6 stays without trying any direction (`NavWorld.NextCell`).
- Obstacles are tested against the set as it was before the tick.
  Because of that, two obstacles can step onto the same cell and merge:
  the number of obstacles may drop, and it never grows
  (`NavWorld.MovedSpawnable`).
- There is no separate "aborted" phase. Aborting clears `moving`, and
  when no return path exists `returning` stays set.
- A route of one cell (start equals goal) still goes through the
  planner. The planner returns `[start]` at once.

## Model

| member | source | states |
|---|---|---|
| GridBasics.Manhattan | nav_pygame.py:45-46 | the heuristic is zero exactly when the two cells are equal |
| GridBasics.ManhattanMetric | app.py:146-148 | the heuristic is symmetric and satisfies the triangle inequality |
| GridBasics.MoveIsAdjacent | nav_pygame.py:67-68 | each of the four moves leads to a 4-neighbour |
| GridBasics.AdjacentIsMove | nav_pygame.py:67-68 | every 4-neighbour is reached by exactly one of the four moves |
| GridBasics.Enumerate | nav_pygame.py:165-166 | the `for r in range(rows) for c in range(cols)` list holds exactly the cells of the rectangle, without repetition, rows*cols of them |
| NavPlanner.HeapPop | nav_pygame.py:56 | `heappop` returns an entry no greater than any other in (f, g, cell) order and removes exactly that one entry |
| NavPlanner.ClosedSetCutsRoutes | nav_pygame.py:63-75 | if the start is closed, the goal is not, and every closed cell has had all its free neighbours reached, then no free 4-connected path joins start and goal |
| NavPlanner.ReversedWalkIsPath | nav_pygame.py:58-62 | the walk collected by following `came` from goal to start, once reversed, is a path from start to goal |
| NavPlanner.Rebuild | nav_pygame.py:57-62 | the reconstructed route is a free 4-connected path from start to goal, and it is `[goal]` when the goal has no predecessor |
| NavPlanner.RelaxKeepsTree | nav_pygame.py:69-74 | recording a cheaper predecessor for a free neighbour keeps every recorded predecessor chain a path to the start with cost equal to its length |
| NavPlanner.Relax | nav_pygame.py:68-74 | one neighbour's bounds and free tests and its cost update keep the search invariant; below the 1e9 sentinel the neighbour ends up reached when it is free |
| NavPlanner.Expand | nav_pygame.py:66-74 | the four-direction loop keeps the search invariant, and afterwards every free in-bounds neighbour of `current` has a cost |
| NavPlanner.PopKeepsSearch | nav_pygame.py:56-65 | popping a non-goal cell that is not yet visited and adding it to `visited` keeps the search invariant |
| NavPlanner.SkipKeepsSearch | nav_pygame.py:63-64 | popping a cell that was already visited and skipping it keeps the search invariant |
| NavPlanner.ExhaustedMeansUnreachable | nav_pygame.py:55-75 | once the open queue is empty, with every visited cell expanded, no path from start to goal exists |
| NavPlanner.AStar | nav_pygame.py:48-75 | a returned route is a free 4-connected path from start to goal; `None` means no such path exists (on grids with fewer than 1e9 cells); start equal to goal gives `[start]` |
| NavWorld.DemoLayout | nav_pygame.py:124-135 | the demo grid is a 0/1 rectangle, walled exactly at rows 3-10 of column 7 and at row 9, columns 6-15, except (9,10); start and goal are free |
| NavWorld.BuildDemoGrid | nav_pygame.py:125-131 | the constructor's wall-drawing loops build exactly that layout |
| NavWorld.LogAppend | nav_pygame.py:158-161 | the log ends with the new line, keeps at most six lines, and holds the last lines of old log plus new line in order |
| NavWorld.NatToString | nav_pygame.py:247 | the step count is written as a non-empty string of decimal digits that starts with 0 only for zero |
| NavWorld.NatToStringRoundTrip | nav_pygame.py:247 | reading the written step count back as a decimal number gives the count |
| NavWorld.KeepSpawnable | nav_pygame.py:165-166 | the filter keeps exactly the listed cells that are free, not the start and not the goal |
| NavWorld.FreeCells | nav_pygame.py:165-166 | the `free` list holds each free cell other than start and goal, once |
| NavWorld.FreeShuffleIsPermutation | nav_pygame.py:167 | an admissible shuffle of `free` is exactly a permutation of it |
| NavWorld.SpawnedCells | nav_pygame.py:164-169 | spawning adds at most `n` new obstacles, each on a free cell other than start and goal |
| NavWorld.SpawnCells | nav_pygame.py:168-169 | the loop adds the first `min(n, len(free))` shuffled cells to the obstacle set |
| NavWorld.NextCell | nav_pygame.py:200-212 | one obstacle's tick: below the 0.6 coin it goes to the cell of its first fitting direction in shuffled order, if there is one; otherwise it stays. `FirstFit`, `NextCellStep` and `StayNeverFits` state its properties |
| NavWorld.FirstFit | nav_pygame.py:205-208 | the direction loop stops at the first direction whose cell is in bounds, free, unoccupied and not start or goal, and every earlier direction fails |
| NavWorld.StayNeverFits | nav_pygame.py:202-207 | the `(0,0)` direction never passes the test, because the obstacle's own cell is in the set |
| NavWorld.NextCellStep | nav_pygame.py:200-212 | an obstacle either stays or moves to a 4-neighbour that passes the test |
| NavWorld.MovedSpawnable | nav_pygame.py:198-213 | after a tick every obstacle is on a free cell other than start and goal, and there are no more obstacles than before |
| NavWorld.StepObstacle | nav_pygame.py:200-212 | the per-obstacle body computes that obstacle's next cell |
| NavWorld.Moved | nav_pygame.py:198-213 | the `newset` of a tick: the image of the old obstacle set under `NextCell`, with every test made against the old set. `MovedSpawnable` states its properties |
| NavWorld.MoveAll | nav_pygame.py:198-213 | the tick's new set is the image of the old set under the per-obstacle move |
| NavWorld.BeamScan | nav_pygame.py:224-234 | one beam: its cells in order, up to the first cell outside the grid, or up to and including the first occupied cell, which is the beam's hit. `BeamScanSpec` and `BeamScanStops` state its properties |
| NavWorld.BeamScanSpec | nav_pygame.py:224-234 | a beam lights a prefix of its cells, all in bounds and all unoccupied but possibly the last; it reports a hit exactly when it stops on an occupied cell; it stops early only on a hit or at the grid's edge |
| NavWorld.BeamScanStops | nav_pygame.py:224-234 | the beam's outcome at its first out-of-bounds or occupied cell, or at its full length |
| NavWorld.SweepLit | nav_pygame.py:221-228 | the `sensors` list of a sweep: every beam's lit cells, beam after beam |
| NavWorld.SweepHits | nav_pygame.py:220-237 | the `detected` set of a sweep: the union of the beams' hits. `SweepHitsSpec` states its properties |
| NavWorld.SweepHitsSpec | nav_pygame.py:220-237 | a cell is detected exactly when some beam stopped on it, and every detected cell is an in-bounds wall or obstacle |
| NavWorld.NextAngle | nav_pygame.py:236 | the sweep angle advances by six degrees modulo 360 |
| NavWorld.Overlay | nav_pygame.py:178-184 | marking cells keeps the grid's shape |
| NavWorld.Composite | nav_pygame.py:177-185 | the composite view of a well-formed grid is well formed |
| NavWorld.CompositeSpec | nav_pygame.py:177-185 | a composite cell is blocked exactly when it is a wall, a dynamic obstacle or a detected cell, and it is passable exactly when none of those |
| NavWorld.MarkObstacles | nav_pygame.py:179-180 | the dynamic-obstacle loop marks exactly those cells |
| NavWorld.MarkDetected | nav_pygame.py:182-184 | the detected-cell loop marks exactly the detected cells that lie in bounds |
| NavWorld.CompositeGrid | nav_pygame.py:177-185 | `current_grid` computes the composite view |
| NavWorld.PlanRoute | nav_pygame.py:193-195 | `compute_path` returns a path that avoids walls, dynamic and detected cells, or `None` when none exists |
| NavWorld.RouteInGrid | nav_pygame.py:193-195 | a path planned on the composite view stays on the static grid |
| NavSimulation.Tracking | nav_pygame.py:285-295 | the controller invariant: the robot and every path cell are in the grid, consecutive path cells are 4-adjacent, and the robot stands on `path[0]` before the first arrival and on `path[index - 1]` after it |
| NavSimulation.RouteTracking | nav_pygame.py:249-252 | a planned route becomes the followed path: the robot is on its first cell and its last cell is the destination |
| NavSimulation.AdvanceTracking | nav_pygame.py:293-295 | arriving at the next path cell keeps the robot on its path and moves it by at most one cell |
| NavSimulation.PathDone | nav_pygame.py:260-283 | when the path index has run past the end, the robot stands on the path's last cell |
| NavSimulation.NavSim.constructor | nav_pygame.py:115-155 | the demo walls, start `(rows-2, 2)` and goal `(2, cols-3)`, ten spawned obstacles, an idle robot at the start, and the ready line in the log |
| NavSimulation.NavSim.AddLog | nav_pygame.py:158-161 | the log becomes the old log plus the message, trimmed to six lines |
| NavSimulation.NavSim.SpawnDynamic | nav_pygame.py:164-169 | adds the first `n` shuffled free cells, at most `n` new obstacles, all on spawnable cells |
| NavSimulation.NavSim.CurrentGrid | nav_pygame.py:177-185 | returns the composite of walls, obstacles and detected cells |
| NavSimulation.NavSim.ToggleDynamic | nav_pygame.py:187-191 | clears the obstacles and logs OFF when there were any; otherwise spawns ten and logs ON |
| NavSimulation.NavSim.ComputePath | nav_pygame.py:193-195 | a returned path avoids the composite's blocked cells; `None` means none exists |
| NavSimulation.NavSim.MoveDynamic | nav_pygame.py:198-213 | replaces the obstacles by their moved image, keeps them spawnable, and never adds one |
| NavSimulation.NavSim.WalkBeam | nav_pygame.py:224-234 | the beam loop lights and hits the cells `BeamScan` describes |
| NavSimulation.NavSim.LidarScan | nav_pygame.py:216-238 | the detected set is replaced by the sweep's hits, all in-bounds walls or obstacles, and the angle advances by six degrees |
| NavSimulation.NavSim.BeginAnimation | nav_pygame.py:241-252 | an empty route logs "No path found." and leaves the robot idle; otherwise the outbound leg starts at index 0 with the "Path found (n steps)" line |
| NavSimulation.NavSim.StartNavigation | nav_pygame.py:320-332 | while moving it only logs "Already navigating"; otherwise it either starts the outbound leg on a planned path to the goal, or logs "No initial path found." when no path exists |
| NavSimulation.NavSim.StopNavigation | nav_pygame.py:334-335 | the controller is no longer moving |
| NavSimulation.NavSim.TogglePause | nav_pygame.py:412-414 | flips the pause flag and logs its new value |
| NavSimulation.NavSim.Reset | nav_pygame.py:337-347 | respawns ten obstacles, puts the robot back at the start, clears path, flags and detections, and logs the reset |
| NavSimulation.NavSim.FinishReturn | nav_pygame.py:279-283 | at the end of the return leg the robot is at the start, navigation stops, and completion is logged |
| NavSimulation.NavSim.TurnBack | nav_pygame.py:260-278 | at the end of the outbound leg the robot is at the goal and the phase is returning; it follows a planned path back to the start, or stops with "No return path found." when none exists |
| NavSimulation.NavSim.Replan | nav_pygame.py:296-313 | replans from the robot's cell to the current leg's destination; it resumes on the new path or stops when no path exists, logging both events |
| NavSimulation.NavSim.ArriveNext | nav_pygame.py:285-314 | the robot arrives on the target cell, one step away; it keeps the path when the next cell is clear, and otherwise replans or aborts |
| NavSimulation.NavSim.AnimateStep | nav_pygame.py:254-314 | one loop iteration, with the new state of each branch: a stop logs the abort; a pause changes nothing; at the end of the way back the run ends with the completion line; at the end of the way out it follows a route back to the start or stops with "No return path found."; an arrival takes the target cell and either goes on at the next index or replans to the leg's destination, resuming at index 0 or stopping when no route exists. The robot moves at most one cell and the invariant holds |
| NavSimulation.NavSim.AnimateRobot | nav_pygame.py:241-318 | the whole controller run keeps the controller invariant and handles the empty route |
| AppPlanner.InGridOnly | app.py:143-144 | the bounds filter keeps exactly the listed cells inside the grid |
| AppPlanner.Neighbors | app.py:139-144 | at most four cells are yielded, and they are exactly the in-grid 4-neighbours |
| AppPlanner.NeighborsDistinct | app.py:139-144 | no neighbour is yielded twice |
| AppPlanner.RouteLength | app.py:146-148 | every obstacle-free route has at least Manhattan distance + 1 cells, so the heuristic never overestimates |
| AppPlanner.Lowered | app.py:169-173 | lowering a cost or adding a new one decreases the search's termination measure |
| AppPlanner.LoweredAt | app.py:169-173 | adding a cost decreases the number of costless cells; lowering one keeps that number and decreases the sum of costs |
| AppPlanner.NoRoute | app.py:155-175 | when the open set is exhausted without reaching the goal, no obstacle-free route from start to goal exists |
| AppPlanner.LeastF | app.py:156 | `min(open_set, key=f)` picks an open cell with the least f |
| AppPlanner.AStar | app.py:150-175 | a non-empty result is an obstacle-free route from start to goal without repeated cells; `[]` means none exists; start equal to goal gives `[start]` |
| AppPlanner.Expand | app.py:165-174 | expanding the chosen cell keeps every recorded predecessor chain a route, leaves every neighbour of closed cells reached, and decreases the measure or changes nothing |
| AppPlanner.Relax | app.py:166-174 | one neighbour: obstacles are skipped unchanged, a free neighbour ends with a cost, and the invariants hold |
| AppPlanner.Improved | app.py:169-174 | recording a cheaper predecessor keeps the predecessor chains valid routes whose cost equals their length |
| AppPlanner.Reconstruct | app.py:157-164 | following `came_from` from the goal yields an obstacle-free route from start to goal without repeats |
| AppPlanner.Ascending | app.py:159-162 | cells met along strictly rising costs are distinct, so the walk back terminates without repeats |
| AppNavigation.RandomizeObstacles | app.py:202-215 | a cell is an obstacle exactly when it is in the grid, outside both clear squares, and its coin came up |
| AppNavigation.RandomMapKeepsClear | app.py:206-212 | no random obstacle lies on start or goal or within the margin of either |
| AppNavigation.Clamp | app.py:192-193 | `min(max(v, 0), hi-1)` lies in `[0, hi)` and is the identity inside it |
| AppNavigation.ClampNearest | app.py:192-193 | the clamped value is the nearest value inside the range |
| AppNavigation.ClampCell | app.py:192-193 | a clamped cell is in the grid, and cells already in the grid are unchanged |
| AppNavigation.RayHit | app.py:186-198 | a ray's end is its start cell or one of its clamped points, and it is in the grid once the ray has a step |
| AppNavigation.RayStopsAtFirstObstacle | app.py:194-196 | a ray that meets an obstacle ends on the first obstacle among its points |
| AppNavigation.RayRunsFullRange | app.py:188-198 | a ray that meets no obstacle ends on its last point |
| AppNavigation.CastRay | app.py:185-198 | the 0.25-step loop with its break computes the ray's end |
| AppNavigation.CastLidarRays | app.py:177-200 | returns one end per ray, each that ray's end, and all in the grid for a positive range |
| AppNavigation.Move | app.py:470-472 | a move shortens a path of more than one cell by its head and puts the robot on the new head; a shorter path is left alone; start and goal do not change |
| AppNavigation.Advance | app.py:461-472 | repeated moves keep start and goal |
| AppNavigation.AdvanceLast | app.py:461-472 | the loop's `i+1`-th state is one move after its `i`-th |
| AppNavigation.AdvanceClosed | app.py:461-472 | `k` moves drop `min(k, len-1)` cells and put the robot on the new head |
| AppNavigation.AdvanceStays | app.py:470 | a path of at most one cell never moves |
| AppNavigation.AdvanceAdd | app.py:461 | `a` moves then `b` moves are `a + b` moves |
| AppNavigation.AdvanceRoute | app.py:469-472 | moving along a route to the goal keeps it a route to the goal, `k` cells shorter |
| AppNavigation.Swap | app.py:455-457 | the swap keeps the robot and the path's length; at the goal start and goal trade places, and elsewhere nothing changes (`ReversedRoute` covers the reversed path) |
| AppNavigation.ReversedRoute | app.py:456 | the reverse of an obstacle-free route from a to b is one from b to a |
| AppNavigation.Tracking | app.py:453-472 | the session invariant: without a path the robot is at the start; otherwise the path starts at the robot, has no repeated cell, and ends at the goal or is the robot's cell alone |
| AppNavigation.TrackingAdvance | app.py:469-472 | moves keep the path starting at the robot, without repeats, ending at the goal |
| AppNavigation.TrackingSwap | app.py:455-457 | the return swap keeps the path starting at the robot and without repeats |
| AppNavigation.BurstAsWritten | app.py:453-472 | one rerun's burst as written: nothing without a path; otherwise the return swap at the goal, then `steps` moves. `OneBurst`, `OutboundArrives` and `ReturnLegStalls` state its properties |
| AppNavigation.Bursts | app.py:453-472 | `k` reruns of the burst as written |
| AppNavigation.BurstKeepsTracking | app.py:453-472 | a burst as written keeps the session invariant |
| AppNavigation.BurstCorrected | app.py:453-472 | the burst as evidently intended: at the goal the used-up path is dropped, start and goal trade places, and the first pass plans the way back; without a plan the burst ends with no path |
| AppNavigation.CorrectedBursts | app.py:453-472 | `k` reruns of the corrected burst, with `planner` standing for `a_star` from the robot to the new goal. `ReturnLegArrives` states its property |
| AppNavigation.BurstCorrectedKeepsTracking | app.py:453-472 | the corrected burst keeps the session invariant |
| AppNavigation.SameAwayFromGoal | app.py:453-472 | away from the goal the corrected burst makes the same moves as the original |
| AppNavigation.OneBurst | app.py:453-472 | away from the goal a burst is `steps` moves |
| AppNavigation.Travel | app.py:453-472 | `k` bursts along a route to the goal, before arrival, are `steps * k` moves, as written and corrected alike |
| AppNavigation.BurstsFor | app.py:460 | the number of eight-step bursts a route of `len` cells needs: the last burst is the first that reaches the end |
| AppNavigation.OutboundArrives | app.py:453-472 | after enough bursts the robot stands at the goal with the path used up to `[goal]` |
| AppNavigation.ReturnLegStalls | app.py:455-472 | as written, from the goal with path `[goal]` the robot never leaves the goal, however many bursts run |
| AppNavigation.StalledStays | app.py:453-472 | the swapped session with a one-cell path no longer changes |
| AppNavigation.ReturnLegArrives | app.py:461-472 | with the corrected swap the next bursts plan the way back and bring the robot to the old start |
| AppNavigation.NavSession.constructor | app.py:82-92 | the session defaults: a 30x18 grid, no obstacles, the room at (2,9), the pharmacy at (27,9), the robot in the room, no path, navigation off |
| AppNavigation.NavSession.StartNavigation | app.py:375-380 | turns navigation on and, when there is no path, plans one from start to goal, or learns that none exists |
| AppNavigation.NavSession.StopNavigation | app.py:381-383 | turns navigation off |
| AppNavigation.NavSession.RandomizeMap | app.py:385-388 | new obstacles exactly as `randomize_obstacles` draws them, a fresh plan (or none when none exists), robot back at start |
| AppNavigation.NavSession.ResetMap | app.py:390-393 | clears the obstacles and replans; the plan has at least Manhattan distance + 1 cells; robot back at start |
| AppNavigation.NavSession.EnsurePath | app.py:397-399 | keeps an existing path; with none it plans one or learns that none exists |
| AppNavigation.NavSession.Burst | app.py:453-481 | one rerun's burst as written, with the session invariant kept |
| AppNavigation.NavSession.BurstFixed | app.py:453-481 | the corrected burst; the plan it makes at the goal is an obstacle-free route back to the old start, or none exists |

## Left out

- Drawing, fonts, colours, pygame events and Streamlit widgets are not modelled. Only the state changes that buttons and keys cause are modelled.
- The speech queue and `speak` are not modelled, and neither are the printed log lines.
- The `time.strftime` timestamp on each log line is not modelled. The log stores the message only.
- Threads are not modelled. `start_navigation` hands the whole of `animate_robot` to a new thread (nav_pygame.py:332). The head of `animate_robot` (nav_pygame.py:242-252) then runs in that thread and sets `moving`. The model runs that head inside `StartNavigation` instead.
- So a race in the source is not modelled. A second `start_navigation` call made before the first thread has set `moving` (nav_pygame.py:249) finds `moving` still false and starts a second animation.
- In the source, the animation thread runs alongside the main loop's obstacle moves, LIDAR sweeps and key presses. The model has each of those as its own method, which a caller may run between `AnimateStep` calls. `AnimateRobot` runs the loop with nothing in between.
- The Quick Controls copies of Start and Stop Navigation (app.py:247-252) are not modelled. They only set `nav_on`, without planning.
- The "Reset All" button (app.py:254-259) is not modelled as a method of its own. It deletes the whole session and runs `init_state` again, which the `NavSession` constructor models.
- `time.sleep` and the cadences it sets are not modelled: the 0.6 s settle, the 0.05 s pause poll, the 0.08 s burst step, and the 0.8 s obstacle cadence.
- The robot's pixel position is not modelled. Its interpolation toward the next cell becomes one arrival step. An iteration that only interpolates is left out, so the million-iteration budget counts arrivals.
- Trigonometry and floating point are parameters: the cells each LIDAR beam covers and the rounded points of each ray. So no lemma bounds a detected cell's distance from the robot.
- The loop at app.py:188 steps `dist` by 0.25. It is modelled as a step index `k` with `dist = k/4`, which binary floating point represents exactly, so the loop makes `4 * max_range` iterations.
- `random` is a parameter wherever it is used. The densities 0.14 and 0.15 are folded into the coin, and the 0.6 move chance into the coin comparison.
- The LIDAR range slider at app.py:395 is not modelled, and neither are the vitals generators or `medbo.py`. They do not belong to the navigator.
- NavSimulation.NavSim.AnimateRobot: its contract states only that the controller invariant holds on exit and what happens with an empty route. Each iteration's behaviour is the contract of `AnimateStep`. An exit because the budget ran out is not characterised.
- NavPlanner.AStar: the result is not proved shortest. The "no path" direction holds only for grids with fewer than about 1e9 cells, because `g.get(..., 1e9)` is modelled as that exact sentinel.
- NavPlanner.AStar: `heapq`'s array layout is not modelled. The queue is a sequence, and `HeapPop` removes one least entry in (f, g, cell) order.
- AppPlanner.AStar: the result is not proved shortest, so "A path between reachable cells on an obstacle-free grid has length Manhattan distance + 1" is not proved. Only the lower bound is proved (`RouteLength`, `NavSession.ResetMap`).
- AppPlanner.AStar: the tie-break of `min` among open cells with equal f is a choice the proof leaves open. The result holds for any choice.
- AppPlanner.Reconstruct: `Reconstruct` prepends each predecessor instead of appending and reversing. The list it builds is the same.
- AppNavigation.NavSession.Burst: the `if not path` replanning branch inside the loop cannot run as written. The path is non-empty when the loop starts, and a move never empties it. The branch is modelled as dead, and it is live in `BurstFixed`.
- AppNavigation.NavSession.Burst: the status messages and `draw_nav` calls at app.py:458 and app.py:473-481 are drawing only.

## Findings

| source | as written | input that shows it | evidently intended | confidence | as-written member | corrected member |
|---|---|---|---|---|---|---|
| app.py:455-457 | The burst uses up the path one step at a time until only `[goal]` is left. At the goal it reverses that one-cell path, which leaves `[goal]`, and swaps start and goal. A one-cell path never moves the robot, and every later rerun finds the robot away from the new goal, so no further swap happens. | start (2,9), goal (27,9), robot at (27,9), path `[(27,9)]`, navigation on: after any number of bursts the robot is still at (27,9) | the robot heads back to the patient room: at the goal the used-up path is dropped, so the loop's `if not path` branch plans the way from the pharmacy to the room | not executed | AppNavigation.ReturnLegStalls | AppNavigation.ReturnLegArrives |

`OutboundArrives` shows that every outbound trip ends in the state this
finding starts from. `NavSession.Burst` is the burst as written and
`NavSession.BurstFixed` the corrected one. Bursts alone never end the
stall, and "Start Navigation" and the rerun's path check leave the one-cell
path in place. Three buttons end it:

- "Randomize Obstacles" and "Reset Map" replan from the swapped start,
  which is the pharmacy.
- "Reset All" (app.py:254-259) restores the session defaults.

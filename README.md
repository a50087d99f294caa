# Traffic simulation core in Dafny

A model of the core of a small Rust traffic simulator. The model covers:

- the world grid, made of lattice points, vehicles and traffic lights;
- the generation of the grid and its lights;
- the per-tick vehicle pass, which moves every vehicle one step and then removes the vehicles that have arrived;
- the per-tick traffic-light pass, which moves each light through the cycle Green → Yellow → Red → Green;
- the text form of a point.

The simulator runs each pass as concurrent tasks. Here each pass is sequential, and two inputs stand for what the runtime decides:

- a **completion order**: a permutation of the task indices, in the order the results arrive;
- a **set of failed tasks**: tasks whose result never arrives.

Random draws are inputs too.

Modules, one per source file or concern:

- `Points` (`points.dfy`) covers `src/point.rs`: the `Point` record and its `Display` text.
- `Vehicles` (`vehicles.dfy`) covers `src/helpers/vehicle.rs`:
  - the `Vehicle` record (its datatype constructor is `Vehicle::new`);
  - the generation table;
  - the one-step movement `update`;
  - a corrected step.
- `Lights` (`lights.dfy`) covers `src/light.rs` and `benches/helpers/light.rs`:
  - the phase machine;
  - the in-place pass over an array;
  - the index-tagged concurrent pass.
- `Scheduler` (`scheduler.dfy`) holds the two ways the simulator merges task results back into a vector:
  - by the index each task returns;
  - by a running counter in completion order.

  It also holds completion orders and the permutation lemmas.
- `Grids` (`grid.dfy`) covers `src/grid.rs`:
  - the `Grid` class, with `points`, `vehicles` and `trafficLights` as sequence fields;
  - the geometry of the generated lattice;
  - the lights generation creates;
  - pruning.

`Vehicle` and `TrafficLight` are values: every task works on its own clone and hands it back. So `update(&mut self)` becomes a function from the old value to the new one. `Grid`'s methods update its fields in place, so `Grid` is a class whose methods have `modifies` frames.

## Model

| member | source | states |
|---|---|---|
| Points.Symbol | src/point.rs:10 | The symbol is `X` exactly for an intersection and `O` exactly for any other point. |
| Points.IntToString | src/point.rs:14-20 | The decimal text of a coordinate is at least one character long, at least two above 9, and starts with `-` exactly for a negative value. |
| Points.Format | src/point.rs:9-22 | The text starts with the symbol and `(` and ends with `)`. It is never shorter than 8 characters, because each coordinate takes at least two. |
| Points.FormatShape | src/point.rs:13-21 | The four branches of the text form all give one shape: symbol, `(`, padded x, `,`, padded y, `)`. A coordinate above 9 is written as is; any other coordinate gets a leading `0`. |
| Points.FormatTwoDigitPoint | src/point.rs:11-21 | For coordinates in 0..=99 the text is the symbol, then `(`, two digits of x, `,`, two digits of y, `)`. |
| Points.FormatFixedWidth | src/point.rs:11-21 | For coordinates in 0..=99 every point prints as exactly 8 characters, with separators at fixed places. Both coordinates are read back from their two digit positions. |
| Points.FormatExamples | src/point.rs:13-21 | `X(10,05)` for (10, 5, intersection) and `O(00,20)` for (0, 20, not an intersection). |
| Vehicles.Manhattan | src/helpers/vehicle.rs:113-115 | The remaining distance is 0 exactly when the position equals the destination. |
| Vehicles.GenerateVehicle | src/helpers/vehicle.rs:51-109 | Draws 1/2/3 give Car/Bus/Emergency with speed 2/1/3 and priority 1/2/3. The current speed equals the maximum speed. Both destination coordinates are multiples of 10 within the grid. The start lies within the grid, and its y is a multiple of 10 when its x is not 0. |
| Vehicles.Update | src/helpers/vehicle.rs:111-179 | Only `currentPosition` changes; id, type, speeds, destination and priority are kept. At most one coordinate changes. At the destination nothing changes. |
| Vehicles.BranchOrder | src/helpers/vehicle.rs:118-178 | For a positive speed, the axis that moves is fixed by the branch order: same x moves y; else same y moves x; else y a multiple of 10 moves x; else y moves. The moving coordinate changes and the other stays put. |
| Vehicles.ForwardMove | src/helpers/vehicle.rs:119-125 | Toward a larger coordinate, the coordinate advances by exactly the speed if it fits in what remains. Otherwise it lands on the destination coordinate. This covers both axes. |
| Vehicles.BackwardJump | src/helpers/vehicle.rs:149-158 | Toward a smaller coordinate with a positive speed, the coordinate is set to the destination coordinate in one call, on either axis. |
| Vehicles.NeverOvershoots | src/helpers/vehicle.rs:111-179 | For a positive speed, each coordinate stays between its old value and the destination's. |
| Vehicles.ProgressTowardDestination | src/helpers/vehicle.rs:113-178 | For a positive speed and a vehicle not yet arrived, the Manhattan distance strictly decreases. |
| Vehicles.Steps | src/helpers/vehicle.rs:111-179 | Repeated steps keep id, destination and speed. |
| Vehicles.StepsAfterArrival | src/helpers/vehicle.rs:113-115 | Once arrived, any number of further steps changes nothing. |
| Vehicles.ReachesDestination | src/helpers/vehicle.rs:113-178 | For a positive speed, the vehicle has arrived after as many steps as its Manhattan distance, or more. |
| Vehicles.StepsForwardOnY | src/helpers/vehicle.rs:118-126 | On a vertical road toward a larger y, n steps that all fit advance y by exactly n times the speed. |
| Vehicles.StraightRunExample | src/helpers/vehicle.rs:118-126 | From (0,0) toward (0,20) at speed 2: (0,2) after one step, (0,20) after ten, and unchanged afterwards. |
| Vehicles.StepsSplit | src/helpers/vehicle.rs:111-179 | m + k steps are m steps followed by k steps. |
| Vehicles.GeneratedVehicleArrives | src/helpers/vehicle.rs:51-109 | Every generated vehicle reaches its destination within its Manhattan distance in steps. |
| Vehicles.UpdateClamped | src/helpers/vehicle.rs:111-179 | The corrected step changes only the position. |
| Vehicles.ClampedMovesMinOfSpeedAndDistance | src/helpers/vehicle.rs:149-158 | The corrected step moves exactly min(speed, remaining distance) along the chosen axis, in either direction, and never overshoots. |
| Vehicles.ClampedAgreesForward | src/helpers/vehicle.rs:118-168 | Whenever no coordinate has to decrease, the corrected step equals the step as written. |
| Vehicles.BackwardJumpExample | src/helpers/vehicle.rs:149-158 | As written, (20,0) toward (0,0) at speed 2 goes to (0,0) in one step. The corrected step goes to (18,0). |
| Lights.New | src/light.rs:23-36 | A new light keeps the given phase and position. Its timer is 0 and its durations are Green 3, Yellow 1 and Red 2. |
| Lights.NewIsValid | src/light.rs:23-36 | A new light satisfies the timer invariant, whatever its phase. |
| Lights.StateOfDraw | src/light.rs:41-46 | The draws 1, 2 and 3 select Green, Yellow and Red, each phase by exactly one draw. |
| Lights.GenerateTrafficLight | src/light.rs:38-53 | Returns an error exactly when the point is not an intersection. On success the light sits at (x, y), has the phase its draw selects, a zero timer and the standard durations. |
| Lights.CurrentStateDuration | src/light.rs:56-62 | The duration is one of the light's three durations. With the standard durations it tells the phase apart: 3 for Green, 1 for Yellow, 2 for Red. |
| Lights.NextState | src/light.rs:65-71 | The next phase always differs from the current one. |
| Lights.CycleOfThree | src/light.rs:65-71 | Two steps of the cycle never return to the start; three steps always do. |
| Lights.Update | src/light.rs:74-85 | Position and all three durations are unchanged. |
| Lights.UpdateBehaviour | src/light.rs:74-85 | Below the current duration, the phase is kept and the elapsed time accumulates. Otherwise the phase advances exactly one step and the timer becomes 0, discarding the excess. Either way the phase moves at most one step. |
| Lights.UpdateKeepsTimerInRange | src/light.rs:56-85 | From a non-negative timer, a non-negative time step and positive durations, the timer ends in [0, duration of the new phase). |
| Lights.DiscardExample | src/light.rs:79-84 | Green with 3.5 s on a fresh light becomes Yellow with timer 0. |
| Lights.CycleClosure | src/light.rs:74-85 | Feeding each phase its own duration returns a light to its starting phase after exactly three updates, with timer 0. |
| Lights.UpdateTrafficLights | src/light.rs:96-113 | Every element of the array, in place, becomes the update of its old value with the same elapsed time. |
| Lights.UpdateTrafficLightsMerged | benches/helpers/light.rs:91-119 | For any completion order, slot i holds the update of light i, or light i itself if its task failed. The length is unchanged. |
| Lights.PassKeepsValid | benches/helpers/light.rs:107-116 | After a pass with a non-negative step, lights that satisfied the timer invariant still do and keep their positions. |
| Scheduler.CompletionOrderCovers | benches/helpers/light.rs:95-107 | A completion order has one entry per task, only valid indices, and every index. |
| Scheduler.GatherByIndex | benches/helpers/light.rs:107-117 | The index-tagged merge: slot i ends holding the step of item i, or item i if its task failed, whatever the completion order. |
| Scheduler.Completed | src/grid.rs:83-95 | The successful results of the first k tasks to finish are at most k. |
| Scheduler.CounterMerge | src/grid.rs:81-95 | The counter merge keeps the vector's length. |
| Scheduler.GatherByCounter | src/grid.rs:81-95 | The loop that writes each successful result to the slot a running counter points at, in completion order, ends with the counter merge. |
| Scheduler.CompletedWithoutFailures | src/grid.rs:83-89 | Without failures, the first k finished results are the stepped items picked in completion order. |
| Scheduler.CounterMergeWithoutFailures | src/grid.rs:81-95 | If every task succeeds, slot k holds the step of the item that finished k-th, not of item k. The merged vector is a permutation of the individually stepped items. |
| Scheduler.CompletionOrderPermutes | src/grid.rs:83-89 | Reordering by a completion order gives a permutation: the same entries, each as often. |
| Grids.GridPointsRowMajor | src/grid.rs:29-51 | Generation lays out Rows × Cols points. The point at offset i·width + j is (j·10, i·10), and it is an intersection iff 0 < j < width−1 or 0 < i < height−1. |
| Grids.CornersAreNotIntersections | src/grid.rs:38 | The four corners are never intersections. |
| Grids.ThreeByThreeIntersections | src/grid.rs:29-51 | The 3 × 3 grid has 9 points, of which exactly 5 are intersections. |
| Grids.IntersectionsAppend | src/grid.rs:29-51 | The intersections of two runs of points are those of the first followed by those of the second. |
| Grids.LightsMatchIntersections | src/grid.rs:41-48 | Generation creates exactly one light per intersection point, in the same order. Each light sits at its point's coordinates, with a zero timer and standard durations; points that are not intersections add none. |
| Grids.CollectAppend | src/grid.rs:29-53 | The lights of two runs of points, the second drawing after the first, are the first run's lights followed by the second's. |
| Grids.RowStep | src/grid.rs:30-51 | One inner iteration extends row i by column j and the row's lights by that point's light, if any. |
| Grids.GridStep | src/grid.rs:29-53 | One outer iteration appends row i after the rows before it, and that row's lights after theirs. |
| Grids.MergedByIndex | src/grid.rs:81-95 | The corrected merge keeps every slot's vehicle identity (id and destination). |
| Grids.CorrectedPassKeepsEveryVehicle | src/grid.rs:81-98 | With the corrected merge, every vehicle that has not arrived after its step survives pruning, and distinct ids stay distinct. |
| Grids.CounterMergeReorders | src/grid.rs:81-95 | As written, when the bus finishes first it lands in slot 0 and the car in slot 1. The index merge keeps both in their slots. |
| Grids.CounterMergeLosesVehicle | src/grid.rs:81-98 | As written, when the car's task fails, the merged vector is the moved bus followed by the stale bus. Only the bus is left after pruning, while the index merge keeps the car. |
| Grids.Retain | src/grid.rs:98 | Pruning never grows the vector and leaves no arrived vehicle. |
| Grids.RetainAppend | src/grid.rs:98 | Pruning works piece by piece, so the relative order of what it keeps is preserved. |
| Grids.RetainEnRoute | src/grid.rs:98 | A vector with no arrived vehicle is left unchanged. |
| Grids.PruneExactlyArrived | src/grid.rs:98 | Pruning removes exactly the arrived vehicle and keeps the rest in their relative order. |
| Grids.RetainFrom | src/grid.rs:98 | Pruning keeps only vehicles it was given. |
| Grids.RetainKeepsDistinctIds | src/grid.rs:98 | Pruning never makes two vehicles share an id. |
| Grids.RetainKeepsEnRoute | src/grid.rs:98 | Every vehicle that has not arrived survives pruning. |
| Grids.Grid.constructor | src/grid.rs:19-25 | A new grid is empty. |
| Grids.Grid.GenerateGrid | src/grid.rs:27-56 | Appends exactly the row-major lattice points, and a light for each intersection point drawn at that point's offset. Vehicles are untouched. |
| Grids.Grid.GenerateRow | src/grid.rs:30-52 | The inner loop appends row i and that row's lights. |
| Grids.Grid.AddPoint | src/grid.rs:41-51 | Appends the light for an intersection point (none otherwise), then the point. |
| Grids.Grid.UpdateVehicles | src/grid.rs:58-99 | The vehicles become the pruned counter merge of their steps, in completion order. The vector never grows, no remaining vehicle has arrived, and points and lights are unchanged. |
| Grids.Grid.UpdateVehiclesByIndex | src/grid.rs:81-98 | The corrected pass: the vehicles become the pruned index merge of their clamped steps. |
| Grids.Grid.UpdateTrafficLights | src/grid.rs:101-104 | Every light is updated with the same elapsed time, except those whose task failed. The number of lights is unchanged. |

## Left out

- Concurrency (tokio `JoinSet`, `spawn`, `join_next`, `spawn_blocking`, `async`/`await`). Each pass is sequential over an explicit completion order, a permutation of the task indices. Task failures are a set of task indices whose results never arrive.
- Random draws in `generate_vehicle` and `generate_traffic_light`. They are parameters:
  - the type, position and destination draws of a vehicle;
  - for the grid, one draw in 1..=3 per point offset (`draws[k]`, used only if the k-th point is an intersection, and mapped to a phase by `Lights.StateOfDraw`).
- The atomic id counter `CAR_ID_COUNTER`. The id is an input.
- `f32` time arithmetic. Times are `real`, with no rounding.
- Integer widths. Coordinates, speeds, the `u64` id and the `u8` priority are unbounded integers, so nothing in the model overflows. Grid coordinates `j * 10` are not bounded either.
- Vehicles.Update: does not model the `i32` overflow of `destination - current_position` (src/helpers/vehicle.rs:119, 130, 142, 151, 162, 171). For coordinates far outside the generated 0..=30 range, e.g. (0, -2000000000) heading to (0, 2000000000), the source panics in a debug build and wraps in a release build, while the model steps normally. Generated vehicles are far from that range.
- The `expect` on a failed generation task, error printing with `eprintln!`, and `print_state`. These are console output or panics outside the modelled logic.
- `Display for Grid` (src/grid.rs:107-217), the main loop in src/main.rs, the benchmarks, the analyzer and the message enum. These are terminal rendering and drivers.
- Grids.Grid.GenerateGrid: the source consumes `self` and returns it. Here it is a method that updates the grid in place.
- Grids.Grid.UpdateTrafficLights: src/grid.rs awaits `update_traffic_lights`. The only asynchronous version is the index-tagged one in benches/helpers/light.rs, so the grid pass delegates to `Lights.UpdateTrafficLightsMerged`. The in-place loop of src/light.rs is `Lights.UpdateTrafficLights`, on an array.
- Grids.Grid.UpdateVehicles: the merge loop writes into a copy of the vector (`Scheduler.GatherByCounter`), and the copy is then assigned back. The source writes `self.vehicles[i]` directly. Only the counter's own slots are written, so the result is the same.
- Vehicles.UpdateClamped and Grids.Grid.UpdateVehiclesByIndex are not in the source. They are the corrected behaviour the findings below call for.
- Where the code's own evidence points to a different intent, the model follows the code as written and records the discrepancy under Findings. There are two such places:
  - the comments and the `-=` arms of the backward branches (src/helpers/vehicle.rs:150-154 and 170-174), against the jump the code performs;
  - the index-tagged merge of the light pass (benches/helpers/light.rs:102, 111), against the counter merge of the vehicle pass.

## Findings

| source | as written | input that shows it | evidently intended | confidence | as-written member | corrected member |
|---|---|---|---|---|---|---|
| src/helpers/vehicle.rs:149-158 | Toward a smaller coordinate the distance `dx - x` (or `dy - y`, at 169-178) is negative. So `speed <= distance` is false for any positive speed, and the vehicle jumps straight to the destination coordinate. | A car at (20,0) heading to (0,0) at speed 2 is at (0,0) after one tick. | Move back by the speed until the destination is reached, as the comments "moves back on x untill it same as destination" and the `-= self.current_speed` arms (lines 150-154, 170-174) say, giving (18,0). | not executed | Vehicles.BackwardJumpExample | Vehicles.ClampedMovesMinOfSpeedAndDistance |
| src/grid.rs:81-95 | Results are written to slots 0, 1, … by a counter in completion order, not to the index of the vehicle they came from. A failed task leaves the last slot holding its stale pre-tick vehicle. | Car and bus, with the car's task failing: the vector becomes [moved bus, stale bus], and the car is lost. | Each result written back to the index of the vehicle it came from, as the light pass does with `(i, updated)` and `traffic_lights[i] = …` (benches/helpers/light.rs:102, 111), so no vehicle is lost or duplicated. | not executed | Grids.CounterMergeLosesVehicle | Grids.CorrectedPassKeepsEveryVehicle |

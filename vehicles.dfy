/**
 * Vehicles of the simulator: the record, the generation table with its random
 * draws passed in, and the single-step movement toward the destination.
 */
module Vehicles {

  /** Grid size the generator draws within (rows and columns of points minus one). */
  const GridHeight: int := 3
  const GridWidth: int := 3

  datatype VehicleType = Car | Bus | Emergency

  /**
   * A vehicle. The id is the unsigned 64-bit counter value, priority an unsigned
   * byte, coordinates and speeds signed 32-bit integers in the simulator; here all
   * are mathematical integers.
   */
  datatype Vehicle = Vehicle(
    id: nat,
    vehicleType: VehicleType,
    currentPosition: (int, int),
    currentSpeed: int,
    maxSpeed: int,
    destination: (int, int),
    priority: nat)

  predicate Arrived(v: Vehicle) {
    v.currentPosition == v.destination
  }

  /** Distance still to travel along the grid lines. */
  function Manhattan(v: Vehicle): (d: nat)
    ensures d == 0 <==> Arrived(v)
  {
    Abs(v.destination.0 - v.currentPosition.0) + Abs(v.destination.1 - v.currentPosition.1)
  }

  function Abs(n: int): nat {
    if n < 0 then -n else n
  }

  // ---------------------------------------------------------------------------
  // Generation

  /** The vehicle type chosen by the draw `num` in 1..=3. */
  function TypeOfDraw(num: int): VehicleType
    requires 1 <= num <= 3
  {
    match num
    case 1 => Car
    case 2 => Bus
    case 3 => Emergency
  }

  function SpeedOfDraw(num: int): int
    requires 1 <= num <= 3
  {
    match num
    case 1 => 2
    case 2 => 1
    case 3 => 3
  }

  function PriorityOfDraw(num: int): nat
    requires 1 <= num <= 3
  {
    match num
    case 1 => 1
    case 2 => 2
    case 3 => 3
  }

  /** The upper bound of the start-row draw: row numbers when x is not 0, raw coordinates otherwise. */
  function YDrawBound(xPosition: int): int {
    if xPosition != 0 || xPosition % 10 != 0 then GridHeight else GridHeight * 10
  }

  /**
   * The deterministic part of vehicle generation. `num` is the type draw,
   * `xPosition` the start column draw, `yDraw` the start row draw (scaled by 10
   * when x is not 0), `xFinalDraw`/`yFinalDraw` the destination draws in
   * 0..=GridWidth and 0..=GridHeight, `id` the counter value.
   */
  function GenerateVehicle(id: nat, num: int, xPosition: int, yDraw: int, xFinalDraw: int, yFinalDraw: int)
    : (v: Vehicle)
    requires 1 <= num <= 3
    requires 0 <= xPosition <= GridWidth * 10
    requires 0 <= yDraw <= YDrawBound(xPosition)
    requires 0 <= xFinalDraw <= GridWidth && 0 <= yFinalDraw <= GridHeight
    ensures v.id == id
    ensures num == 1 ==> v.vehicleType == Car && v.maxSpeed == 2 && v.priority == 1
    ensures num == 2 ==> v.vehicleType == Bus && v.maxSpeed == 1 && v.priority == 2
    ensures num == 3 ==> v.vehicleType == Emergency && v.maxSpeed == 3 && v.priority == 3
    ensures v.currentSpeed == v.maxSpeed > 0
    ensures v.destination.0 % 10 == 0 && 0 <= v.destination.0 <= GridWidth * 10
    ensures v.destination.1 % 10 == 0 && 0 <= v.destination.1 <= GridHeight * 10
    ensures 0 <= v.currentPosition.0 <= GridWidth * 10
    ensures 0 <= v.currentPosition.1 <= GridHeight * 10
    ensures v.currentPosition.0 != 0 ==> v.currentPosition.1 % 10 == 0
  {
    var yPosition := if xPosition != 0 || xPosition % 10 != 0 then yDraw * 10 else yDraw;
    var speed := SpeedOfDraw(num);
    Vehicle(id, TypeOfDraw(num), (xPosition, yPosition), speed, speed,
            (xFinalDraw * 10, yFinalDraw * 10), PriorityOfDraw(num))
  }

  // ---------------------------------------------------------------------------
  // Movement

  /**
   * One movement step (`Vehicle::update`). Only `currentPosition` changes, and
   * only one of its coordinates. When moving toward a smaller coordinate the
   * distance is negative, so a positive speed never passes the `speed <= distance`
   * test and the vehicle lands on the destination coordinate at once.
   */
  function Update(v: Vehicle): (r: Vehicle)
    ensures r == v.(currentPosition := r.currentPosition)
    ensures r.currentPosition.0 == v.currentPosition.0 || r.currentPosition.1 == v.currentPosition.1
    ensures Arrived(v) ==> r == v
  {
    var (x, y) := v.currentPosition;
    var (dx, dy) := v.destination;
    var speed := v.currentSpeed;
    if v.currentPosition == v.destination then v
    else if x == dx then
      var distance := dy - y;
      if speed <= distance then v.(currentPosition := (x, y + speed))
      else v.(currentPosition := (x, dy))
    else if y == dy then
      var distance := dx - x;
      if speed <= distance then v.(currentPosition := (x + speed, y))
      else v.(currentPosition := (dx, y))
    else if y == 0 || y % 10 == 0 then
      if x < dx then
        var distanceX := dx - x;
        if speed <= distanceX then v.(currentPosition := (x + speed, y))
        else v.(currentPosition := (dx, y))
      else
        var distanceX := dx - x;
        if speed <= distanceX then v.(currentPosition := (x - speed, y))
        else v.(currentPosition := (dx, y))
    else if y < dy then
      var distanceY := dy - y;
      if speed <= distanceY then v.(currentPosition := (x, y + speed))
      else v.(currentPosition := (x, dy))
    else
      var distance1 := dy - y;
      if speed <= distance1 then v.(currentPosition := (x, y - speed))
      else v.(currentPosition := (x, dy))
  }

  /**
   * The axis a vehicle not yet at its destination moves on, in the fixed order:
   * same x moves y; else same y moves x; else on a horizontal road (y a multiple
   * of 10) moves x; else moves y.
   */
  predicate MovesOnY(v: Vehicle) {
    var (x, y) := v.currentPosition;
    x == v.destination.0 || (y != v.destination.1 && y % 10 != 0)
  }

  /** With a positive speed, the chosen axis changes and the other stays put. */
  lemma BranchOrder(v: Vehicle)
    requires !Arrived(v) && v.currentSpeed > 0
    ensures MovesOnY(v) ==> Update(v).currentPosition.0 == v.currentPosition.0
                            && Update(v).currentPosition.1 != v.currentPosition.1
    ensures !MovesOnY(v) ==> Update(v).currentPosition.1 == v.currentPosition.1
                             && Update(v).currentPosition.0 != v.currentPosition.0
  {
  }

  /**
   * Moving toward a larger coordinate: if the speed fits in what remains the
   * coordinate advances by exactly the speed, otherwise it lands on the
   * destination coordinate.
   */
  lemma ForwardMove(v: Vehicle)
    requires !Arrived(v) && v.currentSpeed > 0
    ensures var (x, y) := v.currentPosition; var (dx, dy) := v.destination;
      var (nx, ny) := Update(v).currentPosition;
      && (MovesOnY(v) && y < dy ==> ny == (if v.currentSpeed <= dy - y then y + v.currentSpeed else dy))
      && (!MovesOnY(v) && x < dx ==> nx == (if v.currentSpeed <= dx - x then x + v.currentSpeed else dx))
  {
  }

  /**
   * Moving toward a smaller coordinate with a positive speed: the coordinate is
   * set to the destination coordinate in one call, however far away it is.
   */
  lemma BackwardJump(v: Vehicle)
    requires !Arrived(v) && v.currentSpeed > 0
    ensures MovesOnY(v) && v.destination.1 < v.currentPosition.1 ==>
      Update(v).currentPosition == (v.currentPosition.0, v.destination.1)
    ensures !MovesOnY(v) && v.destination.0 < v.currentPosition.0 ==>
      Update(v).currentPosition == (v.destination.0, v.currentPosition.1)
  {
  }

  /** Between(a, b, c): c lies on the closed segment from a to b. */
  predicate Between(a: int, b: int, c: int) {
    (a <= c <= b) || (b <= c <= a)
  }

  /**
   * With a positive speed each coordinate stays between its old value and the
   * destination's: the vehicle never overshoots, and no new extreme value (hence
   * no 32-bit overflow) can arise.
   */
  lemma NeverOvershoots(v: Vehicle)
    requires v.currentSpeed > 0
    ensures Between(v.currentPosition.0, v.destination.0, Update(v).currentPosition.0)
    ensures Between(v.currentPosition.1, v.destination.1, Update(v).currentPosition.1)
  {
  }

  /** With a positive speed, every step strictly shortens the remaining distance. */
  lemma ProgressTowardDestination(v: Vehicle)
    requires !Arrived(v) && v.currentSpeed > 0
    ensures Manhattan(Update(v)) < Manhattan(v)
  {
  }

  /** `n` consecutive ticks of the vehicle pass. */
  function Steps(v: Vehicle, n: nat): (r: Vehicle)
    ensures r.id == v.id && r.destination == v.destination && r.currentSpeed == v.currentSpeed
    decreases n
  {
    if n == 0 then v else Steps(Update(v), n - 1)
  }

  /** Once arrived, further steps change nothing. */
  lemma {:induction false} StepsAfterArrival(v: Vehicle, n: nat)
    requires Arrived(v)
    ensures Steps(v, n) == v
    decreases n
  {
    if n > 0 {
      StepsAfterArrival(Update(v), n - 1);
    }
  }

  /** A vehicle with a positive speed arrives within as many ticks as its Manhattan distance, and stays there. */
  lemma {:induction false} ReachesDestination(v: Vehicle, n: nat)
    requires v.currentSpeed > 0
    requires n >= Manhattan(v)
    ensures Arrived(Steps(v, n))
    decreases n
  {
    if Arrived(v) {
      StepsAfterArrival(v, n);
    } else {
      ProgressTowardDestination(v);
      ReachesDestination(Update(v), n - 1);
    }
  }

  /** On a vertical road heading to a larger y, `n` steps that all fit advance by exactly `n * speed`. */
  lemma {:induction false} StepsForwardOnY(v: Vehicle, n: nat)
    requires v.currentSpeed > 0
    requires v.currentPosition.0 == v.destination.0
    requires v.currentPosition.1 + n * v.currentSpeed <= v.destination.1
    ensures Steps(v, n).currentPosition == (v.currentPosition.0, v.currentPosition.1 + n * v.currentSpeed)
    decreases n
  {
    if n > 0 {
      var s := v.currentSpeed;
      assert n * s == (n - 1) * s + s;
      assert s <= v.destination.1 - v.currentPosition.1;
      StepsForwardOnY(Update(v), n - 1);
    }
  }

  /** From (0,0) toward (0,20) at speed 2: (0,2) after one tick, (0,20) after ten, unchanged afterwards. */
  lemma StraightRunExample(id: nat, k: nat)
    ensures var v := Vehicle(id, Car, (0, 0), 2, 2, (0, 20), 1);
      && Update(v).currentPosition == (0, 2)
      && Steps(v, 10).currentPosition == (0, 20)
      && Steps(v, 10 + k) == Steps(v, 10)
  {
    var v := Vehicle(id, Car, (0, 0), 2, 2, (0, 20), 1);
    StepsForwardOnY(v, 10);
    StepsAfterArrival(Steps(v, 10), k);
    StepsSplit(v, 10, k);
  }

  lemma {:induction false} StepsSplit(v: Vehicle, m: nat, k: nat)
    ensures Steps(v, m + k) == Steps(Steps(v, m), k)
    decreases m
  {
    if m > 0 {
      StepsSplit(Update(v), m - 1, k);
    }
  }

  /** Every generated vehicle reaches its destination within its Manhattan distance in ticks. */
  lemma GeneratedVehicleArrives(id: nat, num: int, xPosition: int, yDraw: int, xFinalDraw: int, yFinalDraw: int)
    requires 1 <= num <= 3
    requires 0 <= xPosition <= GridWidth * 10
    requires 0 <= yDraw <= YDrawBound(xPosition)
    requires 0 <= xFinalDraw <= GridWidth && 0 <= yFinalDraw <= GridHeight
    ensures var v := GenerateVehicle(id, num, xPosition, yDraw, xFinalDraw, yFinalDraw);
      Arrived(Steps(v, Manhattan(v)))
  {
    var v := GenerateVehicle(id, num, xPosition, yDraw, xFinalDraw, yFinalDraw);
    ReachesDestination(v, Manhattan(v));
  }

  // ---------------------------------------------------------------------------
  // Backward moves step by the speed, as the comments and the `-=` arms of the
  // backward branches (src/helpers/vehicle.rs:150-154 and 170-174) describe

  /**
   * The step the backward branches were meant to take: move by the speed toward
   * the destination, clamped so as not to pass it. Forward moves, the branch
   * order and the no-op at the destination are as in Update.
   */
  function UpdateClamped(v: Vehicle): (r: Vehicle)
    ensures r == v.(currentPosition := r.currentPosition)
  {
    var (x, y) := v.currentPosition;
    var (dx, dy) := v.destination;
    var speed := v.currentSpeed;
    if Arrived(v) then v
    else if MovesOnY(v) then v.(currentPosition := (x, MoveToward(y, dy, speed)))
    else v.(currentPosition := (MoveToward(x, dx, speed), y))
  }

  function MoveToward(c: int, target: int, speed: int): int {
    if c < target then (if speed <= target - c then c + speed else target)
    else (if speed <= c - target then c - speed else target)
  }

  /** The corrected step moves exactly min(speed, remaining distance) along one axis, in either direction. */
  lemma ClampedMovesMinOfSpeedAndDistance(v: Vehicle)
    requires !Arrived(v) && v.currentSpeed > 0
    ensures var (x, y) := v.currentPosition; var (nx, ny) := UpdateClamped(v).currentPosition;
      var remaining := if MovesOnY(v) then Abs(v.destination.1 - y) else Abs(v.destination.0 - x);
      var moved := if MovesOnY(v) then Abs(ny - y) else Abs(nx - x);
      && moved == (if v.currentSpeed <= remaining then v.currentSpeed else remaining)
      && (MovesOnY(v) ==> nx == x && Between(y, v.destination.1, ny))
      && (!MovesOnY(v) ==> ny == y && Between(x, v.destination.0, nx))
  {
  }

  /** The two steps agree whenever the move is toward a larger coordinate. */
  lemma ClampedAgreesForward(v: Vehicle)
    requires v.destination.0 >= v.currentPosition.0 && v.destination.1 >= v.currentPosition.1
    ensures UpdateClamped(v) == Update(v)
  {
  }

  /** As written, a vehicle at (20,0) heading to (0,0) at speed 2 is at (0,0) after one tick, not at (18,0). */
  lemma BackwardJumpExample(id: nat)
    ensures var v := Vehicle(id, Car, (20, 0), 2, 2, (0, 0), 1);
      && Update(v).currentPosition == (0, 0)
      && UpdateClamped(v).currentPosition == (18, 0)
  {
  }
}

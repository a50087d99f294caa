/**
 * The traffic-light phase machine: a light accumulates elapsed time and, once
 * the current phase's duration is reached, moves one step along the cycle
 * Green -> Yellow -> Red -> Green and restarts its timer at zero.
 */
module Lights {
  import opened Points
  import Scheduler

  datatype LightState = Green | Yellow | Red

  /** Error or success, as the generator of a light returns it. */
  datatype Result<T> = Ok(value: T) | Err(message: string)

  /** A light; times are seconds (single-precision floats in the simulator, reals here). */
  datatype TrafficLight = TrafficLight(
    lightState: LightState,
    position: (int, int),
    timeInState: real,
    greenDuration: real,
    yellowDuration: real,
    redDuration: real)

  /** A draw of `random_range(1..=3)`, which picks a light's initial phase. */
  type Draw = d: int | 1 <= d <= 3 witness 1

  /** The constructor: keeps the given phase and position, starts the timer at zero with durations of 3, 1 and 2 seconds. */
  function New(lightState: LightState, position: (int, int)): (l: TrafficLight)
    ensures l.lightState == lightState && l.position == position
    ensures l.timeInState == 0.0 && StandardDurations(l)
  {
    TrafficLight(lightState, position, 0.0, 3.0, 1.0, 2.0)
  }

  /** A new light satisfies the invariant, whatever its phase. */
  lemma NewIsValid(lightState: LightState, position: (int, int))
    ensures Valid(New(lightState, position))
  {
  }

  /** The durations a light is built with. */
  predicate StandardDurations(l: TrafficLight) {
    l.greenDuration == 3.0 && l.yellowDuration == 1.0 && l.redDuration == 2.0
  }

  /** The light's invariant: its timer lies in [0, duration of the current phase). */
  predicate Valid(l: TrafficLight) {
    && l.greenDuration > 0.0 && l.yellowDuration > 0.0 && l.redDuration > 0.0
    && 0.0 <= l.timeInState < CurrentStateDuration(l)
  }

  /**
   * A light for `point`, whose initial phase is selected by the random draw
   * `draw`; rejected for a point that is not an intersection.
   */
  function GenerateTrafficLight(point: Point, draw: Draw): (r: Result<TrafficLight>)
    ensures r.Err? <==> !point.isIntersection
    ensures r.Ok? ==> && r.value.position == (point.x, point.y)
                      && r.value.lightState == StateOfDraw(draw)
                      && r.value.timeInState == 0.0
                      && StandardDurations(r.value)
                      && Valid(r.value)
  {
    if point.isIntersection then Ok(New(StateOfDraw(draw), (point.x, point.y)))
    else Err("Given point is not an intersection")
  }

  /** The phase the random draw 1, 2 or 3 selects. */
  function StateOfDraw(draw: Draw): (s: LightState)
    ensures s == Green <==> draw == 1
    ensures s == Yellow <==> draw == 2
    ensures s == Red <==> draw == 3
  {
    match draw
    case 1 => Green
    case 2 => Yellow
    case 3 => Red
  }

  /** The duration of the current phase; with the standard durations it tells the phase apart. */
  function CurrentStateDuration(l: TrafficLight): (d: real)
    ensures d == l.greenDuration || d == l.yellowDuration || d == l.redDuration
    ensures StandardDurations(l) ==>
      && (d == 3.0 <==> l.lightState == Green)
      && (d == 1.0 <==> l.lightState == Yellow)
      && (d == 2.0 <==> l.lightState == Red)
  {
    match l.lightState
    case Green => l.greenDuration
    case Yellow => l.yellowDuration
    case Red => l.redDuration
  }

  function NextState(s: LightState): (t: LightState)
    ensures t != s
  {
    match s
    case Green => Yellow
    case Yellow => Red
    case Red => Green
  }

  /** The cycle has length three: every phase comes back after three steps and not before. */
  lemma CycleOfThree(s: LightState)
    ensures NextState(NextState(s)) != s
    ensures NextState(NextState(NextState(s))) == s
  {
  }

  /** One call of `update`: accumulate, and on reaching the duration take one step and reset the timer to 0. */
  function Update(l: TrafficLight, timePassed: real): (r: TrafficLight)
    ensures r.position == l.position
    ensures r.greenDuration == l.greenDuration && r.yellowDuration == l.yellowDuration
    ensures r.redDuration == l.redDuration
  {
    var t := l.timeInState + timePassed;
    if t >= CurrentStateDuration(l) then
      l.(lightState := NextState(l.lightState), timeInState := 0.0)
    else
      l.(timeInState := t)
  }

  /**
   * Below the duration the phase is kept and the time accumulates; otherwise the
   * phase advances exactly one step and the excess is discarded, however many
   * durations `timePassed` spans.
   */
  lemma UpdateBehaviour(l: TrafficLight, timePassed: real)
    ensures var r := Update(l, timePassed);
      && (l.timeInState + timePassed < CurrentStateDuration(l) ==>
            r.lightState == l.lightState && r.timeInState == l.timeInState + timePassed)
      && (l.timeInState + timePassed >= CurrentStateDuration(l) ==>
            r.lightState == NextState(l.lightState) && r.timeInState == 0.0)
      && (r.lightState == l.lightState || r.lightState == NextState(l.lightState))
  {
  }

  /** From a non-negative timer and a non-negative time step, the timer ends in [0, duration). */
  lemma UpdateKeepsTimerInRange(l: TrafficLight, timePassed: real)
    requires l.greenDuration > 0.0 && l.yellowDuration > 0.0 && l.redDuration > 0.0
    requires l.timeInState >= 0.0 && timePassed >= 0.0
    ensures Valid(Update(l, timePassed))
  {
  }

  /** Green with 3.5 s elapsed on a fresh light goes to Yellow with the timer at 0, not 0.5. */
  lemma DiscardExample(position: (int, int))
    ensures Update(New(Green, position), 3.5) == New(Yellow, position)
  {
  }

  /**
   * Feeding each phase its own duration brings a light back to its starting
   * phase after exactly three updates, with the timer at 0.
   */
  lemma {:induction false} CycleClosure(l: TrafficLight)
    requires l.timeInState >= 0.0
    ensures var l1 := Update(l, CurrentStateDuration(l));
      var l2 := Update(l1, CurrentStateDuration(l1));
      var l3 := Update(l2, CurrentStateDuration(l2));
      && l1.lightState != l.lightState && l2.lightState != l.lightState
      && l3.lightState == l.lightState && l3.timeInState == 0.0
  {
    CycleOfThree(l.lightState);
  }

  // ---------------------------------------------------------------------------
  // Passes over all lights

  /** The sequential pass: every light, in place, updated with the same elapsed time. */
  method UpdateTrafficLights(trafficLights: array<TrafficLight>, timePassed: real)
    modifies trafficLights
    ensures forall i :: 0 <= i < trafficLights.Length ==>
      trafficLights[i] == Update(old(trafficLights[i]), timePassed)
  {
    var i := 0;
    while i < trafficLights.Length
      invariant 0 <= i <= trafficLights.Length
      invariant forall k :: 0 <= k < i ==> trafficLights[k] == Update(old(trafficLights[k]), timePassed)
      invariant forall k :: i <= k < trafficLights.Length ==> trafficLights[k] == old(trafficLights[k])
    {
      trafficLights[i] := Update(trafficLights[i], timePassed);
      i := i + 1;
    }
  }

  /**
   * The concurrent pass: one task per light on its own copy, each returning
   * `(i, updated)`, merged by index in completion order `order`; the tasks in
   * `failed` leave their slot as it was.
   */
  method UpdateTrafficLightsMerged(trafficLights: seq<TrafficLight>, timePassed: real,
                                   order: seq<nat>, failed: set<nat>)
    returns (merged: seq<TrafficLight>)
    requires Scheduler.IsCompletionOrder(order, |trafficLights|)
    ensures |merged| == |trafficLights|
    ensures forall i :: 0 <= i < |trafficLights| ==>
      merged[i] == if i in failed then trafficLights[i] else Update(trafficLights[i], timePassed)
  {
    merged := Scheduler.GatherByIndex(trafficLights, l => Update(l, timePassed), order, failed);
  }

  /** Lights that satisfy the invariant still do after a pass with a non-negative time step. */
  lemma PassKeepsValid(before: seq<TrafficLight>, after: seq<TrafficLight>, timePassed: real, failed: set<nat>)
    requires timePassed >= 0.0
    requires forall i :: 0 <= i < |before| ==> Valid(before[i])
    requires |after| == |before|
    requires forall i :: 0 <= i < |before| ==>
      after[i] == if i in failed then before[i] else Update(before[i], timePassed)
    ensures forall i :: 0 <= i < |after| ==> Valid(after[i]) && after[i].position == before[i].position
  {
    forall i | 0 <= i < |after|
      ensures Valid(after[i]) && after[i].position == before[i].position
    {
      if i !in failed {
        UpdateKeepsTimerInRange(before[i], timePassed);
      }
    }
  }
}

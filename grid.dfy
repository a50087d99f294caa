/**
 * The world: the lattice of points, the vehicles and the traffic lights, with
 * grid generation and the per-tick vehicle and light passes.
 */
module Grids {
  import opened Points
  import opened Vehicles
  import Lights
  import Scheduler

  // ---------------------------------------------------------------------------
  // Grid geometry

  /** Number of rows (columns) the generation loops run over: `0..=height - 1` is empty unless height > 0. */
  function Rows(height: int): nat {
    if height > 0 then height else 0
  }

  function Cols(width: int): nat {
    if width > 0 then width else 0
  }

  /** The point in row i, column j: x from the column, y from the row, 10 units apart. */
  function GridPoint(i: int, j: int, height: int, width: int): Point {
    Point(j * 10, i * 10, (j > 0 && j < width - 1) || (i > 0 && i < height - 1))
  }

  /** The first n points of row i, left to right. */
  function RowPrefix(i: int, n: nat, height: int, width: int): (r: seq<Point>)
    ensures |r| == n
  {
    if n == 0 then [] else RowPrefix(i, n - 1, height, width) + [GridPoint(i, n - 1, height, width)]
  }

  /** Row i: the points the inner generation loop appends. */
  function Row(i: int, height: int, width: int): (r: seq<Point>)
    ensures |r| == Cols(width)
  {
    RowPrefix(i, Cols(width), height, width)
  }

  /** Column j of a row is the point (j * 10, i * 10). */
  lemma {:induction false} RowPrefixAt(i: int, n: nat, height: int, width: int, j: nat)
    requires j < n
    ensures RowPrefix(i, n, height, width)[j] == GridPoint(i, j, height, width)
    decreases n
  {
    if j < n - 1 {
      RowPrefixAt(i, n - 1, height, width, j);
    }
  }

  /** Number of points in the first n rows. */
  function PointCount(n: nat, width: int): (c: nat)
    ensures c == n * Cols(width)
  {
    if n == 0 then 0 else PointCount(n - 1, width) + Cols(width)
  }

  /** The first n rows, row after row. */
  function RowsUpTo(n: nat, height: int, width: int): (ps: seq<Point>)
    ensures |ps| == PointCount(n, width)
  {
    if n == 0 then [] else RowsUpTo(n - 1, height, width) + Row(n - 1, height, width)
  }

  /** All points `generate_grid(height, width)` appends, in the order it appends them. */
  function GridPoints(height: int, width: int): seq<Point> {
    RowsUpTo(Rows(height), height, width)
  }

  /** Row-major layout: the point at offset i * width + j is the one of row i, column j. */
  lemma {:induction false} RowsUpToAt(n: nat, height: int, width: int, i: nat, j: nat)
    requires i < n && j < Cols(width)
    ensures i * Cols(width) + j < |RowsUpTo(n, height, width)|
    ensures RowsUpTo(n, height, width)[i * Cols(width) + j] == GridPoint(i, j, height, width)
  {
    var c := Cols(width);
    MulMono(i + 1, n, c);
    if i < n - 1 {
      RowsUpToAt(n - 1, height, width, i, j);
      MulMono(i + 1, n - 1, c);
    } else {
      assert RowsUpTo(n, height, width)[(n - 1) * c + j] == Row(n - 1, height, width)[j];
      RowPrefixAt(n - 1, c, height, width, j);
    }
  }

  lemma MulMono(a: nat, b: nat, c: nat)
    requires a <= b
    ensures a * c <= b * c
    ensures (a + 1) * c == a * c + c
  {
  }

  /**
   * `generate_grid(height, width)` lays out Rows(height) * Cols(width) points; the
   * one at offset i * width + j sits at (j * 10, i * 10) and is an intersection
   * exactly when its column or its row is strictly inside the grid.
   */
  lemma GridPointsRowMajor(height: int, width: int, i: nat, j: nat)
    requires i < Rows(height) && j < Cols(width)
    ensures |GridPoints(height, width)| == Rows(height) * Cols(width)
    ensures var p := GridPoints(height, width)[i * Cols(width) + j];
      && p.x == j * 10 && p.y == i * 10
      && (p.isIntersection <==> (0 < j < width - 1) || (0 < i < height - 1))
  {
    RowsUpToAt(Rows(height), height, width, i, j);
  }

  /** Corners are never intersections. */
  lemma CornersAreNotIntersections(height: int, width: int)
    requires height >= 1 && width >= 1
    ensures !GridPoint(0, 0, height, width).isIntersection
    ensures !GridPoint(0, width - 1, height, width).isIntersection
    ensures !GridPoint(height - 1, 0, height, width).isIntersection
    ensures !GridPoint(height - 1, width - 1, height, width).isIntersection
  {
  }

  lemma AppendAssoc<T>(all: seq<T>, a: seq<T>, b: seq<T>, c: seq<T>)
    requires all == a + b + c
    ensures all == a + (b + c)
  {
  }

  /** One step of the outer generation loop: row i follows the rows before it, and its draws are in range. */
  lemma GridStep(i: nat, height: int, width: int, draws: seq<Lights.Draw>)
    requires i < Rows(height) && |draws| >= Rows(height) * Cols(width)
    ensures RowsUpTo(i + 1, height, width) == RowsUpTo(i, height, width) + Row(i, height, width)
    ensures |RowsUpTo(i, height, width)| + Cols(width) <= |draws|
    ensures LightsFor(RowsUpTo(i + 1, height, width), draws, 0)
         == LightsFor(RowsUpTo(i, height, width), draws, 0)
          + LightsFor(Row(i, height, width), draws, |RowsUpTo(i, height, width)|)
  {
    MulMono(i + 1, Rows(height), Cols(width));
    CollectAppend(RowsUpTo(i, height, width), Row(i, height, width), draws, 0, LightOf);
  }

  /** One step of the inner generation loop: column j extends the row, and its light (if any) the row's lights. */
  lemma RowStep(i: int, j: nat, height: int, width: int, draws: seq<Lights.Draw>, k: nat)
    requires k + j < |draws|
    ensures RowPrefix(i, j + 1, height, width) == RowPrefix(i, j, height, width) + [GridPoint(i, j, height, width)]
    ensures LightsFor(RowPrefix(i, j + 1, height, width), draws, k)
         == LightsFor(RowPrefix(i, j, height, width), draws, k) + LightOf(GridPoint(i, j, height, width), draws[k + j])
  {
    CollectSnoc(RowPrefix(i, j, height, width), GridPoint(i, j, height, width), draws, k, LightOf);
  }

  /** The intersection points of `ps`, in order. */
  function Intersections(ps: seq<Point>): (r: seq<Point>)
    ensures |r| <= |ps|
    ensures forall k :: 0 <= k < |r| ==> r[k].isIntersection
  {
    if |ps| == 0 then []
    else Intersections(ps[..|ps| - 1]) + (if ps[|ps| - 1].isIntersection then [ps[|ps| - 1]] else [])
  }

  /** The 3 x 3 grid of the simulator has exactly five intersections: the middle row and the middle column. */
  lemma ThreeByThreeIntersections()
    ensures |GridPoints(3, 3)| == 9
    ensures |Intersections(GridPoints(3, 3))| == 5
  {
    var r0, r1, r2 := Row(0, 3, 3), Row(1, 3, 3), Row(2, 3, 3);
    assert r0 == [Point(0, 0, false), Point(10, 0, true), Point(20, 0, false)];
    assert r1 == [Point(0, 10, true), Point(10, 10, true), Point(20, 10, true)];
    assert r2 == [Point(0, 20, false), Point(10, 20, true), Point(20, 20, false)];
    assert GridPoints(3, 3) == r0 + r1 + r2;
    IntersectionsOfThree(r0[0], r0[1], r0[2]);
    IntersectionsOfThree(r1[0], r1[1], r1[2]);
    IntersectionsOfThree(r2[0], r2[1], r2[2]);
    IntersectionsAppend(r0, r1);
    IntersectionsAppend(r0 + r1, r2);
  }

  lemma IntersectionsOfThree(p0: Point, p1: Point, p2: Point)
    ensures |Intersections([p0, p1, p2])|
         == (if p0.isIntersection then 1 else 0) + (if p1.isIntersection then 1 else 0)
          + (if p2.isIntersection then 1 else 0)
  {
    assert [p0, p1, p2][..2] == [p0, p1];
    assert [p0, p1][..1] == [p0];
    assert [p0][..0] == [];
    assert Intersections([p0]) == if p0.isIntersection then [p0] else [];
    assert Intersections([p0, p1]) == Intersections([p0]) + if p1.isIntersection then [p1] else [];
    assert Intersections([p0, p1, p2]) == Intersections([p0, p1]) + if p2.isIntersection then [p2] else [];
  }

  /** Filtering works piece by piece. */
  lemma {:induction false} IntersectionsAppend(a: seq<Point>, b: seq<Point>)
    ensures Intersections(a + b) == Intersections(a) + Intersections(b)
    decreases |b|
  {
    if |b| == 0 {
      assert a + b == a;
    } else {
      var b' := b[..|b| - 1];
      assert (a + b)[..|a + b| - 1] == a + b';
      IntersectionsAppend(a, b');
    }
  }

  /** The lights a single point contributes: one for an intersection, none otherwise. */
  function LightOf(p: Point, draw: Lights.Draw): seq<Lights.TrafficLight> {
    if p.isIntersection then [Lights.New(Lights.StateOfDraw(draw), (p.x, p.y))] else []
  }

  /**
   * Each item in turn contributes `f(item, draw)`, the k-th item taking the
   * draw `draws[offset + k]`; the contributions are concatenated in order.
   */
  function Collect<A, D, B>(xs: seq<A>, draws: seq<D>, offset: nat, f: (A, D) -> seq<B>): seq<B>
    requires offset + |xs| <= |draws|
  {
    if |xs| == 0 then []
    else Collect(xs[..|xs| - 1], draws, offset, f) + f(xs[|xs| - 1], draws[offset + |xs| - 1])
  }

  /** Appending an item appends its contribution. */
  lemma CollectSnoc<A, D, B>(xs: seq<A>, x: A, draws: seq<D>, offset: nat, f: (A, D) -> seq<B>)
    requires offset + |xs| < |draws|
    ensures Collect(xs + [x], draws, offset, f) == Collect(xs, draws, offset, f) + f(x, draws[offset + |xs|])
  {
    assert (xs + [x])[..|xs|] == xs;
  }

  /** Two runs of items, the second drawing after the first. */
  lemma {:induction false} CollectAppend<A, D, B>(a: seq<A>, b: seq<A>, draws: seq<D>, offset: nat,
                                                 f: (A, D) -> seq<B>)
    requires offset + |a| + |b| <= |draws|
    ensures Collect(a + b, draws, offset, f) == Collect(a, draws, offset, f) + Collect(b, draws, offset + |a|, f)
    decreases |b|
  {
    if |b| == 0 {
      assert a + b == a;
    } else {
      var b', x := b[..|b| - 1], b[|b| - 1];
      assert b == b' + [x];
      assert a + b == (a + b') + [x];
      CollectAppend(a, b', draws, offset, f);
      CollectSnoc(a + b', x, draws, offset, f);
      CollectSnoc(b', x, draws, offset + |a|, f);
    }
  }

  /**
   * The lights generation appends for the points `ps` when the k-th of them
   * draws its initial phase `draws[offset + k]` (used only if it is an intersection).
   */
  function LightsFor(ps: seq<Point>, draws: seq<Lights.Draw>, offset: nat): seq<Lights.TrafficLight>
    requires offset + |ps| <= |draws|
  {
    Collect(ps, draws, offset, LightOf)
  }

  /**
   * Exactly one light per intersection point, in the same order, at that point's
   * coordinates, fresh and with the standard durations.
   */
  lemma {:induction false} LightsMatchIntersections(ps: seq<Point>, draws: seq<Lights.Draw>, offset: nat)
    requires offset + |ps| <= |draws|
    ensures |LightsFor(ps, draws, offset)| == |Intersections(ps)|
    ensures forall k :: 0 <= k < |LightsFor(ps, draws, offset)| ==>
      var light := LightsFor(ps, draws, offset)[k];
      && light.position == (Intersections(ps)[k].x, Intersections(ps)[k].y)
      && light.timeInState == 0.0 && Lights.StandardDurations(light) && Lights.Valid(light)
  {
    if |ps| > 0 {
      LightsMatchIntersections(ps[..|ps| - 1], draws, offset);
    }
  }

  // ---------------------------------------------------------------------------
  // The vehicle pass

  /**
   * The corrected pass before pruning: the index-tagged merge with the clamped
   * step, so slot i is vehicle i, stepped unless its task failed.
   */
  function MergedByIndex(vs: seq<Vehicle>, failed: set<nat>): (r: seq<Vehicle>)
    ensures |r| == |vs|
    ensures forall i :: 0 <= i < |vs| ==> r[i].id == vs[i].id && r[i].destination == vs[i].destination
  {
    seq(|vs|, i requires 0 <= i < |vs| => if i in failed then vs[i] else UpdateClamped(vs[i]))
  }

  /** No two vehicles of `vs` share an id. */
  predicate DistinctIds(vs: seq<Vehicle>) {
    forall i, j :: 0 <= i < j < |vs| ==> vs[i].id != vs[j].id
  }

  /**
   * The corrected pass loses no vehicle and duplicates none: every vehicle that
   * has not arrived after its step survives pruning, and distinct ids stay distinct.
   */
  lemma CorrectedPassKeepsEveryVehicle(vs: seq<Vehicle>, failed: set<nat>)
    ensures forall i :: 0 <= i < |vs| && !Arrived(MergedByIndex(vs, failed)[i]) ==>
      MergedByIndex(vs, failed)[i] in Retain(MergedByIndex(vs, failed))
    ensures DistinctIds(vs) ==> DistinctIds(Retain(MergedByIndex(vs, failed)))
  {
    var merged := MergedByIndex(vs, failed);
    forall i | 0 <= i < |vs| && !Arrived(merged[i])
      ensures merged[i] in Retain(merged)
    {
      RetainKeepsEnRoute(merged, merged[i]);
    }
    if DistinctIds(vs) {
      assert DistinctIds(merged);
      RetainKeepsDistinctIds(merged);
    }
  }

  /** Two vehicles for the merge examples: a car going north from (0, 0) and a bus going north from (10, 0). */
  const ExampleCar := Vehicle(0, Car, (0, 0), 2, 2, (0, 20), 1)
  const ExampleBus := Vehicle(1, Bus, (10, 0), 1, 1, (10, 20), 2)

  /** One tick moves the car to (0, 2) and the bus to (10, 1), with either step. */
  lemma ExampleTick()
    ensures Update(ExampleCar) == ExampleCar.(currentPosition := (0, 2))
    ensures Update(ExampleBus) == ExampleBus.(currentPosition := (10, 1))
    ensures UpdateClamped(ExampleCar) == Update(ExampleCar) && UpdateClamped(ExampleBus) == Update(ExampleBus)
    ensures Scheduler.IsCompletionOrder([1, 0], 2) && Scheduler.IsCompletionOrder([0, 1], 2)
  {
    assert Scheduler.Indices(2) == [0, 1];
    assert multiset([1, 0]) == multiset([0, 1]);
  }

  /**
   * As written, the counter merge stores the vehicles in completion order: when
   * the bus finishes first it lands in slot 0; the index merge keeps each in its slot.
   */
  lemma CounterMergeReorders()
    ensures Scheduler.CounterMerge([ExampleCar, ExampleBus], Update, [1, 0], {})
         == [ExampleBus.(currentPosition := (10, 1)), ExampleCar.(currentPosition := (0, 2))]
    ensures MergedByIndex([ExampleCar, ExampleBus], {})
         == [ExampleCar.(currentPosition := (0, 2)), ExampleBus.(currentPosition := (10, 1))]
  {
    ExampleTick();
    var vs := [ExampleCar, ExampleBus];
    assert Scheduler.Completed(vs, Update, [1, 0], 1, {}) == [Update(ExampleBus)];
    assert Scheduler.Completed(vs, Update, [1, 0], 2, {}) == [Update(ExampleBus), Update(ExampleCar)];
  }

  /**
   * As written, a failed task loses a vehicle: when the car's task fails, the
   * bus's result fills slot 0 and slot 1 keeps the stale bus, so after pruning
   * only the bus is left, twice; the index merge keeps the car unchanged.
   */
  lemma CounterMergeLosesVehicle()
    ensures Scheduler.CounterMerge([ExampleCar, ExampleBus], Update, [0, 1], {0})
         == [ExampleBus.(currentPosition := (10, 1)), ExampleBus]
    ensures forall v :: v in Retain(Scheduler.CounterMerge([ExampleCar, ExampleBus], Update, [0, 1], {0})) ==> v.id == 1
    ensures Retain(MergedByIndex([ExampleCar, ExampleBus], {0}))
         == [ExampleCar, ExampleBus.(currentPosition := (10, 1))]
  {
    ExampleTick();
    var b1 := ExampleBus.(currentPosition := (10, 1));
    var vs := [ExampleCar, ExampleBus];
    assert Scheduler.Completed(vs, Update, [0, 1], 1, {0}) == [];
    assert Scheduler.Completed(vs, Update, [0, 1], 2, {0}) == [b1];
    assert Scheduler.CounterMerge([ExampleCar, ExampleBus], Update, [0, 1], {0}) == [b1, ExampleBus];
    assert Retain([ExampleBus]) == [ExampleBus];
    assert Retain([b1, ExampleBus]) == [b1, ExampleBus];
    assert Retain([b1]) == [b1];
    assert Retain([ExampleCar, b1]) == [ExampleCar, b1];
  }

  // ---------------------------------------------------------------------------
  // Pruning

  /** `retain` keeping the vehicles that have not arrived, in their order. */
  function Retain(vs: seq<Vehicle>): (r: seq<Vehicle>)
    ensures |r| <= |vs|
    ensures forall k :: 0 <= k < |r| ==> !Arrived(r[k])
  {
    if |vs| == 0 then []
    else (if Arrived(vs[0]) then [] else [vs[0]]) + Retain(vs[1..])
  }

  /** Pruning works piece by piece: it keeps the relative order of what it keeps. */
  lemma {:induction false} RetainAppend(a: seq<Vehicle>, b: seq<Vehicle>)
    ensures Retain(a + b) == Retain(a) + Retain(b)
  {
    if |a| == 0 {
      assert a + b == b;
    } else {
      var head := if Arrived(a[0]) then [] else [a[0]];
      assert (a + b)[0] == a[0];
      assert (a + b)[1..] == a[1..] + b;
      RetainAppend(a[1..], b);
      assert Retain(a + b) == head + (Retain(a[1..]) + Retain(b));
      assert Retain(a) == head + Retain(a[1..]);
    }
  }

  /** A vector with no arrived vehicle is left as it is. */
  lemma {:induction false} RetainEnRoute(a: seq<Vehicle>)
    requires forall k :: 0 <= k < |a| ==> !Arrived(a[k])
    ensures Retain(a) == a
  {
    if |a| > 0 {
      RetainEnRoute(a[1..]);
    }
  }

  /** Pruning removes exactly the arrived vehicle and keeps the others in their relative order. */
  lemma PruneExactlyArrived(a: seq<Vehicle>, x: Vehicle, b: seq<Vehicle>)
    requires forall k :: 0 <= k < |a| ==> !Arrived(a[k])
    requires forall k :: 0 <= k < |b| ==> !Arrived(b[k])
    requires Arrived(x)
    ensures Retain(a + [x] + b) == a + b
  {
    var ax := a + [x];
    RetainAppend(ax, b);
    RetainAppend(a, [x]);
    RetainEnRoute(a);
    RetainEnRoute(b);
    assert Retain([x]) == [] by {
      assert [x][1..] == [];
    }
    assert Retain(ax) == a;
  }

  /** Pruning only keeps vehicles it was given. */
  lemma {:induction false} RetainFrom(vs: seq<Vehicle>)
    ensures forall k :: 0 <= k < |Retain(vs)| ==> Retain(vs)[k] in vs
  {
    if |vs| > 0 {
      RetainFrom(vs[1..]);
      var head := if Arrived(vs[0]) then [] else [vs[0]];
      assert Retain(vs) == head + Retain(vs[1..]);
      forall k | 0 <= k < |Retain(vs)|
        ensures Retain(vs)[k] in vs
      {
        if k >= |head| {
          assert Retain(vs)[k] == Retain(vs[1..])[k - |head|];
          assert Retain(vs)[k] in vs[1..];
        }
      }
    }
  }

  /** Pruning never makes two vehicles share an id. */
  lemma {:induction false} RetainKeepsDistinctIds(vs: seq<Vehicle>)
    requires DistinctIds(vs)
    ensures DistinctIds(Retain(vs))
  {
    if |vs| > 0 {
      var rest := Retain(vs[1..]);
      RetainKeepsDistinctIds(vs[1..]);
      RetainFrom(vs[1..]);
      if !Arrived(vs[0]) {
        assert Retain(vs) == [vs[0]] + rest;
        forall k | 0 <= k < |rest|
          ensures rest[k].id != vs[0].id
        {
          var m :| 0 <= m < |vs[1..]| && vs[1..][m] == rest[k];
          assert vs[m + 1] == rest[k];
        }
      }
    }
  }

  /** Every vehicle that has not arrived survives pruning. */
  lemma {:induction false} RetainKeepsEnRoute(vs: seq<Vehicle>, v: Vehicle)
    requires v in vs && !Arrived(v)
    ensures v in Retain(vs)
  {
    if vs[0] != v {
      RetainKeepsEnRoute(vs[1..], v);
    }
  }

  // ---------------------------------------------------------------------------
  // The world

  class Grid {
    var points: seq<Point>
    var vehicles: seq<Vehicle>
    var trafficLights: seq<Lights.TrafficLight>

    /** `Grid::new`: an empty world. */
    constructor ()
      ensures points == [] && vehicles == [] && trafficLights == []
    {
      points := [];
      vehicles := [];
      trafficLights := [];
    }

    /**
     * `generate_grid(height, width)`: appends the points row by row and, for each
     * intersection point, a light whose initial phase is the draw `draws[k]` for
     * the k-th point.
     */
    method GenerateGrid(height: int, width: int, draws: seq<Lights.Draw>)
      requires |draws| >= Rows(height) * Cols(width)
      modifies this`points, this`trafficLights
      ensures points == old(points) + GridPoints(height, width)
      ensures trafficLights == old(trafficLights) + LightsFor(GridPoints(height, width), draws, 0)
      ensures vehicles == old(vehicles)
    {
      var i := 0;
      var k := 0;
      while i <= height - 1
        invariant 0 <= i <= Rows(height)
        invariant k == |RowsUpTo(i, height, width)| <= |draws|
        invariant points == old(points) + RowsUpTo(i, height, width)
        invariant trafficLights == old(trafficLights) + LightsFor(RowsUpTo(i, height, width), draws, 0)
      {
        GridStep(i, height, width, draws);
        ghost var pointsBefore := RowsUpTo(i, height, width);
        ghost var lightsBefore := LightsFor(pointsBefore, draws, 0);
        GenerateRow(i, height, width, draws, k);
        AppendAssoc(points, old(points), pointsBefore, Row(i, height, width));
        AppendAssoc(trafficLights, old(trafficLights), lightsBefore,
                    LightsFor(Row(i, height, width), draws, k));
        i := i + 1;
        k := k + Cols(width);
      }
    }

    /**
     * The inner loop of `generate_grid`: the points of row i, column by column,
     * each intersection taking the phase `draws[k + j]` for its column j.
     */
    method GenerateRow(i: int, height: int, width: int, draws: seq<Lights.Draw>, k: nat)
      requires k + Cols(width) <= |draws|
      modifies this`points, this`trafficLights
      ensures points == old(points) + Row(i, height, width)
      ensures trafficLights == old(trafficLights) + LightsFor(Row(i, height, width), draws, k)
    {
      var j := 0;
      while j <= width - 1
        invariant 0 <= j <= Cols(width)
        invariant points == old(points) + RowPrefix(i, j, height, width)
        invariant trafficLights == old(trafficLights) + LightsFor(RowPrefix(i, j, height, width), draws, k)
      {
        var point := Point(j * 10, i * 10, (j > 0 && j < width - 1) || (i > 0 && i < height - 1));
        ghost var pointsBefore := RowPrefix(i, j, height, width);
        ghost var lightsBefore := LightsFor(pointsBefore, draws, k);
        RowStep(i, j, height, width, draws, k);
        AddPoint(point, draws[k + j]);
        AppendAssoc(points, old(points), pointsBefore, [point]);
        AppendAssoc(trafficLights, old(trafficLights), lightsBefore, LightOf(point, draws[k + j]));
        j := j + 1;
      }
    }

    /** The body of the generation loops: a light if the point is an intersection, then the point. */
    method AddPoint(point: Point, draw: Lights.Draw)
      modifies this`points, this`trafficLights
      ensures trafficLights == old(trafficLights) + LightOf(point, draw)
      ensures points == old(points) + [point]
    {
      match Lights.GenerateTrafficLight(point, draw) {
        case Ok(light) =>
          trafficLights := trafficLights + [light];
        case Err(_) =>
      }
      points := points + [point];
    }

    /**
     * `update_vehicles` as written: each task updates its own copy; the results
     * are written to slots 0, 1, ... by a running counter in completion order
     * `order` (tasks in `failed` produce nothing); then arrived vehicles are pruned.
     */
    method UpdateVehicles(order: seq<nat>, failed: set<nat>)
      requires Scheduler.IsCompletionOrder(order, |vehicles|)
      modifies this
      ensures Scheduler.AllBelow(order, |old(vehicles)|) && |order| == |old(vehicles)|
      ensures vehicles == Retain(Scheduler.CounterMerge(old(vehicles), Update, order, failed))
      ensures |vehicles| <= |old(vehicles)|
      ensures forall k :: 0 <= k < |vehicles| ==> !Arrived(vehicles[k])
      ensures points == old(points) && trafficLights == old(trafficLights)
    {
      Scheduler.CompletionOrderCovers(order, |vehicles|);
      vehicles := Scheduler.GatherByCounter(vehicles, Update, order, failed);
      vehicles := Retain(vehicles);
    }

    /**
     * The corrected vehicle pass: the index-tagged merge the light pass uses, so
     * slot i receives the step of vehicle i whatever the completion order, with
     * backward moves clamped to the speed; then arrived vehicles are pruned.
     */
    method UpdateVehiclesByIndex(order: seq<nat>, failed: set<nat>)
      requires Scheduler.IsCompletionOrder(order, |vehicles|)
      modifies this`vehicles
      ensures vehicles == Retain(MergedByIndex(old(vehicles), failed))
    {
      var merged := Scheduler.GatherByIndex(vehicles, UpdateClamped, order, failed);
      assert merged == MergedByIndex(vehicles, failed);
      vehicles := Retain(merged);
    }

    /** `update_traffic_lights`: every light gets the same elapsed time; nothing else changes. */
    method UpdateTrafficLights(timePassed: real, order: seq<nat>, failed: set<nat>)
      requires Scheduler.IsCompletionOrder(order, |trafficLights|)
      modifies this`trafficLights
      ensures |trafficLights| == |old(trafficLights)|
      ensures forall i :: 0 <= i < |trafficLights| ==>
        trafficLights[i] == if i in failed then old(trafficLights[i])
                            else Lights.Update(old(trafficLights[i]), timePassed)
    {
      trafficLights := Lights.UpdateTrafficLightsMerged(trafficLights, timePassed, order, failed);
    }
  }
}

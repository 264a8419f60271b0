/**
 * MapBorder.FindBorderPositions: a wall-following walk around a set of
 * inside positions that collects (tile, vertex index) pairs on its border.
 */
module MapBorder {
  import opened Optional
  import opened Vectors
  import opened MapNode

  /** MapBorder.BorderPoint */
  datatype BorderPoint = BorderPoint(TilePos: Vec, VerticeIndex: int)

  /** MapBorder.Step: a direction taken and the cell it was taken from. */
  datatype Step = Step(Direction: Vec, Position: Vec)

  /** Every direction of the table has its negation in the table, as TurnRight needs. */
  predicate NegClosed(dirs: seq<Vec>) {
    forall i :: 0 <= i < |dirs| ==> HasNeg(dirs, i)
  }

  /** The negation of entry i is in the table. */
  predicate HasNeg(dirs: seq<Vec>, i: int)
    requires 0 <= i < |dirs|
  {
    dirs[i].Neg() in dirs
  }

  lemma {:induction false} NegIn(dirs: seq<Vec>, d: Vec)
    requires NegClosed(dirs) && d in dirs
    ensures d.Neg() in dirs
  {
    var i :| 0 <= i < |dirs| && dirs[i] == d;
    assert HasNeg(dirs, i);
  }

  /** leftVerticeCalc: the vertex before the side of direction v. */
  function LeftVertex(dirs: seq<Vec>, v: Vec): (k: int)
    requires |dirs| > 0
    ensures v in dirs ==> 0 <= k < |dirs| && k == Prev(|dirs|, IndexOf(dirs, v))
  {
    var i := IndexOf(dirs, v);
    PrevByRem(i, |dirs|);
    CsRem(i + |dirs| - 1, |dirs|)
  }

  lemma {:induction false} PrevByRem(i: int, n: int)
    requires -1 <= i < n && n > 0
    ensures i >= 0 ==> (i + n - 1) % n == Prev(n, i)
  {
    if i == 0 {
      assert (n - 1) % n == n - 1;
    } else if i > 0 {
      assert i + n - 1 == (i - 1) + n;
    }
  }

  /** rightVerticeCalc: the index of direction v, or -1 when it is not in the table. */
  function RightVertex(dirs: seq<Vec>, v: Vec): (k: int)
    ensures v in dirs ==> 0 <= k < |dirs| && dirs[k] == v
    ensures v !in dirs ==> k == -1
  {
    IndexOf(dirs, v)
  }

  /**
   * inside.Aggregate((v1, v2) => v1.z > v2.z ? v1 : v2) over the set's
   * enumeration order: a position of maximal z, the last such in that order.
   */
  function Highest(order: seq<Vec>): (r: Vec)
    requires |order| > 0
    ensures forall j :: 0 <= j < |order| ==> order[j].z <= r.z
    ensures exists i :: 0 <= i < |order| && order[i] == r && forall j :: i < j < |order| ==> order[j].z < r.z
  {
    order[HighestAt(order)]
  }

  /** Where Highest's fold ends up: the last position of maximal z. */
  function HighestAt(order: seq<Vec>): (i: int)
    requires |order| > 0
    ensures 0 <= i < |order|
    ensures forall j :: 0 <= j < |order| ==> order[j].z <= order[i].z
    ensures forall j :: i < j < |order| ==> order[j].z < order[i].z
  {
    if |order| == 1 then 0
    else
      var last := |order| - 1;
      var front := order[..last];
      var acc := HighestAt(front);
      assert forall j :: 0 <= j < last ==> front[j] == order[j];
      if order[acc].z > order[last].z then acc else last
  }

  /** The walker of the do-while loop: positionPrevious, positionCurrent and directionCurrent. */
  datatype Walker = Walker(Previous: Vec, Current: Vec, Direction: Vec)

  /** One pass of the loop's position update: turn left on an inside cell, right otherwise, then move on. */
  function Advance(m: TileMap, inside: set<Vec>, w: Walker): (r: Walker)
    requires NegClosed(m.NeighboursDirection) && w.Direction in m.NeighboursDirection
    ensures r.Direction in m.NeighboursDirection
  {
    NegIn(m.NeighboursDirection, w.Direction);
    var direction := if w.Current in inside then m.TurnLeft(w.Direction) else m.TurnRight(w.Direction);
    Walker(w.Current, w.Current.Plus(direction), direction)
  }

  /**
   * The points one pass adds for the cell it leaves: the left vertex of the
   * old direction on an outside-to-inside move, the right vertex on an
   * inside-to-outside move.
   */
  function Emitted(dirs: seq<Vec>, inside: set<Vec>, w: Walker): set<BorderPoint>
    requires |dirs| > 0
  {
    var goInside := w.Previous in inside && w.Current !in inside;
    var goOutside := w.Previous !in inside && w.Current in inside;
    (if goOutside then {BorderPoint(w.Previous, LeftVertex(dirs, w.Direction))} else {})
      + (if goInside then {BorderPoint(w.Previous, RightVertex(dirs, w.Direction))} else {})
  }

  /** The walker after k passes. */
  function Run(m: TileMap, inside: set<Vec>, w: Walker, k: nat): (r: Walker)
    requires NegClosed(m.NeighboursDirection) && w.Direction in m.NeighboursDirection
    ensures r.Direction in m.NeighboursDirection
  {
    if k == 0 then w else Advance(m, inside, Run(m, inside, w, k - 1))
  }

  /** The points added by the first k passes. */
  function Points(m: TileMap, inside: set<Vec>, w: Walker, k: nat): (r: set<BorderPoint>)
    requires NegClosed(m.NeighboursDirection) && w.Direction in m.NeighboursDirection
    ensures forall p :: p in r ==> 0 <= p.VerticeIndex < |m.NeighboursDirection|
  {
    if k == 0 then {}
    else
      var last := Run(m, inside, w, k - 1);
      EmittedShape(m.NeighboursDirection, inside, last);
      Points(m, inside, w, k - 1) + Emitted(m.NeighboursDirection, inside, last)
  }

  /** The steps list after k passes: the initial entry, then the new direction and the cell stepped from, per pass. */
  function Trace(m: TileMap, inside: set<Vec>, w: Walker, k: nat): seq<Step>
    requires NegClosed(m.NeighboursDirection) && w.Direction in m.NeighboursDirection
  {
    if k == 0 then [Step(w.Direction, w.Previous)]
    else
      var r := Run(m, inside, w, k);
      Trace(m, inside, w, k - 1) + [Step(r.Direction, r.Previous)]
  }

  /** The loop condition fails: the walker is back at the start cell facing the first direction. */
  predicate Stopped(start: Vec, finish: Vec, w: Walker) {
    w.Previous == start && w.Direction == finish
  }

  /** The cap on passes: the loop gives up once its counter exceeds 10000. */
  const MaxPasses: nat := 10001

  /**
   * What the tracing loop leaves, starting at `start` facing the outside
   * direction `d`, after `passes` passes: the two start vertices plus every
   * point emitted, the stop condition met at the last pass (or the cap
   * reached) and at no earlier one, and the steps list extended by the trace.
   */
  ghost predicate Traced(m: TileMap, inside: set<Vec>, start: Vec, d: Vec, steps: Option<seq<Step>>,
                         border: set<BorderPoint>, steps': Option<seq<Step>>, passes: nat)
    requires NegClosed(m.NeighboursDirection) && d in m.NeighboursDirection
  {
    var dirs := m.NeighboursDirection;
    var w0 := Walker(start, start.Plus(d), d);
    && 1 <= passes <= MaxPasses
    && border == {BorderPoint(start, LeftVertex(dirs, d)), BorderPoint(start, RightVertex(dirs, d))} + Points(m, inside, w0, passes)
    && (Stopped(start, d, Run(m, inside, w0, passes)) || passes == MaxPasses)
    && (forall j :: 1 <= j < passes ==> !Stopped(start, d, Run(m, inside, w0, j)))
    && (steps.None? ==> steps' == None)
    && (steps.Some? ==> steps' == Some(steps.value + Trace(m, inside, w0, passes)))
  }

  /**
   * FindBorderPositions. `order` is the enumeration order of the `inside`
   * set, which decides the start cell among those of maximal z.
   */
  method FindBorderPositions(m: TileMap, inside: set<Vec>, order: seq<Vec>, steps: Option<seq<Step>>)
    returns (border: set<BorderPoint>, steps': Option<seq<Step>>)
    requires NegClosed(m.NeighboursDirection)
    requires |order| > 0 && Elems(order) == inside
    ensures var start := Highest(order);
      (forall i :: 0 <= i < |m.NeighboursDirection| ==> start.Plus(m.NeighboursDirection[i]) in inside) ==>
        border == {} && steps' == steps
    ensures var start := Highest(order);
      forall k :: FirstOutside(m.NeighboursDirection, inside, start, k) ==>
        exists passes :: Traced(m, inside, start, m.NeighboursDirection[k], steps, border, steps', passes)
    ensures forall p :: p in border ==> 0 <= p.VerticeIndex < |m.NeighboursDirection|
  {
    var dirs := m.NeighboursDirection;
    var positionStart := Highest(order);
    var outsideNeighbour := false;
    var k := 0;
    var i := 0;
    while i < |dirs|
      invariant 0 <= i <= |dirs|
      invariant forall j :: 0 <= j < i ==> positionStart.Plus(dirs[j]) in inside
    {
      if positionStart.Plus(dirs[i]) !in inside {
        outsideNeighbour := true;
        k := i;
        break;
      }
      i := i + 1;
    }
    border := {};
    steps' := steps;
    if outsideNeighbour {
      assert FirstOutside(dirs, inside, positionStart, k);
      ghost var passes;
      border, steps', passes := TraceBorder(m, inside, positionStart, dirs[k], steps);
      FirstOutsideUnique(dirs, inside, positionStart, k);
      VerticesInRange(m, inside, positionStart, dirs[k], passes);
    }
  }

  /** k is the first direction whose neighbour of `start` is outside. */
  ghost predicate FirstOutside(dirs: seq<Vec>, inside: set<Vec>, start: Vec, k: int) {
    0 <= k < |dirs| && start.Plus(dirs[k]) !in inside && forall j :: 0 <= j < k ==> start.Plus(dirs[j]) in inside
  }

  lemma {:induction false} FirstOutsideUnique(dirs: seq<Vec>, inside: set<Vec>, start: Vec, k: int)
    requires FirstOutside(dirs, inside, start, k)
    ensures forall k' :: FirstOutside(dirs, inside, start, k') ==> k' == k
  {
  }

  /** The do-while loop of FindBorderPositions, from `start` facing the outside direction `d`. */
  method TraceBorder(m: TileMap, inside: set<Vec>, start: Vec, d: Vec, steps: Option<seq<Step>>)
    returns (border: set<BorderPoint>, steps': Option<seq<Step>>, ghost passes: nat)
    requires NegClosed(m.NeighboursDirection) && d in m.NeighboursDirection
    ensures Traced(m, inside, start, d, steps, border, steps', passes)
  {
    var dirs := m.NeighboursDirection;
    border := {BorderPoint(start, LeftVertex(dirs, d)), BorderPoint(start, RightVertex(dirs, d))};
    var positionPrevious := start;
    var positionCurrent := start.Plus(d);
    var directionCurrent := d;
    steps' := if steps.Some? then Some(steps.value + [Step(directionCurrent, positionPrevious)]) else None;
    var i := 0;
    TracingStart(m, inside, start, d, steps, border, steps');
    // the loop gives up at the top of the pass after its counter passes 10000
    while i <= 10000
      invariant Tracing(m, inside, start, d, steps, Walker(positionPrevious, positionCurrent, directionCurrent), border, steps', i)
      decreases MaxPasses - i
    {
      ghost var before := Walker(positionPrevious, positionCurrent, directionCurrent);
      ghost var border0, steps0 := border, steps';
      positionPrevious, positionCurrent, directionCurrent, border, steps' :=
        Pass(m, inside, positionPrevious, positionCurrent, directionCurrent, border, steps');
      if positionPrevious == start && directionCurrent == d {
        TracingStop(m, inside, start, d, steps, before, border0, steps0, i, border, steps');
        passes := i + 1;
        return;
      }
      TracingStep(m, inside, start, d, steps, before, border0, steps0, i, border, steps');
      i := i + 1;
    }
    passes := i;
    TracingCap(m, inside, start, d, steps, Walker(positionPrevious, positionCurrent, directionCurrent), border, steps', i);
  }

  /** The loop invariant of TraceBorder after i passes, none of which met the stop condition. */
  ghost predicate Tracing(m: TileMap, inside: set<Vec>, start: Vec, d: Vec, steps: Option<seq<Step>>,
                          w: Walker, border: set<BorderPoint>, steps': Option<seq<Step>>, i: nat)
    requires NegClosed(m.NeighboursDirection) && d in m.NeighboursDirection
  {
    var dirs := m.NeighboursDirection;
    var w0 := Walker(start, start.Plus(d), d);
    && i <= MaxPasses
    && w == Run(m, inside, w0, i)
    && border == {BorderPoint(start, LeftVertex(dirs, d)), BorderPoint(start, RightVertex(dirs, d))} + Points(m, inside, w0, i)
    && (steps.None? ==> steps' == None)
    && (steps.Some? ==> steps' == Some(steps.value + Trace(m, inside, w0, i)))
    && Running(m, inside, w0, start, d, i)
  }

  /** Before the first pass: the two start vertices and the first step. */
  lemma {:induction false} TracingStart(m: TileMap, inside: set<Vec>, start: Vec, d: Vec, steps: Option<seq<Step>>,
                     border: set<BorderPoint>, steps': Option<seq<Step>>)
    requires NegClosed(m.NeighboursDirection) && d in m.NeighboursDirection
    requires border == {BorderPoint(start, LeftVertex(m.NeighboursDirection, d)), BorderPoint(start, RightVertex(m.NeighboursDirection, d))}
    requires steps' == if steps.Some? then Some(steps.value + [Step(d, start)]) else None
    ensures Tracing(m, inside, start, d, steps, Walker(start, start.Plus(d), d), border, steps', 0)
  {
  }

  /** The walk, the points and the steps list after one more pass. */
  lemma {:induction false} WalkStep(m: TileMap, inside: set<Vec>, start: Vec, d: Vec, steps: Option<seq<Step>>,
                 w: Walker, border: set<BorderPoint>, steps': Option<seq<Step>>, i: nat,
                 border'': set<BorderPoint>, steps'': Option<seq<Step>>)
    requires NegClosed(m.NeighboursDirection) && d in m.NeighboursDirection
    requires Tracing(m, inside, start, d, steps, w, border, steps', i) && i < MaxPasses
    requires border'' == border + Emitted(m.NeighboursDirection, inside, w)
    requires steps'.None? ==> steps'' == None
    requires steps'.Some? ==>
      steps'' == Some(steps'.value + [Step(Advance(m, inside, w).Direction, Advance(m, inside, w).Previous)])
    ensures var w0 := Walker(start, start.Plus(d), d);
      && Run(m, inside, w0, i + 1) == Advance(m, inside, w)
      && border'' == {BorderPoint(start, LeftVertex(m.NeighboursDirection, d)), BorderPoint(start, RightVertex(m.NeighboursDirection, d))}
                     + Points(m, inside, w0, i + 1)
      && (steps.None? ==> steps'' == None)
      && (steps.Some? ==> steps'' == Some(steps.value + Trace(m, inside, w0, i + 1)))
  {
    var w0 := Walker(start, start.Plus(d), d);
    assert Run(m, inside, w0, i + 1) == Advance(m, inside, w);
    if steps.Some? {
      assert steps.value + Trace(m, inside, w0, i) + [Step(Advance(m, inside, w).Direction, Advance(m, inside, w).Previous)]
        == steps.value + Trace(m, inside, w0, i + 1);
    }
  }

  /** A pass that does not meet the stop condition keeps the invariant... */
  lemma {:induction false} TracingStep(m: TileMap, inside: set<Vec>, start: Vec, d: Vec, steps: Option<seq<Step>>,
                    w: Walker, border: set<BorderPoint>, steps': Option<seq<Step>>, i: nat,
                    border'': set<BorderPoint>, steps'': Option<seq<Step>>)
    requires NegClosed(m.NeighboursDirection) && d in m.NeighboursDirection
    requires Tracing(m, inside, start, d, steps, w, border, steps', i) && i < MaxPasses
    requires border'' == border + Emitted(m.NeighboursDirection, inside, w)
    requires steps'.None? ==> steps'' == None
    requires steps'.Some? ==>
      steps'' == Some(steps'.value + [Step(Advance(m, inside, w).Direction, Advance(m, inside, w).Previous)])
    requires !Stopped(start, d, Advance(m, inside, w))
    ensures Tracing(m, inside, start, d, steps, Advance(m, inside, w), border'', steps'', i + 1)
  {
    WalkStep(m, inside, start, d, steps, w, border, steps', i, border'', steps'');
    RunningStep(m, inside, Walker(start, start.Plus(d), d), start, d, i);
  }

  /** ... and one that meets it leaves what Traced describes. */
  lemma {:induction false} TracingStop(m: TileMap, inside: set<Vec>, start: Vec, d: Vec, steps: Option<seq<Step>>,
                    w: Walker, border: set<BorderPoint>, steps': Option<seq<Step>>, i: nat,
                    border'': set<BorderPoint>, steps'': Option<seq<Step>>)
    requires NegClosed(m.NeighboursDirection) && d in m.NeighboursDirection
    requires Tracing(m, inside, start, d, steps, w, border, steps', i) && i < MaxPasses
    requires border'' == border + Emitted(m.NeighboursDirection, inside, w)
    requires steps'.None? ==> steps'' == None
    requires steps'.Some? ==>
      steps'' == Some(steps'.value + [Step(Advance(m, inside, w).Direction, Advance(m, inside, w).Previous)])
    requires Stopped(start, d, Advance(m, inside, w))
    ensures Traced(m, inside, start, d, steps, border'', steps'', i + 1)
  {
    WalkStep(m, inside, start, d, steps, w, border, steps', i, border'', steps'');
    RunningMeans(m, inside, Walker(start, start.Plus(d), d), start, d, i);
  }

  /** At the cap the invariant gives what Traced describes. */
  lemma {:induction false} TracingCap(m: TileMap, inside: set<Vec>, start: Vec, d: Vec, steps: Option<seq<Step>>,
                   w: Walker, border: set<BorderPoint>, steps': Option<seq<Step>>, i: nat)
    requires NegClosed(m.NeighboursDirection) && d in m.NeighboursDirection
    requires Tracing(m, inside, start, d, steps, w, border, steps', i) && i > 10000
    ensures Traced(m, inside, start, d, steps, border, steps', i)
  {
    RunningMeans(m, inside, Walker(start, start.Plus(d), d), start, d, i);
  }

  /** No pass from the first to the i-th has met the stop condition. */
  ghost predicate Running(m: TileMap, inside: set<Vec>, w: Walker, start: Vec, d: Vec, i: nat)
    requires NegClosed(m.NeighboursDirection) && w.Direction in m.NeighboursDirection
  {
    forall j :: 1 <= j <= i ==> !Stopped(start, d, Run(m, inside, w, j))
  }

  lemma {:induction false} RunningStep(m: TileMap, inside: set<Vec>, w: Walker, start: Vec, d: Vec, i: nat)
    requires NegClosed(m.NeighboursDirection) && w.Direction in m.NeighboursDirection
    requires Running(m, inside, w, start, d, i) && !Stopped(start, d, Run(m, inside, w, i + 1))
    ensures Running(m, inside, w, start, d, i + 1)
  {
  }

  lemma {:induction false} RunningMeans(m: TileMap, inside: set<Vec>, w: Walker, start: Vec, d: Vec, i: nat)
    requires NegClosed(m.NeighboursDirection) && w.Direction in m.NeighboursDirection
    requires Running(m, inside, w, start, d, i)
    ensures forall j :: 1 <= j < i + 1 ==> !Stopped(start, d, Run(m, inside, w, j))
  {
  }

  /** One pass of the loop body: the two vertices of the old direction, the turn, at most one point, the move and the step record. */
  method Pass(m: TileMap, inside: set<Vec>, positionPrevious: Vec, positionCurrent: Vec, directionCurrent: Vec,
              border: set<BorderPoint>, steps: Option<seq<Step>>)
    returns (previous': Vec, current': Vec, direction': Vec, border': set<BorderPoint>, steps': Option<seq<Step>>)
    requires NegClosed(m.NeighboursDirection) && directionCurrent in m.NeighboursDirection
    ensures var w := Walker(positionPrevious, positionCurrent, directionCurrent);
      && Walker(previous', current', direction') == Advance(m, inside, w)
      && border' == border + Emitted(m.NeighboursDirection, inside, w)
      && (steps.None? ==> steps' == None)
      && (steps.Some? ==> steps' == Some(steps.value + [Step(direction', previous')]))
  {
    var dirs := m.NeighboursDirection;
    var verticeLeft := LeftVertex(dirs, directionCurrent);
    var verticeRight := RightVertex(dirs, directionCurrent);
    direction' := directionCurrent;
    NegIn(dirs, directionCurrent);
    if positionCurrent in inside {
      direction' := m.TurnLeft(direction');
    } else {
      direction' := m.TurnRight(direction');
    }
    var goInside := positionPrevious in inside && !(positionCurrent in inside);
    var goOutside := !(positionPrevious in inside) && positionCurrent in inside;
    border' := border;
    if goOutside {
      border' := border' + {BorderPoint(positionPrevious, verticeLeft)};
    }
    if goInside {
      border' := border' + {BorderPoint(positionPrevious, verticeRight)};
    }
    previous' := positionCurrent;
    current' := positionCurrent.Plus(direction');
    steps' := steps;
    if steps'.Some? {
      steps' := Some(steps'.value + [Step(direction', previous')]);
    }
  }

  /** Every index the walk emits is a vertex of the table. */
  lemma {:induction false} VerticesInRange(m: TileMap, inside: set<Vec>, start: Vec, d: Vec, passes: nat)
    requires NegClosed(m.NeighboursDirection) && d in m.NeighboursDirection
    ensures forall p :: p in Points(m, inside, Walker(start, start.Plus(d), d), passes) ==>
      0 <= p.VerticeIndex < |m.NeighboursDirection|
    ensures 0 <= LeftVertex(m.NeighboursDirection, d) < |m.NeighboursDirection|
    ensures 0 <= RightVertex(m.NeighboursDirection, d) < |m.NeighboursDirection|
  {
  }

  /**
   * A pass adds at most one point, for the cell it leaves, and adds one
   * exactly when it crosses between inside and outside.
   */
  lemma {:induction false} EmittedShape(dirs: seq<Vec>, inside: set<Vec>, w: Walker)
    requires |dirs| > 0 && w.Direction in dirs
    ensures |Emitted(dirs, inside, w)| <= 1
    ensures forall p :: p in Emitted(dirs, inside, w) ==> p.TilePos == w.Previous && 0 <= p.VerticeIndex < |dirs|
    ensures Emitted(dirs, inside, w) == {} <==> (w.Previous in inside <==> w.Current in inside)
  {
  }

  /** The border only grows: the points of fewer passes are among those of more. */
  lemma {:induction false} PointsGrow(m: TileMap, inside: set<Vec>, w: Walker, j: nat, k: nat)
    requires NegClosed(m.NeighboursDirection) && w.Direction in m.NeighboursDirection && j <= k
    ensures Points(m, inside, w, j) <= Points(m, inside, w, k)
  {
    var i := j;
    while i < k
      invariant j <= i <= k
      invariant Points(m, inside, w, j) <= Points(m, inside, w, i)
    {
      PointsStep(m, inside, w, Points(m, inside, w, j), i);
      i := i + 1;
    }
  }

  /** A pass only adds points. */
  lemma {:induction false} PointsStep(m: TileMap, inside: set<Vec>, w: Walker, a: set<BorderPoint>, k: nat)
    requires NegClosed(m.NeighboursDirection) && w.Direction in m.NeighboursDirection
    requires a <= Points(m, inside, w, k)
    ensures a <= Points(m, inside, w, k + 1)
  {
  }

  /** The steps list records one initial entry and then one entry per pass, each the walker's new direction and the cell it left. */
  lemma {:induction false} TraceEntries(m: TileMap, inside: set<Vec>, w: Walker, k: nat)
    requires NegClosed(m.NeighboursDirection) && w.Direction in m.NeighboursDirection
    ensures |Trace(m, inside, w, k)| == k + 1
    ensures forall j :: 0 <= j <= k ==>
      Trace(m, inside, w, k)[j] == Step(Run(m, inside, w, j).Direction, Run(m, inside, w, j).Previous)
  {
    if k > 0 {
      TraceEntries(m, inside, w, k - 1);
      var r := Run(m, inside, w, k);
      var front := Trace(m, inside, w, k - 1);
      assert Trace(m, inside, w, k) == front + [Step(r.Direction, r.Previous)];
      forall j | 0 <= j < k
        ensures Trace(m, inside, w, k)[j] == front[j]
      {
      }
    }
  }
}

/**
 * Hex grid in cube coordinates: the neighbour table, the cube distance,
 * rounding of fractional cube coordinates and the integer area around a cell.
 */
module Hex {
  import opened Vectors

  /** Neighbour directions, starting at (0,1,-1) and going clockwise. */
  const HexCubeNeighbour: seq<Vec> :=
    [Vec(0, 1, -1), Vec(1, 0, -1), Vec(1, -1, 0), Vec(0, -1, 1), Vec(-1, 0, 1), Vec(-1, 1, 0)]

  /** The cube-coordinate invariant x + y + z = 0. */
  predicate IsCube(v: Vec) { v.x + v.y + v.z == 0 }

  lemma {:induction false} NeighbourTable()
    ensures |HexCubeNeighbour| == 6
    ensures forall i :: 0 <= i < 6 ==> IsCube(HexCubeNeighbour[i])
  {
  }

  /** Directions three apart are opposite. */
  lemma {:induction false} NeighbourOpposite()
    ensures |HexCubeNeighbour| == 6
    ensures forall i :: 0 <= i < 3 ==>
      HexCubeNeighbour[i + 3] == HexCubeNeighbour[i].Neg() && HexCubeNeighbour[i] == HexCubeNeighbour[i + 3].Neg()
  {
    forall i | 0 <= i < 3
      ensures HexCubeNeighbour[i + 3] == HexCubeNeighbour[i].Neg() && HexCubeNeighbour[i] == HexCubeNeighbour[i + 3].Neg()
    {
      var a, b := HexCubeNeighbour[i + 3], HexCubeNeighbour[i];
      assert a.x == -b.x && a.y == -b.y && a.z == -b.z;
      NegByComponents(a, b);
    }
  }

  /** Number of hex steps between two cells: the largest absolute component difference. */
  function HexCubeDistance(a: Vec, b: Vec): (d: int)
    ensures d >= 0
    ensures Abs(a.x - b.x) <= d && Abs(a.y - b.y) <= d && Abs(a.z - b.z) <= d
    ensures d == Abs(a.x - b.x) || d == Abs(a.y - b.y) || d == Abs(a.z - b.z)
  {
    Max(Max(Abs(a.x - b.x), Abs(a.y - b.y)), Abs(a.z - b.z))
  }

  /** The cube distance as the float the hex map installs as its distance delegate. */
  function HexDistance(a: Vec, b: Vec): real
  {
    HexCubeDistance(a, b) as real
  }

  lemma {:induction false} DistanceSymmetric(a: Vec, b: Vec)
    ensures HexCubeDistance(a, b) == HexCubeDistance(b, a)
  {
  }

  lemma {:induction false} DistanceZeroIff(a: Vec, b: Vec)
    ensures HexCubeDistance(a, b) == 0 <==> a == b
  {
  }

  lemma {:induction false} DistanceToNeighbour(c: Vec, i: int)
    requires 0 <= i < |HexCubeNeighbour|
    ensures HexCubeDistance(c, c.Plus(HexCubeNeighbour[i])) == 1
  {
  }

  lemma {:induction false} HexDistanceMetric()
    ensures MetricLaws(HexDistance)
  {
    forall a: Vec, b: Vec
      ensures HexDistance(a, b) >= 0.0 && HexDistance(a, b) == HexDistance(b, a)
      ensures HexDistance(a, b) == 0.0 <==> a == b
    {
      DistanceSymmetric(a, b);
      DistanceZeroIff(a, b);
    }
  }

  /**
   * Nearest cube cell to fractional cube coordinates. `round` stands for
   * Mathf.RoundToInt. The component with the strictly largest rounding error
   * is recomputed from the other two; ties and the case `diffY > diffX` with a
   * larger `diffZ` are decided in the order of the source's branches.
   */
  function HexCubeNearest(round: real -> int, point: RealVec): (r: Vec)
    ensures IsCube(r)
    ensures
      var rx, ry, rz := round(point.x), round(point.y), round(point.z);
      var dx, dy, dz := RealAbs(rx as real - point.x), RealAbs(ry as real - point.y), RealAbs(rz as real - point.z);
      if dx > dy && dx > dz then r.y == ry && r.z == rz
      else if dy > dx then r.x == rx && r.z == rz
      else r.x == rx && r.y == ry
  {
    var roundX, roundY, roundZ := round(point.x), round(point.y), round(point.z);
    var diffX := RealAbs(roundX as real - point.x);
    var diffY := RealAbs(roundY as real - point.y);
    var diffZ := RealAbs(roundZ as real - point.z);
    if diffX > diffY && diffX > diffZ then Vec(-roundZ - roundY, roundY, roundZ)
    else if diffY > diffX then Vec(roundX, -roundX - roundZ, roundZ)
    else Vec(roundX, roundY, -roundX - roundY)
  }

  /** When Y errs more than X, Y is recomputed even if Z has the largest error of all. */
  lemma {:induction false} NearestCorrectsYBeforeZ(round: real -> int, point: RealVec)
    requires
      var dx, dy, dz := RealAbs(round(point.x) as real - point.x), RealAbs(round(point.y) as real - point.y), RealAbs(round(point.z) as real - point.z);
      dx < dy < dz
    ensures HexCubeNearest(round, point).z == round(point.z)
    ensures HexCubeNearest(round, point).x == round(point.x)
  {
  }

  /**
   * World position to cube cell: `fractional` stands for the float matrix
   * conversion HexCubeFractionalToPoint, whose result is then rounded.
   */
  function WorldToHexCube(round: real -> int, fractional: RealVec -> RealVec, point: RealVec): (r: Vec)
    ensures IsCube(r)
    ensures r == HexCubeNearest(round, fractional(point))
  {
    HexCubeNearest(round, fractional(point))
  }

  /** Cells of the hex ball of the given radius around (0,0,0). */
  ghost predicate InHexBall(v: Vec, radius: int)
  {
    IsCube(v) && HexCubeDistance(v, Zero) <= radius
  }

  /** The same ball with the distance spelled out as bounds on each component. */
  ghost predicate InCubeBox(v: Vec, radius: int)
  {
    IsCube(v) && -radius <= v.x <= radius && -radius <= v.y <= radius && -radius <= v.z <= radius
  }

  lemma {:induction false} BallIsBox(radius: int)
    ensures forall v :: InHexBall(v, radius) <==> InCubeBox(v, radius)
  {
  }

  /** Lexicographic order on (x, y), the order in which Area emits cells. */
  predicate XYBefore(a: Vec, b: Vec)
  {
    a.x < b.x || (a.x == b.x && a.y < b.y)
  }

  /** Strictly increasing in XYBefore, hence without duplicates. */
  predicate XYSorted(s: seq<Vec>)
  {
    forall i, j :: 0 <= i < j < |s| ==> XYBefore(s[i], s[j])
  }

  lemma {:induction false} AppendSorted(s: seq<Vec>, w: Vec)
    requires XYSorted(s)
    requires forall i :: 0 <= i < |s| ==> XYBefore(s[i], w)
    ensures XYSorted(s + [w])
    ensures forall v :: v in s + [w] <==> v in s || v == w
  {
  }

  /** Emitting cell (x, y) moves the row cursor from y to y + 1. */
  lemma {:induction false} RowStep(radius: int, x: int, y: int)
    requires -radius <= x <= radius
    requires Max(-radius, -x - radius) <= y <= Min(radius, -x + radius)
    ensures forall v :: InCubeBox(v, radius) && XYBefore(v, Vec(x, y + 1, -x - y - 1)) <==>
      (InCubeBox(v, radius) && XYBefore(v, Vec(x, y, -x - y))) || v == Vec(x, y, -x - y)
  {
  }

  /** Past the last y of row x, the cells emitted are those of all rows up to x. */
  lemma {:induction false} RowDone(radius: int, x: int, y: int)
    requires -radius <= x <= radius
    requires y > Min(radius, -x + radius)
    ensures forall v :: InCubeBox(v, radius) && XYBefore(v, Vec(x, y, -x - y)) <==> InCubeBox(v, radius) && v.x < x + 1
  {
  }

  /** Before the first y of row x, the cells emitted are those of the rows before x. */
  lemma {:induction false} RowStart(radius: int, x: int)
    requires -radius <= x <= radius
    ensures
      var y := Max(-radius, -x - radius);
      forall v :: InCubeBox(v, radius) && XYBefore(v, Vec(x, y, -x - y)) <==> InCubeBox(v, radius) && v.x < x
  {
  }

  /** `x <= range` between an int and a float, as in the loop guard of Area. */
  lemma {:induction false} FloorCompare(x: int, range: real)
    ensures (x as real <= range) <==> x <= FloorToInt(range)
  {
  }

  /**
   * Hex.Area: every cube cell within distance floor(range) of (0,0,0), each
   * once, ordered by x then y. The `origin` argument is not used.
   */
  method Area(origin: Vec, range: real) returns (area: seq<Vec>)
    ensures forall v :: v in area <==> InHexBall(v, FloorToInt(range))
    ensures forall v :: v in area ==> IsCube(v)
    ensures XYSorted(area)
    ensures Distinct(area)
    ensures range < 0.0 ==> area == []
  {
    area := [];
    var rangeBorder := FloorToInt(range);
    var x := -rangeBorder;
    FloorCompare(x, range);
    while x as real <= range
      invariant -rangeBorder <= x
      invariant area != [] ==> rangeBorder >= 0
      invariant forall v :: v in area <==> InCubeBox(v, rangeBorder) && v.x < x
      invariant XYSorted(area)
      decreases rangeBorder - x + 1
    {
      var yMin := Max(-rangeBorder, -x - rangeBorder);
      var yMax := Min(rangeBorder, -x + rangeBorder);
      var y := yMin;
      RowStart(rangeBorder, x);
      while y <= yMax
        invariant yMin <= y
        invariant forall v :: v in area <==> InCubeBox(v, rangeBorder) && XYBefore(v, Vec(x, y, -x - y))
        invariant forall i :: 0 <= i < |area| ==> XYBefore(area[i], Vec(x, y, -x - y))
        invariant XYSorted(area)
        decreases yMax - y + 1
      {
        RowStep(rangeBorder, x, y);
        AppendSorted(area, Vec(x, y, -x - y));
        area := area + [Vec(x, y, -x - y)];
        y := y + 1;
      }
      RowDone(rangeBorder, x, y);
      x := x + 1;
      FloorCompare(x, range);
    }
    BallIsBox(rangeBorder);
  }

  /** Area ignores its origin: at range 0 it lists (0,0,0) and never the origin itself when that is elsewhere. */
  lemma {:induction false} AreaIgnoresOrigin(origin: Vec)
    requires IsCube(origin) && origin != Zero
    ensures InHexBall(Zero, FloorToInt(0.0)) && !InHexBall(origin, FloorToInt(0.0))
  {
    assert HexCubeDistance(origin, Zero) > 0 by {
      DistanceZeroIff(origin, Zero);
    }
  }

  /** Moving both cells by the same offset keeps their distance. */
  lemma {:induction false} DistanceFromOrigin(v: Vec, origin: Vec)
    ensures HexCubeDistance(v.Minus(origin), Zero) == HexCubeDistance(v, origin)
  {
  }

  /** Shifting the ball around (0,0,0) by `origin` gives the ball around `origin`. */
  lemma {:induction false} ShiftBall(origin: Vec, radius: int, cells: seq<Vec>)
    requires forall v :: v in cells <==> InHexBall(v, radius)
    ensures forall v :: v in Shift(origin, cells) <==> IsCube(v.Minus(origin)) && HexCubeDistance(v, origin) <= radius
  {
    ShiftMembers(origin, cells);
    forall v
      ensures v in Shift(origin, cells) <==> IsCube(v.Minus(origin)) && HexCubeDistance(v, origin) <= radius
    {
      DistanceFromOrigin(v, origin);
      assert v in Shift(origin, cells) <==> InHexBall(v.Minus(origin), radius);
    }
  }

  /**
   * Area as its documentation describes it: the cells within floor(range)
   * of `origin`, obtained by shifting the cells around (0,0,0) by `origin`.
   */
  method AreaAround(origin: Vec, range: real) returns (area: seq<Vec>)
    ensures forall v :: v in area <==> IsCube(v.Minus(origin)) && HexCubeDistance(v, origin) <= FloorToInt(range)
    ensures Distinct(area)
    ensures range < 0.0 ==> area == []
  {
    var cells := Area(origin, range);
    area := Shift(origin, cells);
    ShiftMembers(origin, cells);
    ShiftBall(origin, FloorToInt(range), cells);
  }
}

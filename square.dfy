/**
 * Square grid on the x/z plane: the four neighbour directions, the
 * Euclidean distance, world-to-cell rounding and the integer area around a cell.
 */
module Square {
  import opened Vectors

  /** Neighbour directions: +z, +x, -z, -x. */
  const Neighbour: seq<Vec> := [Vec(0, 0, 1), Vec(1, 0, 0), Vec(0, 0, -1), Vec(-1, 0, 0)]

  /** Distance between the centres of two adjacent squares. */
  const DistanceBetweenCenters: real := 1.0

  lemma {:induction false} NeighbourTable()
    ensures |Neighbour| == 4
    ensures forall i :: 0 <= i < 4 ==> Neighbour[i].y == 0
  {
  }

  /** Directions two apart are opposite. */
  lemma {:induction false} NeighbourOpposite()
    ensures |Neighbour| == 4
    ensures forall i :: 0 <= i < 2 ==> Neighbour[i + 2] == Neighbour[i].Neg() && Neighbour[i] == Neighbour[i + 2].Neg()
  {
    forall i | 0 <= i < 2
      ensures Neighbour[i + 2] == Neighbour[i].Neg() && Neighbour[i] == Neighbour[i + 2].Neg()
    {
      var a, b := Neighbour[i + 2], Neighbour[i];
      assert a.x == -b.x && a.y == -b.y && a.z == -b.z;
      NegByComponents(a, b);
    }
  }

  /** What is assumed of the square root used by Vector3Int.Distance. */
  ghost predicate SqrtLaws(sqrt: real -> real)
  {
    && sqrt(0.0) == 0.0
    && sqrt(1.0) == 1.0
    && forall r: real :: r >= 0.0 ==> sqrt(r) >= 0.0 && (sqrt(r) == 0.0 ==> r == 0.0)
  }

  /** Vector3Int.Distance: the Euclidean length of the difference. */
  function Distance(sqrt: real -> real, a: Vec, b: Vec): real
  {
    sqrt(a.Minus(b).SqrMagnitude() as real)
  }

  lemma {:induction false} SqrMagnitudeZero(v: Vec)
    ensures v.SqrMagnitude() >= 0
    ensures v.SqrMagnitude() == 0 <==> v == Zero
  {
    assert v.x * v.x >= 0 && v.y * v.y >= 0 && v.z * v.z >= 0;
    if v.SqrMagnitude() == 0 {
      assert v.x * v.x == 0 && v.y * v.y == 0 && v.z * v.z == 0;
    }
  }

  lemma {:induction false} DistanceSymmetric(sqrt: real -> real, a: Vec, b: Vec)
    ensures Distance(sqrt, a, b) == Distance(sqrt, b, a)
  {
    assert a.Minus(b).SqrMagnitude() == b.Minus(a).SqrMagnitude();
  }

  lemma {:induction false} MinusZero(a: Vec, b: Vec)
    ensures a.Minus(b) == Zero <==> a == b
  {
  }

  lemma {:induction false} DistanceZeroIff(sqrt: real -> real, a: Vec, b: Vec)
    requires SqrtLaws(sqrt)
    ensures Distance(sqrt, a, b) >= 0.0
    ensures Distance(sqrt, a, b) == 0.0 <==> a == b
  {
    SqrMagnitudeZero(a.Minus(b));
    MinusZero(a, b);
  }

  /** Each neighbour is exactly DistanceBetweenCenters away. */
  lemma {:induction false} DistanceToNeighbour(sqrt: real -> real, c: Vec, i: int)
    requires SqrtLaws(sqrt)
    requires 0 <= i < |Neighbour|
    ensures Distance(sqrt, c, c.Plus(Neighbour[i])) == DistanceBetweenCenters
  {
    assert c.Minus(c.Plus(Neighbour[i])).SqrMagnitude() == 1;
  }

  /** Any delegate computing Distance satisfies the laws the pathfinder needs. */
  lemma {:induction false} DistanceMetric(sqrt: real -> real, d: (Vec, Vec) -> real)
    requires SqrtLaws(sqrt)
    requires forall a, b :: d(a, b) == Distance(sqrt, a, b)
    ensures MetricLaws(d)
  {
    forall a: Vec, b: Vec
      ensures d(a, b) >= 0.0 && d(a, b) == d(b, a) && (d(a, b) == 0.0 <==> a == b)
    {
      DistanceSymmetric(sqrt, a, b);
      DistanceZeroIff(sqrt, a, b);
    }
  }

  /** World position to cell; `round` stands for Mathf.RoundToInt. The cell always lies on y = 0. */
  function WorldToSquare(round: real -> int, point: RealVec, size: real): (r: Vec)
    requires size != 0.0
    ensures r.y == 0
    ensures r.x == round(point.x / size) && r.z == round(point.z / size)
  {
    Vec(round(point.x / size), 0, round(point.z / size))
  }

  /**
   * The cells Square.Area keeps for a positive range: origin + (x, 0, z) with
   * x and z within ceil(range) of origin's own x and z, so that origin is
   * added twice, kept when its squared length from world zero is within range².
   */
  ghost predicate InSquareArea(origin: Vec, range: real, v: Vec)
  {
    var b := CeilToInt(range);
    v.y == origin.y
    && 2 * origin.x - b <= v.x <= 2 * origin.x + b
    && 2 * origin.z - b <= v.z <= 2 * origin.z + b
    && v.SqrMagnitude() as real <= range * range
  }

  /** Cell order of Square.Area: by x, then by z. */
  predicate XZBefore(a: Vec, b: Vec)
  {
    a.x < b.x || (a.x == b.x && a.z < b.z)
  }

  predicate XZSorted(s: seq<Vec>)
  {
    forall i, j :: 0 <= i < j < |s| ==> XZBefore(s[i], s[j])
  }

  lemma {:induction false} AppendSorted(s: seq<Vec>, w: Vec)
    requires XZSorted(s)
    requires forall i :: 0 <= i < |s| ==> XZBefore(s[i], w)
    ensures XZSorted(s + [w])
    ensures forall v :: v in s + [w] <==> v in s || v == w
  {
  }

  /** The candidates of Square.Area already visited when the cursor is at (x, z). */
  ghost predicate Scanned(origin: Vec, range: real, v: Vec, x: int, z: int)
  {
    InSquareArea(origin, range, v) && XZBefore(v, Vec(origin.x + x, 0, origin.z + z))
  }

  lemma {:induction false} CellStep(origin: Vec, range: real, x: int, z: int, w: Vec)
    requires origin.x - CeilToInt(range) <= x <= origin.x + CeilToInt(range)
    requires origin.z - CeilToInt(range) <= z <= origin.z + CeilToInt(range)
    requires w == origin.Plus(Vec(x, 0, z))
    ensures forall v :: Scanned(origin, range, v, x, z + 1) <==>
      Scanned(origin, range, v, x, z) || (v == w && w.SqrMagnitude() as real <= range * range)
  {
    forall v
      ensures Scanned(origin, range, v, x, z + 1) <==>
        Scanned(origin, range, v, x, z) || (v == w && w.SqrMagnitude() as real <= range * range)
    {
      if Scanned(origin, range, v, x, z + 1) && !Scanned(origin, range, v, x, z) {
        assert v.x == w.x && v.y == w.y && v.z == w.z;
      }
    }
  }

  lemma {:induction false} ColumnDone(origin: Vec, range: real, x: int, z: int)
    requires z == origin.z + CeilToInt(range) + 1
    ensures forall v :: Scanned(origin, range, v, x, z) <==> InSquareArea(origin, range, v) && v.x < origin.x + x + 1
  {
  }

  lemma {:induction false} ColumnStart(origin: Vec, range: real, x: int)
    ensures forall v :: Scanned(origin, range, v, x, origin.z - CeilToInt(range)) <==>
      InSquareArea(origin, range, v) && v.x < origin.x + x
  {
  }

  /**
   * Square.Area: [origin] for a non-positive range; otherwise every candidate
   * origin + (x, 0, z) of InSquareArea, each once, ordered by x then z.
   */
  method Area(origin: Vec, range: real) returns (area: seq<Vec>)
    ensures range <= 0.0 ==> area == [origin]
    ensures range > 0.0 ==> forall v :: v in area <==> InSquareArea(origin, range, v)
    ensures range > 0.0 ==> forall v :: v in area ==> v.SqrMagnitude() as real <= range * range
    ensures range > 0.0 ==> XZSorted(area) && Distinct(area)
  {
    if range <= 0.0 {
      return [origin];
    }
    var rangeSqr := range * range;
    var rangeBorder := CeilToInt(range);
    area := [];
    var bottomX := origin.x - rangeBorder;
    var topX := origin.x + rangeBorder;
    var bottomZ := origin.z - rangeBorder;
    var topZ := origin.z + rangeBorder;
    var x := bottomX;
    while x <= topX
      invariant bottomX <= x <= topX + 1
      invariant forall v :: v in area <==> InSquareArea(origin, range, v) && v.x < origin.x + x
      invariant XZSorted(area)
    {
      var z := bottomZ;
      ColumnStart(origin, range, x);
      while z <= topZ
        invariant bottomZ <= z <= topZ + 1
        invariant forall v :: v in area <==> Scanned(origin, range, v, x, z)
        invariant forall i :: 0 <= i < |area| ==> XZBefore(area[i], Vec(origin.x + x, 0, origin.z + z))
        invariant XZSorted(area)
      {
        var v := origin.Plus(Vec(x, 0, z));
        CellStep(origin, range, x, z, v);
        if v.SqrMagnitude() as real <= rangeSqr {
          AppendSorted(area, v);
          area := area + [v];
        }
        z := z + 1;
      }
      ColumnDone(origin, range, x, z);
      x := x + 1;
    }
  }

  /** From world zero, Area is exactly the lattice disc of radius range in the y = 0 plane. */
  lemma {:induction false} AreaAtZeroIsDisc(range: real, v: Vec)
    requires range > 0.0
    ensures InSquareArea(Zero, range, v) <==> v.y == 0 && v.SqrMagnitude() as real <= range * range
  {
    var b := CeilToInt(range);
    if v.y == 0 && v.SqrMagnitude() as real <= range * range {
      ComponentWithinCeil(v.x, v, range);
      ComponentWithinCeil(v.z, v, range);
    }
  }

  lemma {:induction false} SquareIncreasing(a: real, r: real)
    requires a > r >= 0.0
    ensures a * a > r * r
  {
    assert a * a - r * r == (a - r) * (a + r);
    assert a - r > 0.0 && a + r > 0.0;
  }

  lemma {:induction false} ComponentWithinCeil(c: int, v: Vec, range: real)
    requires range > 0.0
    requires c == v.x || c == v.z
    requires v.SqrMagnitude() as real <= range * range
    ensures -CeilToInt(range) <= c <= CeilToInt(range)
  {
    var b := CeilToInt(range);
    assert v.x * v.x >= 0 && v.y * v.y >= 0 && v.z * v.z >= 0;
    assert c * c <= v.SqrMagnitude();
    var cr := if c < 0 then -c as real else c as real;
    assert cr * cr == (c * c) as real;
    if c > b || c < -b {
      assert cr > range;
      SquareIncreasing(cr, range);
    }
  }

  /**
   * Away from world zero Area misses the cells it is meant to cover: around
   * (5,0,0) with range 1 not a single cell passes, not even (5,0,0).
   */
  lemma {:induction false} AreaAwayFromZero(v: Vec)
    ensures !InSquareArea(Vec(5, 0, 0), 1.0, v)
    ensures Vec(5, 0, 0).Minus(Vec(5, 0, 0)).SqrMagnitude() as real <= 1.0 * 1.0
  {
    var b := CeilToInt(1.0);
    assert b == 1;
    if 9 <= v.x {
      assert v.x * v.x >= 9 * v.x;
      assert v.y * v.y >= 0 && v.z * v.z >= 0;
      assert v.SqrMagnitude() >= 81;
    }
  }

  /**
   * Area as its documentation describes it: [origin] for a non-positive
   * range, otherwise the cells on origin's plane whose offset from origin is
   * within range, each once. It shifts Area's cells around world zero, where
   * Area is exact.
   */
  method AreaAround(origin: Vec, range: real) returns (area: seq<Vec>)
    ensures range <= 0.0 ==> area == [origin]
    ensures range > 0.0 ==> forall v :: v in area <==> v.y == origin.y && v.Minus(origin).SqrMagnitude() as real <= range * range
    ensures Distinct(area)
  {
    var cells := Area(Zero, range);
    area := Shift(origin, cells);
    ShiftMembers(origin, cells);
    if range > 0.0 {
      forall v
        ensures v in area <==> v.y == origin.y && v.Minus(origin).SqrMagnitude() as real <= range * range
      {
        AreaAtZeroIsDisc(range, v.Minus(origin));
      }
    } else {
      assert area[0] == Zero.Plus(origin) == origin;
      assert area == [origin];
    }
  }
}

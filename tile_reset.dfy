/**
 * The reset delegates a map is built with (MapSettings.ResetHex and
 * MapSettings.ResetSquare): clear the search flags of the tiles in a
 * neighbourhood of a start position, and leave every other tile alone.
 */
module TileReset {
  import opened Vectors
  import opened Tiles
  import opened Hex

  /** The search flags as a reset leaves them. */
  predicate IsReset(t: TileEntity)
    reads t
  {
    t.Depth == MaxFloat && !t.Visited && !t.Considered
  }

  method ResetTile(t: TileEntity)
    modifies t`Depth, t`Visited, t`Considered
    ensures IsReset(t)
  {
    t.Depth := MaxFloat;
    t.Visited := false;
    t.Considered := false;
  }

  /** Keys of the diamond scanned before the cursor (x, y), relative to `start`. */
  ghost predicate HexDone(start: Vec, radius: int, x: int, y: int, p: Vec)
  {
    InCubeBox(p.Minus(start), radius) && XYBefore(p.Minus(start), Vec(x, y, -x - y))
  }

  lemma {:induction false} HexDoneStep(start: Vec, radius: int, x: int, y: int)
    requires -radius <= x <= radius
    requires Max(-radius, -x - radius) <= y <= Min(radius, -x + radius)
    ensures forall p :: HexDone(start, radius, x, y + 1, p) <==>
      HexDone(start, radius, x, y, p) || p == Vec(x, y, -x - y).Plus(start)
  {
    RowStep(radius, x, y);
    forall p
      ensures HexDone(start, radius, x, y + 1, p) <==>
        HexDone(start, radius, x, y, p) || p == Vec(x, y, -x - y).Plus(start)
    {
      var v := p.Minus(start);
      assert v == Vec(x, y, -x - y) <==> p == Vec(x, y, -x - y).Plus(start);
    }
  }

  lemma {:induction false} HexRowStart(start: Vec, radius: int, x: int)
    requires -radius <= x <= radius
    ensures forall p :: HexDone(start, radius, x, Max(-radius, -x - radius), p) <==>
      InCubeBox(p.Minus(start), radius) && p.Minus(start).x < x
  {
    RowStart(radius, x);
  }

  lemma {:induction false} HexRowDone(start: Vec, radius: int, x: int, y: int)
    requires -radius <= x <= radius
    requires y > Min(radius, -x + radius)
    ensures forall p :: HexDone(start, radius, x, y, p) <==>
      InCubeBox(p.Minus(start), radius) && p.Minus(start).x < x + 1
  {
    RowDone(radius, x, y);
  }

  /**
   * MapSettings.ResetHex: resets exactly the present tiles at startPos + v for
   * the cube cells v within hex distance ceil(range); a tile none of whose keys
   * lies there keeps its flags.
   */
  method ResetHex(startPos: Vec, tiles: map<Vec, TileEntity>, range: real)
    modifies tiles.Values`Depth, tiles.Values`Visited, tiles.Values`Considered
    ensures forall p :: p in tiles && InHexBall(p.Minus(startPos), CeilToInt(range)) ==> IsReset(tiles[p])
    ensures forall t :: (t in tiles.Values &&
        (forall p :: p in tiles && tiles[p] == t ==> !InHexBall(p.Minus(startPos), CeilToInt(range)))) ==> unchanged(t)
  {
    var rangeBorder := CeilToInt(range);
    var x := -rangeBorder;
    while x <= rangeBorder
      invariant -rangeBorder <= x
      invariant forall p :: p in tiles && InCubeBox(p.Minus(startPos), rangeBorder) && p.Minus(startPos).x < x ==> IsReset(tiles[p])
      invariant forall t :: (t in tiles.Values &&
          (forall p :: p in tiles && tiles[p] == t ==> !(InCubeBox(p.Minus(startPos), rangeBorder) && p.Minus(startPos).x < x))) ==> unchanged(t)
      decreases rangeBorder - x + 1
    {
      var start := Max(-rangeBorder, -x - rangeBorder);
      var finish := Min(rangeBorder, -x + rangeBorder);
      HexRowStart(startPos, rangeBorder, x);
      var y := start;
      while y <= finish
        invariant start <= y
        invariant forall p :: p in tiles && HexDone(startPos, rangeBorder, x, y, p) ==> IsReset(tiles[p])
        invariant forall t :: (t in tiles.Values &&
            (forall p :: p in tiles && tiles[p] == t ==> !HexDone(startPos, rangeBorder, x, y, p))) ==> unchanged(t)
        decreases finish - y + 1
      {
        HexDoneStep(startPos, rangeBorder, x, y);
        var q := Vec(x, y, -x - y).Plus(startPos);
        if q in tiles {
          ResetTile(tiles[q]);
        }
        y := y + 1;
      }
      HexRowDone(startPos, rangeBorder, x, y);
      x := x + 1;
    }
    BallIsBox(rangeBorder);
  }

  /** The square box of half-width `radius` in the x/z plane. */
  ghost predicate InSquareBox(v: Vec, radius: int)
  {
    v.y == 0 && -radius <= v.x <= radius && -radius <= v.z <= radius
  }

  /** Keys of the box scanned before the cursor (x, z), relative to `start`. */
  ghost predicate SquareDone(start: Vec, radius: int, x: int, z: int, p: Vec)
  {
    var v := p.Minus(start);
    InSquareBox(v, radius) && (v.x < x || (v.x == x && v.z < z))
  }

  lemma {:induction false} SquareDoneStep(start: Vec, radius: int, x: int, z: int)
    requires -radius <= x <= radius && -radius <= z <= radius
    ensures forall p :: SquareDone(start, radius, x, z + 1, p) <==>
      SquareDone(start, radius, x, z, p) || p == Vec(x, 0, z).Plus(start)
  {
    forall p
      ensures SquareDone(start, radius, x, z + 1, p) <==>
        SquareDone(start, radius, x, z, p) || p == Vec(x, 0, z).Plus(start)
    {
      var v := p.Minus(start);
      assert v == Vec(x, 0, z) <==> p == Vec(x, 0, z).Plus(start);
    }
  }

  lemma {:induction false} SquareRowDone(start: Vec, radius: int, x: int, z: int)
    requires z > radius
    ensures forall p :: SquareDone(start, radius, x, z, p) <==>
      InSquareBox(p.Minus(start), radius) && p.Minus(start).x < x + 1
  {
  }

  /**
   * MapSettings.ResetSquare: resets exactly the present tiles at startPos + (x, 0, z)
   * with |x| and |z| at most ceil(range); other tiles keep their flags.
   */
  method ResetSquare(startPos: Vec, tiles: map<Vec, TileEntity>, range: real)
    modifies tiles.Values`Depth, tiles.Values`Visited, tiles.Values`Considered
    ensures forall p :: p in tiles && InSquareBox(p.Minus(startPos), CeilToInt(range)) ==> IsReset(tiles[p])
    ensures forall t :: (t in tiles.Values &&
        (forall p :: p in tiles && tiles[p] == t ==> !InSquareBox(p.Minus(startPos), CeilToInt(range)))) ==> unchanged(t)
  {
    var rangeBorder := CeilToInt(range);
    var x := -rangeBorder;
    while x <= rangeBorder
      invariant -rangeBorder <= x
      invariant forall p :: p in tiles && InSquareBox(p.Minus(startPos), rangeBorder) && p.Minus(startPos).x < x ==> IsReset(tiles[p])
      invariant forall t :: (t in tiles.Values &&
          (forall p :: p in tiles && tiles[p] == t ==> !(InSquareBox(p.Minus(startPos), rangeBorder) && p.Minus(startPos).x < x))) ==> unchanged(t)
      decreases rangeBorder - x + 1
    {
      var z := -rangeBorder;
      while z <= rangeBorder
        invariant -rangeBorder <= z
        invariant forall p :: p in tiles && SquareDone(startPos, rangeBorder, x, z, p) ==> IsReset(tiles[p])
        invariant forall t :: (t in tiles.Values &&
            (forall p :: p in tiles && tiles[p] == t ==> !SquareDone(startPos, rangeBorder, x, z, p))) ==> unchanged(t)
        decreases rangeBorder - z + 1
      {
        SquareDoneStep(startPos, rangeBorder, x, z);
        var q := Vec(x, 0, z).Plus(startPos);
        if q in tiles {
          ResetTile(tiles[q]);
        }
        z := z + 1;
      }
      SquareRowDone(startPos, rangeBorder, x, z);
      x := x + 1;
    }
  }
}

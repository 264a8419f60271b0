/**
 * The tile graph the path finder searches (IMapNode, implemented by MapEntity
 * and by MapEntityMock) and the turn rotation of IMapDirectional.
 */
module MapNode {
  import opened Optional
  import opened Vectors
  import opened Tiles
  import opened TileReset
  import DictionaryExtensions
  import Hex
  import Square

  /** MapSettings.Type */
  datatype GridType = HexGrid | SquareGrid

  /**
   * The two IMapNode implementations. A MapEntity resets a radius with the
   * delegate of its grid type; the MapEntityMock always resets a hex diamond.
   */
  datatype NodeMap = Entity(ResetWith: GridType) | Mock

  class TileMap {
    const Tiles: map<Vec, TileEntity>
    const NeighboursDirection: seq<Vec>
    const DistanceFunc: (Vec, Vec) -> real
    const Kind: NodeMap

    constructor (tiles: map<Vec, TileEntity>, directions: seq<Vec>, distance: (Vec, Vec) -> real, kind: NodeMap)
      ensures Tiles == tiles && NeighboursDirection == directions && DistanceFunc == distance && Kind == kind
    {
      Tiles := tiles;
      NeighboursDirection := directions;
      DistanceFunc := distance;
      Kind := kind;
    }

    /** The tile at `p` exists and has a side height per direction. */
    predicate HasSides(p: Vec)
    {
      p in Tiles && Tiles[p].Data != null && |Tiles[p].Data.SideHeight| >= |NeighboursDirection|
    }

    /** The state the search code relies on: tiles keyed by position, each with its sides and a vacancy test. */
    ghost predicate Valid()
    {
      && KeyedByPosition(Tiles)
      && (forall p :: p in Tiles ==> HasSides(p))
      && (forall p :: p in Tiles ==> Tiles[p].VacantDefined())
    }

    /** MapEntity.Tile(Vector3Int): the stored tile or null. */
    function Tile(p: Vec): (t: TileEntity?)
      ensures t != null <==> p in Tiles
      ensures t != null ==> t == Tiles[p]
    {
      DictionaryExtensions.TryGetOrDefault(Tiles, p, null)
    }

    /** MapEntity.Distance, IMapNode.Distance and MapEntityMock.Distance: MaxValue for a missing tile. */
    function Distance(a: TileEntity?, b: TileEntity?): (d: real)
      ensures a == null || b == null ==> d == MaxFloat
      ensures a != null && b != null ==> d == DistanceFunc(a.Position(), b.Position())
    {
      if a == null || b == null then MaxFloat else DistanceFunc(a.Position(), b.Position())
    }

    /** Direction i of tile p is open, and a tile is there. */
    ghost predicate MovableVia(p: Vec, i: int, t: TileEntity)
      requires HasSides(p)
    {
      0 <= i < |NeighboursDirection| && Tiles[p].Data.SideHeight[i] <= 0.0
      && NeighboursDirection[i].Plus(p) in Tiles && Tiles[NeighboursDirection[i].Plus(p)] == t
    }

    /** The movable neighbours found in the first n directions, in table order. */
    ghost function MovableUpTo(p: Vec, n: nat): (r: seq<TileEntity>)
      requires HasSides(p) && n <= |NeighboursDirection|
      ensures |r| <= n
      ensures forall k :: 0 <= k < |r| ==> r[k] in Tiles.Values
    {
      if n == 0 then []
      else
        var q := NeighboursDirection[n - 1].Plus(p);
        var rest := MovableUpTo(p, n - 1);
        if Tiles[p].Data.SideHeight[n - 1] <= 0.0 && q in Tiles then rest + [Tiles[q]] else rest
    }

    lemma {:induction false} MovableUpToMeaning(p: Vec, n: nat, t: TileEntity)
      requires HasSides(p) && n <= |NeighboursDirection|
      ensures t in MovableUpTo(p, n) <==> exists i :: 0 <= i < n && MovableVia(p, i, t)
    {
      if n > 0 {
        MovableUpToMeaning(p, n - 1, t);
        var q := NeighboursDirection[n - 1].Plus(p);
        if Tiles[p].Data.SideHeight[n - 1] <= 0.0 && q in Tiles && Tiles[q] == t {
          assert MovableVia(p, n - 1, t);
        }
        if exists i :: 0 <= i < n && MovableVia(p, i, t) {
          var i :| 0 <= i < n && MovableVia(p, i, t);
          if i < n - 1 {
            assert exists i' :: 0 <= i' < n - 1 && MovableVia(p, i', t);
          }
        }
      }
    }

    /** What NeighborsMovable yields for the node at p. */
    ghost function MovableNeighbours(p: Vec): (r: seq<TileEntity>)
      requires HasSides(p)
      ensures forall k :: 0 <= k < |r| ==> r[k] in Tiles.Values
    {
      MovableUpTo(p, |NeighboursDirection|)
    }

    /**
     * A tile is a movable neighbour of p exactly when some direction is open
     * on p's own side and leads to it; the neighbour's sides are never read.
     */
    lemma {:induction false} MovableNeighboursMeaning(p: Vec, t: TileEntity)
      requires HasSides(p)
      ensures t in MovableNeighbours(p) <==>
        exists i :: 0 <= i < |NeighboursDirection| && Tiles[p].Data.SideHeight[i] <= 0.0
          && NeighboursDirection[i].Plus(p) in Tiles && Tiles[NeighboursDirection[i].Plus(p)] == t
    {
      MovableUpToMeaning(p, |NeighboursDirection|, t);
      if t in MovableNeighbours(p) {
        var i :| 0 <= i < |NeighboursDirection| && MovableVia(p, i, t);
      }
      if exists i :: 0 <= i < |NeighboursDirection| && Tiles[p].Data.SideHeight[i] <= 0.0
          && NeighboursDirection[i].Plus(p) in Tiles && Tiles[NeighboursDirection[i].Plus(p)] == t {
        var i :| 0 <= i < |NeighboursDirection| && Tiles[p].Data.SideHeight[i] <= 0.0
          && NeighboursDirection[i].Plus(p) in Tiles && Tiles[NeighboursDirection[i].Plus(p)] == t;
        assert MovableVia(p, i, t);
      }
    }

    /** IMapNode.Neighbours: one entry per direction, in table order, null where no tile is. */
    method Neighbours(node: TileEntity) returns (r: seq<TileEntity?>)
      ensures |r| == |NeighboursDirection|
      ensures forall i :: 0 <= i < |r| ==> r[i] == Tile(NeighboursDirection[i].Plus(node.Position()))
    {
      r := [];
      var i := 0;
      while i < |NeighboursDirection|
        invariant 0 <= i <= |NeighboursDirection|
        invariant |r| == i
        invariant forall j :: 0 <= j < i ==> r[j] == Tile(NeighboursDirection[j].Plus(node.Position()))
      {
        var n := NeighboursDirection[i];
        r := r + [DictionaryExtensions.TryGetOrDefault(Tiles, n.Plus(node.Position()), null)];
        i := i + 1;
      }
    }

    /**
     * IMapNode.NeighborsMovable. The tile at the node's position is dereferenced
     * unguarded, and its side heights are indexed by direction.
     */
    method NeighborsMovable(node: TileEntity) returns (r: seq<TileEntity>)
      requires HasSides(node.Position())
      ensures r == MovableNeighbours(node.Position())
    {
      var nodeEntity := Tiles[node.Position()];
      r := [];
      var i := 0;
      while i < |NeighboursDirection|
        invariant 0 <= i <= |NeighboursDirection|
        invariant r == MovableUpTo(node.Position(), i)
      {
        if nodeEntity.Data.SideHeight[i] <= 0.0 {
          var n := NeighboursDirection[i];
          var neigh := DictionaryExtensions.TryGetOrDefault(Tiles, n.Plus(node.Position()), null);
          if neigh != null {
            r := r + [neigh];
          }
        }
        i := i + 1;
      }
    }

    /** IMapNode.Reset(): every tile gets Depth = MaxValue and both flags cleared. */
    method Reset()
      modifies Tiles.Values`Depth, Tiles.Values`Visited, Tiles.Values`Considered
      ensures forall t :: t in Tiles.Values ==> IsReset(t)
    {
      var rest := Tiles.Values;
      while rest != {}
        invariant rest <= Tiles.Values
        invariant forall t :: t in Tiles.Values - rest ==> IsReset(t)
        decreases rest
      {
        var t :| t in rest;
        ResetTile(t);
        rest := rest - {t};
      }
    }

    /** The cells a radius reset covers, relative to the start: a box for the square delegate, else a diamond. */
    ghost predicate InResetArea(v: Vec, radius: int) {
      if Kind == Entity(SquareGrid) then InSquareBox(v, radius) else Hex.InHexBall(v, radius)
    }

    /**
     * IMapNode.Reset(range, startNode). MapEntity does nothing without a start
     * tile; the mock dereferences the start unguarded.
     */
    method ResetAround(range: real, startNode: TileEntity?)
      requires Kind.Mock? ==> startNode != null
      modifies Tiles.Values`Depth, Tiles.Values`Visited, Tiles.Values`Considered
      ensures startNode == null ==> forall t :: t in Tiles.Values ==> unchanged(t)
      ensures startNode != null ==> forall p :: p in Tiles && InResetArea(p.Minus(startNode.Position()), CeilToInt(range)) ==> IsReset(Tiles[p])
      ensures startNode != null ==> forall t :: (t in Tiles.Values &&
        (forall p :: p in Tiles && Tiles[p] == t ==> !InResetArea(p.Minus(startNode.Position()), CeilToInt(range)))) ==> unchanged(t)
    {
      if Kind.Mock? {
        ResetHex(startNode.Position(), Tiles, range);
      } else if startNode != null {
        var startPos := startNode.Position();
        if Kind.ResetWith.HexGrid? {
          ResetHex(startPos, Tiles, range);
        } else {
          ResetSquare(startPos, Tiles, range);
        }
      }
    }

    /** IMapDirectional.TurnLeft: the entry after the index of -d, wrapping; index -1 gives entry 0. */
    function TurnLeft(d: Vec): (r: Vec)
      requires |NeighboursDirection| > 0
      ensures r in NeighboursDirection
      ensures d.Neg() !in NeighboursDirection ==> r == NeighboursDirection[0]
      ensures d.Neg() in NeighboursDirection ==>
        r == NeighboursDirection[(IndexOf(NeighboursDirection, d.Neg()) + 1) % |NeighboursDirection|]
    {
      var ind := IndexOf(NeighboursDirection, d.Neg());
      NeighboursDirection[CsRem(ind + 1, |NeighboursDirection|)]
    }

    /** IMapDirectional.TurnRight: the entry before the index of -d; it throws when -d is missing. */
    function TurnRight(d: Vec): (r: Vec)
      requires d.Neg() in NeighboursDirection
      ensures r in NeighboursDirection
      ensures var ind := IndexOf(NeighboursDirection, d.Neg());
        r == NeighboursDirection[if ind == 0 then |NeighboursDirection| - 1 else ind - 1]
    {
      var ind := IndexOf(NeighboursDirection, d.Neg());
      if ind == 0 then NeighboursDirection[|NeighboursDirection| - 1] else NeighboursDirection[ind - 1]
    }
  }

  /** The index of the opposite direction: half the table further on, wrapping. */
  function Opp(n: int, k: int): int {
    if k < n / 2 then k + n / 2 else k - n / 2
  }

  /** Entry k of the table is negated half the table away. */
  predicate NegAt(dirs: seq<Vec>, k: int) {
    0 <= k < |dirs| && 0 <= Opp(|dirs|, k) < |dirs| && dirs[Opp(|dirs|, k)] == dirs[k].Neg()
  }

  /** A direction table with distinct entries in which the entry half the table away is the negation. */
  predicate OppositeAtHalf(dirs: seq<Vec>) {
    && |dirs| > 0 && |dirs| % 2 == 0 && Distinct(dirs)
    && forall k :: 0 <= k < |dirs| ==> NegAt(dirs, k)
  }

  lemma {:induction false} IndexOfDistinct<T>(s: seq<T>, i: int)
    requires Distinct(s) && 0 <= i < |s|
    ensures IndexOf(s, s[i]) == i
  {
  }

  /** The entry before index i, wrapping from 0 to the last entry. */
  function Prev(n: int, i: int): int {
    if i == 0 then n - 1 else i - 1
  }

  /** The entry after index i, wrapping from the last entry to 0. */
  function Next(n: int, i: int): int {
    if i == n - 1 then 0 else i + 1
  }

  lemma {:induction false} ModNext(x: int, n: int)
    requires 0 <= x < n
    ensures (x + 1) % n == Next(n, x)
  {
    if x + 1 == n {
      assert (x + 1) % n == 0;
    }
  }

  lemma {:induction false} OppArith(n: int, i: int)
    requires n > 0 && n % 2 == 0 && 0 <= i < n
    ensures 0 <= Opp(n, i) < n && Opp(n, Opp(n, i)) == i
    ensures 0 <= Prev(n, i) < n && 0 <= Next(n, i) < n
    ensures Next(n, Opp(n, Prev(n, i))) == Opp(n, i)
    ensures Prev(n, Opp(n, Next(n, i))) == Opp(n, i)
  {
    var h := n / 2;
    assert n == 2 * h;
  }

  /** The negation of a table entry sits half the table away. */
  lemma {:induction false} OppIndex(dirs: seq<Vec>, a: int)
    requires OppositeAtHalf(dirs) && 0 <= a < |dirs|
    ensures 0 <= Opp(|dirs|, a) < |dirs|
    ensures dirs[a].Neg() in dirs
    ensures IndexOf(dirs, dirs[a].Neg()) == Opp(|dirs|, a)
  {
    assert NegAt(dirs, a);
    IndexOfDistinct(dirs, Opp(|dirs|, a));
  }

  /** In such a table, turning right from entry a gives the entry before the opposite one... */
  lemma {:induction false} TurnRightAt(m: TileMap, a: int)
    requires OppositeAtHalf(m.NeighboursDirection) && 0 <= a < |m.NeighboursDirection|
    ensures m.NeighboursDirection[a].Neg() in m.NeighboursDirection
    ensures var n := |m.NeighboursDirection|;
      0 <= Prev(n, Opp(n, a)) < n && m.TurnRight(m.NeighboursDirection[a]) == m.NeighboursDirection[Prev(n, Opp(n, a))]
  {
    OppIndex(m.NeighboursDirection, a);
    OppArith(|m.NeighboursDirection|, a);
  }

  /** ... and turning left the entry after it. */
  lemma {:induction false} TurnLeftAt(m: TileMap, a: int)
    requires OppositeAtHalf(m.NeighboursDirection) && 0 <= a < |m.NeighboursDirection|
    ensures var n := |m.NeighboursDirection|;
      0 <= Next(n, Opp(n, a)) < n && m.TurnLeft(m.NeighboursDirection[a]) == m.NeighboursDirection[Next(n, Opp(n, a))]
  {
    var n := |m.NeighboursDirection|;
    OppIndex(m.NeighboursDirection, a);
    OppArith(n, a);
    ModNext(Opp(n, a), n);
  }

  /** In such a table, turning right and then left returns to the start direction... */
  lemma {:induction false} TurnRightThenLeft(m: TileMap, d: Vec)
    requires OppositeAtHalf(m.NeighboursDirection)
    requires d in m.NeighboursDirection
    ensures d.Neg() in m.NeighboursDirection
    ensures m.TurnLeft(m.TurnRight(d)) == d
  {
    var dirs := m.NeighboursDirection;
    var n := |dirs|;
    var a := IndexOf(dirs, d);
    TurnRightAt(m, a);
    OppArith(n, a);
    OppArith(n, Opp(n, a));
    TurnLeftAt(m, Prev(n, Opp(n, a)));
  }

  /** ... and turning left and then right does too. */
  lemma {:induction false} TurnLeftThenRight(m: TileMap, d: Vec)
    requires OppositeAtHalf(m.NeighboursDirection)
    requires d in m.NeighboursDirection
    ensures m.TurnLeft(d).Neg() in m.NeighboursDirection
    ensures m.TurnRight(m.TurnLeft(d)) == d
  {
    var dirs := m.NeighboursDirection;
    var n := |dirs|;
    var a := IndexOf(dirs, d);
    TurnLeftAt(m, a);
    OppArith(n, a);
    OppArith(n, Opp(n, a));
    TurnRightAt(m, Next(n, Opp(n, a)));
  }

  lemma {:induction false} HexTableOpposite()
    ensures OppositeAtHalf(Hex.HexCubeNeighbour)
  {
    var dirs := Hex.HexCubeNeighbour;
    Hex.NeighbourOpposite();
    forall i, j | 0 <= i < j < 6
      ensures dirs[i] != dirs[j]
    {
      assert dirs[i].x != dirs[j].x || dirs[i].y != dirs[j].y;
    }
    forall k | 0 <= k < 6
      ensures NegAt(dirs, k)
    {
      if k < 3 {
        assert Opp(6, k) == k + 3;
      } else {
        assert Opp(6, k) == k - 3;
        assert dirs[k - 3] == dirs[k].Neg();
      }
    }
  }

  lemma {:induction false} SquareTableOpposite()
    ensures OppositeAtHalf(Square.Neighbour)
  {
    var dirs := Square.Neighbour;
    Square.NeighbourOpposite();
    forall i, j | 0 <= i < j < 4
      ensures dirs[i] != dirs[j]
    {
      assert dirs[i].x != dirs[j].x || dirs[i].z != dirs[j].z;
    }
    forall k | 0 <= k < 4
      ensures NegAt(dirs, k)
    {
      if k < 2 {
        assert Opp(4, k) == k + 2;
      } else {
        assert Opp(4, k) == k - 2;
        assert dirs[k - 2] == dirs[k].Neg();
      }
    }
  }
}

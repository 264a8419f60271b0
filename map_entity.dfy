/**
 * The MapEntity queries built on the tile graph: the nearest neighbour
 * meeting a condition, and a path as a list of tiles.
 */
module MapEntity {
  import opened Optional
  import opened Vectors
  import opened Tiles
  import opened MapNode
  import opened NodePathFinder

  /**
   * Index i comes before index j in `OrderBy`: a strictly smaller key, or an
   * equal key and an earlier place in the table (the sort is stable).
   */
  predicate Before(keys: seq<real>, i: int, j: int)
    requires 0 <= i < |keys| && 0 <= j < |keys|
  {
    keys[i] < keys[j] || (keys[i] == keys[j] && i < j)
  }

  /** Every index is in range and each comes before all later ones. */
  predicate SortedIndices(keys: seq<real>, s: seq<int>) {
    && (forall a :: 0 <= a < |s| ==> 0 <= s[a] < |keys|)
    && (forall a, b :: 0 <= a < b < |s| ==> Before(keys, s[a], s[b]))
  }

  /** One step of the insertion sort: `x` goes before the first index it comes before. */
  function Insert(keys: seq<real>, s: seq<int>, x: int): (r: seq<int>)
    requires 0 <= x < |keys| && forall a :: 0 <= a < |s| ==> 0 <= s[a] < |keys|
    ensures |r| == |s| + 1 && Elems(r) == Elems(s) + {x}
    ensures forall a :: 0 <= a < |r| ==> 0 <= r[a] < |keys|
  {
    if |s| == 0 then [x]
    else if Before(keys, x, s[0]) then [x] + s
    else
      var rest := Insert(keys, s[1..], x);
      assert Elems(s) == {s[0]} + Elems(s[1..]);
      assert Elems([s[0]] + rest) == {s[0]} + Elems(rest);
      [s[0]] + rest
  }

  lemma {:induction false} InsertSorted(keys: seq<real>, s: seq<int>, x: int)
    requires 0 <= x < |keys| && SortedIndices(keys, s) && x !in Elems(s)
    ensures SortedIndices(keys, Insert(keys, s, x))
  {
    var r := Insert(keys, s, x);
    if |s| > 0 && !Before(keys, x, s[0]) {
      InsertSorted(keys, s[1..], x);
      var rest := Insert(keys, s[1..], x);
      assert r == [s[0]] + rest;
      forall b | 0 <= b < |rest|
        ensures Before(keys, s[0], rest[b])
      {
        assert rest[b] in Elems(s[1..]) + {x};
        if rest[b] != x {
          var c :| 0 <= c < |s[1..]| && s[1..][c] == rest[b];
          assert s[c + 1] == rest[b];
        }
      }
    }
  }

  /**
   * NeighboursDirection.OrderBy(orderBy), as the table indices in sorted
   * order: every index once, each before all later ones.
   */
  function OrderBy(keys: seq<real>, n: nat): (r: seq<int>)
    requires n <= |keys|
    ensures |r| == n && forall i :: i in r <==> 0 <= i < n
    ensures SortedIndices(keys, r)
  {
    if n == 0 then []
    else
      var front := OrderBy(keys, n - 1);
      InsertSorted(keys, front, n - 1);
      var r := Insert(keys, front, n - 1);
      assert forall i :: i in r <==> i in Elems(r);
      r
  }

  /** The keys of the table's directions. */
  function Keys(dirs: seq<Vec>, orderBy: Vec -> real): (keys: seq<real>)
    ensures |keys| == |dirs| && forall i :: 0 <= i < |dirs| ==> keys[i] == orderBy(dirs[i])
  {
    seq(|dirs|, i requires 0 <= i < |dirs| => orderBy(dirs[i]))
  }

  /** Direction i leads from `position` to a present tile that meets `condition`. */
  ghost predicate Candidate(m: TileMap, position: Vec, condition: TileEntity -> bool, i: int)
  {
    && 0 <= i < |m.NeighboursDirection|
    && m.NeighboursDirection[i].Plus(position) in m.Tiles
    && condition(m.Tiles[m.NeighboursDirection[i].Plus(position)])
  }

  /** Candidate i comes before every other candidate in `OrderBy` order. */
  ghost predicate Least(m: TileMap, position: Vec, condition: TileEntity -> bool, keys: seq<real>, i: int)
    requires |keys| == |m.NeighboursDirection|
  {
    && Candidate(m, position, condition, i)
    && forall j :: Candidate(m, position, condition, j) && j != i ==> Before(keys, i, j)
  }

  /**
   * MapEntity.NearestPosition: with the directions in `orderBy` order, the
   * first whose tile exists and meets `condition`; that is the candidate of
   * least key, the earliest in the table among equal keys. Without one the
   * result is false and zero.
   */
  method NearestPosition(m: TileMap, position: Vec, condition: TileEntity -> bool, orderBy: Vec -> real)
    returns (found: bool, nearest: Vec)
    ensures found <==> exists i :: Candidate(m, position, condition, i)
    ensures !found ==> nearest == Zero
    ensures found ==> exists i :: (Least(m, position, condition, Keys(m.NeighboursDirection, orderBy), i) &&
                                   nearest == m.Tiles[m.NeighboursDirection[i].Plus(position)].Position())
  {
    var dirs := m.NeighboursDirection;
    var keys := Keys(dirs, orderBy);
    var order := OrderBy(keys, |dirs|);
    nearest := Zero;
    var t := 0;
    while t < |order|
      invariant 0 <= t <= |order|
      invariant forall s :: 0 <= s < t ==> !Candidate(m, position, condition, order[s])
    {
      var pos := dirs[order[t]].Plus(position);
      var tile := m.Tile(pos);
      if tile != null && condition(tile) {
        nearest := tile.Position();
        found := true;
        FirstIsLeast(m, position, condition, keys, order, t);
        return;
      }
      t := t + 1;
    }
    found := false;
    forall i | 0 <= i < |dirs|
      ensures !Candidate(m, position, condition, i)
    {
      assert i in order;
      var s :| 0 <= s < |order| && order[s] == i;
    }
  }

  /** The first candidate in sorted order comes before every other candidate. */
  lemma {:induction false} FirstIsLeast(m: TileMap, position: Vec, condition: TileEntity -> bool, keys: seq<real>,
                     order: seq<int>, t: int)
    requires |keys| == |m.NeighboursDirection|
    requires |order| == |keys| && (forall i :: i in order <==> 0 <= i < |keys|) && SortedIndices(keys, order)
    requires 0 <= t < |order| && Candidate(m, position, condition, order[t])
    requires forall s :: 0 <= s < t ==> !Candidate(m, position, condition, order[s])
    ensures Least(m, position, condition, keys, order[t])
  {
    forall j | Candidate(m, position, condition, j) && j != order[t]
      ensures Before(keys, order[t], j)
    {
      assert j in order;
      var s :| 0 <= s < |order| && order[s] == j;
      assert s > t;
    }
  }

  /**
   * MapEntity.PathTiles, given the tile positions of its two world-space
   * points: the path of NodePathFinder.Path trimmed to `range`, and the
   * empty list when there is none (the tiles lie in different movable areas).
   */
  method PathTiles(m: TileMap, fromPos: Vec, toPos: Vec, range: real) returns (path: seq<TileEntity>)
    requires m.Valid() && MetricLaws(m.DistanceFunc) && fromPos in m.Tiles && toPos in m.Tiles
    ensures var start, finish := m.Tiles[fromPos], m.Tiles[toPos];
      start.MovableArea != finish.MovableArea ==> path == []
    ensures var start, finish := m.Tiles[fromPos], m.Tiles[toPos];
      start.MovableArea == finish.MovableArea ==>
        finish.VacantDefined() && exists full :: FoundPath(m, start, finish, full) && Trimmed(m, full, range, path)
  {
    var start := m.Tile(fromPos);
    var finish := m.Tile(toPos);
    assert m.Tiles[toPos].VacantDefined();
    var nodes := PathWithin(m, start, finish, range);
    path := [];
    if nodes.Some? {
      path := nodes.value;
    }
  }
}

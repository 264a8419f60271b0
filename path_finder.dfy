/**
 * NodePathFinder: breadth-first flood fills and the A*-style path search over
 * an IMapNode, and the trimming of a path to a movement budget.
 */
module NodePathFinder {
  import opened Optional
  import opened Vectors
  import opened Tiles
  import opened TileReset
  import opened MapNode

  /** What a valid map guarantees about each of its tiles. */
  lemma {:induction false} ValidValue(m: TileMap, t: TileEntity)
    requires m.Valid() && t in m.Tiles.Values
    ensures t.Data != null && t.Position() in m.Tiles && m.Tiles[t.Position()] == t
    ensures m.HasSides(t.Position()) && t.VacantDefined()
  {
    var p :| p in m.Tiles && m.Tiles[p] == t;
  }

  /** One move of the search: b is a movable neighbour of the map tile a, and b is vacant. */
  ghost predicate Step(m: TileMap, a: TileEntity, b: TileEntity)
  {
    && a in m.Tiles.Values && m.HasSides(a.Position())
    && b in m.MovableNeighbours(a.Position()) && b.VacantDefined() && b.Vacant()
  }

  /** A walk of moves through the map from `o` to `t`. */
  ghost predicate Walk(m: TileMap, w: seq<TileEntity>, o: TileEntity, t: TileEntity)
  {
    WalkIn(m, w, o, t, m.Tiles.Values)
  }

  /** Walk, with the map's tiles passed in: each entry of w is one of them. */
  ghost predicate WalkIn(m: TileMap, older w: seq<TileEntity>, o: TileEntity, t: TileEntity, tiles: set<TileEntity>)
  {
    && |w| > 0 && w[0] == o && w[|w| - 1] == t
    && (forall i :: 0 <= i < |w| ==> w[i] in tiles)
    && forall i :: 0 <= i < |w| - 1 ==> Step(m, w[i], w[i + 1])
  }

  ghost predicate Reachable(m: TileMap, o: TileEntity, t: TileEntity)
  {
    exists w :: WalkIn(m, w, o, t, m.Tiles.Values)
  }

  lemma {:induction false} ReachableSelf(m: TileMap, o: TileEntity)
    requires o in m.Tiles.Values
    ensures Reachable(m, o, o)
  {
    assert Walk(m, [o], o, o);
  }

  lemma {:induction false} ReachableStep(m: TileMap, o: TileEntity, a: TileEntity, b: TileEntity)
    requires Reachable(m, o, a) && Step(m, a, b)
    ensures Reachable(m, o, b)
  {
    var w :| WalkIn(m, w, o, a, m.Tiles.Values);
    var w' := w + [b];
    forall i | 0 <= i < |w'| - 1
      ensures Step(m, w'[i], w'[i + 1])
    {
      if i < |w| - 1 {
        assert w'[i] == w[i] && w'[i + 1] == w[i + 1];
      }
    }
    assert Walk(m, w', o, b);
  }

  /** Every move out of `a` lands in `s`. */
  ghost predicate Explored(m: TileMap, a: TileEntity, s: set<TileEntity>)
  {
    forall b :: b in m.Tiles.Values && Step(m, a, b) ==> b in s
  }

  /** A set closed under moves holds the end of every walk that starts in it. */
  lemma {:induction false} ClosedHoldsWalk(m: TileMap, s: set<TileEntity>, w: seq<TileEntity>, o: TileEntity, t: TileEntity)
    requires Walk(m, w, o, t) && o in s
    requires forall a :: a in s ==> Explored(m, a, s)
    ensures t in s
    decreases |w|
  {
    if |w| > 1 {
      var v := w[..|w| - 1];
      assert Walk(m, v, o, w[|w| - 2]);
      ClosedHoldsWalk(m, s, v, o, w[|w| - 2]);
      assert Step(m, w[|w| - 2], t);
      assert Explored(m, w[|w| - 2], s);
    }
  }

  lemma {:induction false} ClosedHoldsReachable(m: TileMap, s: set<TileEntity>, o: TileEntity)
    requires o in s
    requires forall a :: a in s ==> Explored(m, a, s)
    ensures forall t :: Reachable(m, o, t) ==> t in s
  {
    forall t | Reachable(m, o, t)
      ensures t in s
    {
      var w :| WalkIn(m, w, o, t, m.Tiles.Values);
      ClosedHoldsWalk(m, s, w, o, t);
    }
  }

  /** A set of tiles, all distinct, fits in the map's values. */
  lemma {:induction false} SeenBound(m: TileMap, order: seq<TileEntity>, open: seq<TileEntity>)
    requires Elems(order) + Elems(open) <= m.Tiles.Values
    requires Distinct(order) && Distinct(open) && Elems(order) !! Elems(open)
    ensures |order| + |open| <= |m.Tiles.Values| <= |m.Tiles|
  {
    DistinctAppend(order, open);
    DistinctCard(order + open);
    SubsetCard(Elems(order + open), m.Tiles.Values);
    CardinalityValues(m.Tiles);
  }

  lemma {:induction false} CardinalityValues<K, V>(d: map<K, V>)
    ensures |d.Values| <= |d|
  {
    if |d| > 0 {
      var k :| k in d;
      var rest := d - {k};
      CardinalityValues(rest);
      assert d.Values <= rest.Values + {d[k]} by {
        forall v | v in d.Values
          ensures v in rest.Values + {d[k]}
        {
          var j :| j in d && d[j] == v;
          if j != k {
            assert rest[j] == v;
          }
        }
      }
    } else {
      assert d == map[];
    }
  }

  lemma {:induction false} SubsetCard<T>(a: set<T>, b: set<T>)
    requires a <= b
    ensures |a| <= |b|
  {
    if a != {} {
      var x :| x in a;
      SubsetCard(a - {x}, b - {x});
    }
  }

  /** The safety cap on enqueued tiles. */
  const QueueCap: int := 100000

  /** Explored only gets easier as the target set grows. */
  lemma {:induction false} ExploredMono(m: TileMap, closed: set<TileEntity>, s: set<TileEntity>, s': set<TileEntity>)
    requires s <= s'
    requires forall a :: a in closed ==> Explored(m, a, s)
    ensures forall a :: a in closed ==> Explored(m, a, s')
  {
  }

  /** The end of a walk of at least one move is vacant. */
  lemma {:induction false} ReachableVacant(m: TileMap, o: TileEntity, t: TileEntity)
    requires Reachable(m, o, t) && t != o
    ensures t.VacantDefined() && t.Vacant()
  {
    var w :| WalkIn(m, w, o, t, m.Tiles.Values);
    assert Step(m, w[|w| - 2], w[|w| - 1]);
  }

  lemma {:induction false} DistinctAppend<T>(a: seq<T>, b: seq<T>)
    requires Distinct(a) && Distinct(b) && Elems(a) !! Elems(b)
    ensures Distinct(a + b) && Elems(a + b) == Elems(a) + Elems(b)
  {
    forall i, j | 0 <= i < j < |a + b|
      ensures (a + b)[i] != (a + b)[j]
    {
      if j >= |a| && i < |a| {
        assert (a + b)[i] in Elems(a) && (a + b)[j] in Elems(b);
      }
    }
  }

  lemma {:induction false} DistinctParts<T>(a: seq<T>, b: seq<T>)
    requires Distinct(a + b)
    ensures Distinct(a) && Distinct(b) && Elems(a) !! Elems(b) && Elems(a + b) == Elems(a) + Elems(b)
  {
    forall i, j | 0 <= i < j < |a|
      ensures a[i] != a[j]
    {
      assert a[i] == (a + b)[i] && a[j] == (a + b)[j];
    }
    forall i, j | 0 <= i < j < |b|
      ensures b[i] != b[j]
    {
      assert b[i] == (a + b)[|a| + i] && b[j] == (a + b)[|a| + j];
    }
    forall i, j | 0 <= i < |a| && 0 <= j < |b|
      ensures a[i] != b[j]
    {
      assert a[i] == (a + b)[i] && b[j] == (a + b)[|a| + j];
    }
  }

  /**
   * The body of AccessibleArea's loop for the dequeued `current`: it is marked
   * considered, each movable neighbour that is vacant and not yet considered is
   * marked and queued in neighbour order, and `current` is marked visited.
   * `closed` holds the tiles visited so far, `seen` those considered, `current`
   * among them, and `added` the queued tiles.
   */
  method VisitTile(m: TileMap, current: TileEntity, open: seq<TileEntity>, index: int,
                   ghost closed: set<TileEntity>, ghost seen: set<TileEntity>)
    returns (open': seq<TileEntity>, index': int, ghost added: seq<TileEntity>)
    requires m.Valid() && current in m.Tiles.Values && current in seen && current !in closed
    requires forall t :: t in m.Tiles.Values && t != current ==>
      t.Depth == MaxFloat && (t.Visited <==> t in closed) && (t.Considered <==> t in seen)
    requires current.Depth == MaxFloat
    modifies m.Tiles.Values`Considered, m.Tiles.Values`Visited
    ensures open' == open + added && index' == index + |added|
    ensures Distinct(added) && Elems(added) <= m.Tiles.Values && Elems(added) !! seen
    ensures forall k :: 0 <= k < |added| ==> Step(m, current, added[k])
    ensures FillFlags(m.Tiles.Values, closed + {current}, seen + Elems(added))
    ensures Explored(m, current, seen + Elems(added))
  {
    ValidValue(m, current);
    current.Considered := true;
    var ns := m.NeighborsMovable(current);
    open', index', added := QueueNeighbours(m, current, ns, open, index, seen);
    current.Visited := true;
  }

  /**
   * The neighbour loop of AccessibleArea: each tile of `ns` that is vacant and
   * not yet considered is marked and queued, in the order of `ns`.
   */
  method QueueNeighbours(m: TileMap, current: TileEntity, ns: seq<TileEntity>, open: seq<TileEntity>, index: int,
                         ghost seen: set<TileEntity>)
    returns (open': seq<TileEntity>, index': int, ghost added: seq<TileEntity>)
    requires m.Valid() && current in m.Tiles.Values && m.HasSides(current.Position())
    requires ns == m.MovableNeighbours(current.Position())
    requires forall t :: t in m.Tiles.Values ==> (t.Considered <==> t in seen)
    modifies m.Tiles.Values`Considered
    ensures open' == open + added && index' == index + |added|
    ensures Distinct(added) && Elems(added) <= m.Tiles.Values && Elems(added) !! seen
    ensures forall k :: 0 <= k < |added| ==> Step(m, current, added[k])
    ensures forall t :: t in m.Tiles.Values ==> (t.Considered <==> t in seen + Elems(added))
    ensures Explored(m, current, seen + Elems(added))
  {
    ghost var tiles := m.Tiles.Values;
    open' := open;
    index' := index;
    added := [];
    var j := 0;
    while j < |ns|
      invariant 0 <= j <= |ns|
      invariant open' == open + added && index' == index + |added|
      invariant Distinct(added) && Elems(added) <= Elems(ns) && Elems(added) !! seen
      invariant forall k :: 0 <= k < |added| ==> added[k].VacantDefined() && added[k].Vacant()
      invariant forall t :: t in tiles ==> (t.Considered <==> t in seen + Elems(added))
      invariant forall k :: 0 <= k < j && ns[k].VacantDefined() && ns[k].Vacant() ==> ns[k] in seen + Elems(added)
    {
      var n := ns[j];
      ValidValue(m, n);
      if n.Vacant() && !n.Considered {
        n.Considered := true;
        DistinctAppend(added, [n]);
        added := added + [n];
        open' := open' + [n];
        index' := index' + 1;
      }
      j := j + 1;
    }
    forall k | 0 <= k < |added|
      ensures Step(m, current, added[k])
    {
      assert added[k] in Elems(ns);
    }
  }

  /** The search state between two dequeues: what the flood fill keeps true. */
  ghost predicate FillState(m: TileMap, origin: TileEntity, closed: set<TileEntity>, open: seq<TileEntity>)
  {
    && closed + Elems(open) <= m.Tiles.Values
    && Distinct(open) && closed !! Elems(open)
    && (forall t :: t in closed + Elems(open) ==> Reachable(m, origin, t))
    && (forall a :: a in closed ==> Explored(m, a, closed + Elems(open)))
  }

  /**
   * Dequeuing the head of `open`, queueing `added` and closing the head keeps
   * FillState, and the ghost visiting order grows by the head.
   */
  lemma {:induction false} FillStep(m: TileMap, origin: TileEntity, closed: set<TileEntity>, order: seq<TileEntity>,
                 open: seq<TileEntity>, added: seq<TileEntity>)
    requires FillState(m, origin, closed, open) && |open| > 0
    requires Elems(order) == closed && Distinct(order)
    requires Distinct(added) && Elems(added) <= m.Tiles.Values
    requires Elems(added) !! closed + Elems(open)
    requires forall k :: 0 <= k < |added| ==> Step(m, open[0], added[k])
    requires Explored(m, open[0], closed + Elems(open) + Elems(added))
    ensures FillState(m, origin, closed + {open[0]}, open[1..] + added)
    ensures closed + {open[0]} + Elems(open[1..] + added) == closed + Elems(open) + Elems(added)
    ensures Elems(order + [open[0]]) == closed + {open[0]} && Distinct(order + [open[0]])
  {
    var current, rest := open[0], open[1..];
    assert open == [current] + rest;
    DistinctParts([current], rest);
    assert Elems([current]) == {current};
    DistinctAppend(rest, added);
    DistinctAppend(order, [current]);
    forall t | t in Elems(added)
      ensures Reachable(m, origin, t)
    {
      var k :| 0 <= k < |added| && added[k] == t;
      ReachableStep(m, origin, current, t);
    }
    ExploredMono(m, closed, closed + Elems(open), closed + Elems(open) + Elems(added));
  }

  /** The search flags while the flood fill runs: `closed` visited, `seen` considered. */
  ghost predicate FillFlags(tiles: set<TileEntity>, closed: set<TileEntity>, seen: set<TileEntity>)
    reads tiles
  {
    forall t :: t in tiles ==> t.Depth == MaxFloat && (t.Visited <==> t in closed) && (t.Considered <==> t in seen)
  }

  /**
   * NodePathFinder.AccessibleArea: after a full reset, the tiles reached from
   * `origin` by moves through vacant tiles. Every returned tile is reachable;
   * on a map of at most QueueCap tiles the cap never bites and every reachable
   * tile is returned.
   */
  method AccessibleArea(m: TileMap, origin: TileEntity) returns (closed: set<TileEntity>)
    requires m.Valid() && origin in m.Tiles.Values
    modifies m.Tiles.Values`Depth, m.Tiles.Values`Visited, m.Tiles.Values`Considered
    ensures origin in closed && closed <= m.Tiles.Values
    ensures forall t :: t in closed ==> Reachable(m, origin, t)
    ensures forall t :: t in closed && t != origin ==> t.VacantDefined() && t.Vacant()
    ensures |m.Tiles| <= QueueCap ==> forall t :: Reachable(m, origin, t) ==> t in closed
    ensures forall t :: t in m.Tiles.Values ==> (t.Visited <==> t in closed) && t.Depth == MaxFloat
    ensures forall t :: t in closed ==> t.Considered
  {
    m.Reset();
    ghost var tiles := m.Tiles.Values;
    ReachableSelf(m, origin);
    ghost var order: seq<TileEntity> := [];
    var open := [origin];
    var index := 0;
    assert Elems(open) == {origin};
    // The first round of the loop, on the queue [origin], always runs.
    closed, order, open, index := FillRound(m, origin, {}, [], open, index);
    while |open| > 0 && index < QueueCap
      invariant m.Tiles.Values == tiles && origin in closed
      invariant FillState(m, origin, closed, open)
      invariant Elems(order) == closed && Distinct(order) && index == |order| + |open| - 1
      invariant FillFlags(tiles, closed, closed + Elems(open))
      decreases tiles - closed
    {
      closed, order, open, index := FillRound(m, origin, closed, order, open, index);
    }
    FillDone(m, origin, closed, order, open, index);
  }

  /**
   * One round of AccessibleArea's loop: the head of `open` is dequeued,
   * visited and closed, and its new neighbours are queued.
   */
  method FillRound(m: TileMap, origin: TileEntity, closed: set<TileEntity>, ghost order: seq<TileEntity>,
                   open: seq<TileEntity>, index: int)
    returns (closed': set<TileEntity>, ghost order': seq<TileEntity>, open': seq<TileEntity>, index': int)
    requires m.Valid() && FillState(m, origin, closed, open) && |open| > 0
    requires Elems(order) == closed && Distinct(order) && index == |order| + |open| - 1
    requires forall t :: t in m.Tiles.Values && t != open[0] ==>
      t.Depth == MaxFloat && (t.Visited <==> t in closed) && (t.Considered <==> t in closed + Elems(open))
    requires open[0].Depth == MaxFloat
    modifies m.Tiles.Values`Considered, m.Tiles.Values`Visited
    ensures closed' == closed + {open[0]} && open[0] !in closed
    ensures FillState(m, origin, closed', open')
    ensures Elems(order') == closed' && Distinct(order') && index' == |order'| + |open'| - 1
    ensures FillFlags(m.Tiles.Values, closed', closed' + Elems(open'))
  {
    var current := open[0];
    ghost var added;
    open', index', added := VisitTile(m, current, open[1..], index, closed, closed + Elems(open));
    FillStep(m, origin, closed, order, open, added);
    order' := order + [current];
    closed' := closed + {current};
  }

  /** What the flood fill's state gives once the loop stops. */
  lemma {:induction false} FillDone(m: TileMap, origin: TileEntity, closed: set<TileEntity>, order: seq<TileEntity>, open: seq<TileEntity>, index: int)
    requires FillState(m, origin, closed, open) && origin in closed
    requires Elems(order) == closed && Distinct(order) && index == |order| + |open| - 1
    requires !(|open| > 0 && index < QueueCap)
    ensures forall t :: t in closed ==> Reachable(m, origin, t)
    ensures forall t :: t in closed && t != origin ==> t.VacantDefined() && t.Vacant()
    ensures |m.Tiles| <= QueueCap ==> forall t :: Reachable(m, origin, t) ==> t in closed
  {
    if |m.Tiles| <= QueueCap {
      SeenBound(m, order, open);
      assert open == [];
      ClosedHoldsReachable(m, closed, origin);
    }
    forall t | t in closed && t != origin
      ensures t.VacantDefined() && t.Vacant()
    {
      ReachableVacant(m, origin, t);
    }
  }

  /** The length of a walk: the map distances of its consecutive entries, summed from the start. */
  function PathCost(m: TileMap, w: seq<TileEntity>): real
    decreases |w|
  {
    if |w| <= 1 then 0.0 else PathCost(m, w[..|w| - 1]) + m.Distance(w[|w| - 2], w[|w| - 1])
  }

  /** Extending a walk by one move adds that move's distance to its length. */
  lemma {:induction false} WalkExtend(m: TileMap, w: seq<TileEntity>, o: TileEntity, a: TileEntity, b: TileEntity, tiles: set<TileEntity>)
    requires WalkIn(m, w, o, a, tiles) && Step(m, a, b) && b in tiles
    ensures WalkIn(m, w + [b], o, b, tiles)
    ensures PathCost(m, w + [b]) == PathCost(m, w) + m.Distance(a, b)
  {
    var w' := w + [b];
    assert w'[..|w'| - 1] == w;
    forall i | 0 <= i < |w'| - 1
      ensures Step(m, w'[i], w'[i + 1])
    {
      if i < |w| - 1 {
        assert w'[i] == w[i] && w'[i + 1] == w[i + 1];
      }
    }
  }

  /**
   * What holds of every tile `seen` by the range-limited fill: it is marked
   * considered, `walks` holds a walk to it from `origin` whose length is its
   * Depth, and any tile but the origin is vacant and within `range`. The
   * origin's walk is the origin alone, so its Depth is 0.
   */
  ghost predicate WithinState(m: TileMap, origin: TileEntity, range: real, seen: set<TileEntity>,
                              walks: map<TileEntity, seq<TileEntity>>)
    reads m.Tiles.Values`Considered, m.Tiles.Values`Depth
  {
    && seen <= m.Tiles.Values && origin in seen && origin in walks && walks[origin] == [origin]
    && (forall t :: t in seen ==>
          t.Considered && t in walks && WalkIn(m, walks[t], origin, t, m.Tiles.Values) && PathCost(m, walks[t]) == t.Depth)
    && (forall t :: t in seen && t != origin ==> t.VacantDefined() && t.Vacant() && t.Depth <= range)
  }

  /** Marks `n` considered at Depth `d`, the length of the walk `w` that reaches it. */
  method MarkWithin(m: TileMap, origin: TileEntity, range: real, n: TileEntity, d: real,
                    ghost seen: set<TileEntity>, ghost walks: map<TileEntity, seq<TileEntity>>, ghost w: seq<TileEntity>)
    requires WithinState(m, origin, range, seen, walks) && n in m.Tiles.Values && !n.Considered
    requires n.VacantDefined() && n.Vacant() && d <= range
    requires WalkIn(m, w, origin, n, m.Tiles.Values) && PathCost(m, w) == d
    modifies n`Considered, n`Depth
    ensures n.Considered && n.Depth == d
    ensures WithinState(m, origin, range, seen + {n}, walks[n := w])
  {
    n.Considered := true;
    n.Depth := d;
  }

  /** Marking a tile considered again keeps the state. */
  method MarkSeen(m: TileMap, origin: TileEntity, range: real, current: TileEntity,
                  ghost seen: set<TileEntity>, ghost walks: map<TileEntity, seq<TileEntity>>)
    requires WithinState(m, origin, range, seen, walks) && current in seen
    modifies current`Considered
    ensures current.Considered
    ensures WithinState(m, origin, range, seen, walks)
  {
    current.Considered := true;
  }

  /**
   * One round of WalkableArea's neighbour loop: `n` is marked considered, given
   * the Depth `current.Depth + Distance(current, n)` and queued when it is
   * vacant, not yet considered and that Depth is within `range`.
   */
  method ConsiderWithin(m: TileMap, origin: TileEntity, range: real, current: TileEntity, n: TileEntity,
                        open: seq<TileEntity>, index: int, ghost seen: set<TileEntity>, ghost added: seq<TileEntity>,
                        ghost walks: map<TileEntity, seq<TileEntity>>, ghost open0: seq<TileEntity>, ghost index0: int)
    returns (open': seq<TileEntity>, index': int, ghost added': seq<TileEntity>,
             ghost walks': map<TileEntity, seq<TileEntity>>)
    requires m.Valid() && current in seen && m.HasSides(current.Position())
    requires n in m.MovableNeighbours(current.Position())
    requires open == open0 + added && index == index0 + |added|
    requires Distinct(added) && Elems(added) !! seen
    requires WithinState(m, origin, range, seen + Elems(added), walks)
    modifies n`Considered, n`Depth
    ensures open' == open0 + added' && index' == index0 + |added'|
    ensures Elems(added') <= Elems(added) + {n}
    ensures Distinct(added') && Elems(added') !! seen
    ensures WithinState(m, origin, range, seen + Elems(added'), walks')
  {
    ValidValue(m, n);
    var currentDistance := current.Depth + m.Distance(current, n);
    open', index', added', walks' := open, index, added, walks;
    if n.Vacant() && !n.Considered && currentDistance <= range {
      assert Step(m, current, n);
      WalkExtend(m, walks[current], origin, current, n, m.Tiles.Values);
      MarkWithin(m, origin, range, n, currentDistance, seen + Elems(added), walks, walks[current] + [n]);
      DistinctAppend(added, [n]);
      walks' := walks[n := walks[current] + [n]];
      added' := added + [n];
      open' := open + [n];
      index' := index + 1;
      assert open' == open0 + added';
    }
  }

  /**
   * The first part of a round of WalkableArea's loop: `current` is marked
   * considered, then its movable neighbours are considered in their order.
   */
  method QueueWithin(m: TileMap, origin: TileEntity, range: real, current: TileEntity,
                     open: seq<TileEntity>, index: int, ghost seen: set<TileEntity>,
                     ghost walks: map<TileEntity, seq<TileEntity>>)
    returns (open': seq<TileEntity>, index': int, ghost added: seq<TileEntity>,
             ghost walks': map<TileEntity, seq<TileEntity>>)
    requires m.Valid() && current in seen
    requires WithinState(m, origin, range, seen, walks)
    modifies m.Tiles.Values`Considered, m.Tiles.Values`Depth
    ensures open' == open + added && index' == index + |added|
    ensures Distinct(added) && Elems(added) !! seen
    ensures forall k :: 0 <= k < |added| ==> Step(m, current, added[k])
    ensures WithinState(m, origin, range, seen + Elems(added), walks')
  {
    ValidValue(m, current);
    MarkSeen(m, origin, range, current, seen, walks);
    var ns := m.NeighborsMovable(current);
    open' := open;
    index' := index;
    added := [];
    walks' := walks;
    var j := 0;
    while j < |ns|
      invariant 0 <= j <= |ns|
      invariant open' == open + added && index' == index + |added|
      invariant Distinct(added) && Elems(added) <= Elems(ns) && Elems(added) !! seen
      invariant WithinState(m, origin, range, seen + Elems(added), walks')
    {
      open', index', added, walks' := ConsiderWithin(m, origin, range, current, ns[j], open', index', seen, added, walks', open, index);
      j := j + 1;
    }
    forall k | 0 <= k < |added|
      ensures Step(m, current, added[k])
    {
      assert added[k] in Elems(ns) && added[k] in seen + Elems(added);
    }
  }

  /** The queue after a dequeue of its head and an append of `added`. */
  lemma {:induction false} Dequeue(closed: set<TileEntity>, open: seq<TileEntity>, added: seq<TileEntity>)
    requires |open| > 0 && Distinct(open) && closed !! Elems(open)
    requires Distinct(added) && Elems(added) !! closed + Elems(open)
    ensures Distinct(open[1..] + added) && closed + {open[0]} !! Elems(open[1..] + added)
    ensures closed + {open[0]} + Elems(open[1..] + added) == closed + Elems(open) + Elems(added)
  {
    assert open == [open[0]] + open[1..];
    DistinctParts([open[0]], open[1..]);
    assert Elems([open[0]]) == {open[0]};
    DistinctAppend(open[1..], added);
  }

  /** Every tile of `s` is marked visited. */
  ghost predicate AllVisited(s: set<TileEntity>)
    reads s`Visited
  {
    forall t :: t in s ==> t.Visited
  }

  /**
   * A round of WalkableArea's loop for the dequeued `current`: mark it
   * considered, queue its neighbours within range, mark it visited.
   */
  method VisitWithin(m: TileMap, origin: TileEntity, range: real, current: TileEntity, open: seq<TileEntity>, index: int,
                     ghost closed: set<TileEntity>, ghost seen: set<TileEntity>,
                     ghost walks: map<TileEntity, seq<TileEntity>>)
    returns (open': seq<TileEntity>, index': int, ghost added: seq<TileEntity>,
             ghost walks': map<TileEntity, seq<TileEntity>>)
    requires m.Valid() && current in seen && WithinState(m, origin, range, seen, walks)
    requires AllVisited(closed)
    modifies m.Tiles.Values`Considered, m.Tiles.Values`Depth, m.Tiles.Values`Visited
    ensures open' == open + added && index' == index + |added|
    ensures Distinct(added) && Elems(added) !! seen
    ensures WithinState(m, origin, range, seen + Elems(added), walks')
    ensures AllVisited(closed + {current})
  {
    open', index', added, walks' := QueueWithin(m, origin, range, current, open, index, seen, walks);
    current.Visited := true;
  }

  /**
   * NodePathFinder.WalkableArea: after resetting the tiles within ceil(range)
   * of `origin`, a breadth-first fill from `origin` (at Depth 0) that queues a
   * vacant, unconsidered neighbour when the Depth it would get, the current
   * tile's Depth plus their distance, is within `range`. Every returned tile
   * but the origin is vacant and holds as its Depth the length of a walk to it
   * from the origin, at most `range`.
   */
  method WalkableArea(m: TileMap, origin: TileEntity, range: real) returns (closed: set<TileEntity>)
    requires m.Valid() && origin in m.Tiles.Values
    modifies m.Tiles.Values`Depth, m.Tiles.Values`Visited, m.Tiles.Values`Considered
    ensures origin in closed && closed <= m.Tiles.Values && origin.Depth == 0.0
    ensures forall t :: t in closed ==> t.Visited && t.Considered
    ensures forall t :: t in closed && t != origin ==> t.VacantDefined() && t.Vacant() && t.Depth <= range
    ensures forall t :: t in closed ==> exists w :: Walk(m, w, origin, t) && PathCost(m, w) == t.Depth
    ensures forall t :: t in closed ==> Reachable(m, origin, t)
    ensures MetricLaws(m.DistanceFunc) && range < 0.0 ==> closed == {origin}
  {
    ghost var walks := WithinStart(m, origin, range);
    ghost var tiles := m.Tiles.Values;
    // The first round of the loop, on the queue [origin], always runs.
    var open := [origin];
    var index := 0;
    assert Elems(open) == {origin};
    closed, open, index, walks := WithinRound(m, origin, range, {}, open, index, walks);
    while |open| > 0 && index < QueueCap
      invariant m.Tiles.Values == tiles && origin in closed
      invariant Distinct(open) && closed !! Elems(open)
      invariant WithinState(m, origin, range, closed + Elems(open), walks)
      invariant AllVisited(closed)
      decreases tiles - closed
    {
      closed, open, index, walks := WithinRound(m, origin, range, closed, open, index, walks);
    }
    WithinDone(m, origin, range, closed, walks);
  }

  /** The start of WalkableArea: the reset around `origin`, which gets Depth 0 and is marked considered. */
  method WithinStart(m: TileMap, origin: TileEntity, range: real) returns (ghost walks: map<TileEntity, seq<TileEntity>>)
    requires m.Valid() && origin in m.Tiles.Values
    modifies m.Tiles.Values`Depth, m.Tiles.Values`Visited, m.Tiles.Values`Considered
    ensures WithinState(m, origin, range, {origin}, walks)
  {
    m.ResetAround(CeilToInt(range) as real, origin);
    origin.Depth := 0.0;
    origin.Considered := true;
    walks := map[origin := [origin]];
  }

  /** One round of WalkableArea's loop: the head of `open` is dequeued, visited and closed. */
  method WithinRound(m: TileMap, origin: TileEntity, range: real, closed: set<TileEntity>, open: seq<TileEntity>,
                     index: int, ghost walks: map<TileEntity, seq<TileEntity>>)
    returns (closed': set<TileEntity>, open': seq<TileEntity>, index': int, ghost walks': map<TileEntity, seq<TileEntity>>)
    requires m.Valid() && |open| > 0 && Distinct(open) && closed !! Elems(open)
    requires WithinState(m, origin, range, closed + Elems(open), walks) && AllVisited(closed)
    modifies m.Tiles.Values`Considered, m.Tiles.Values`Depth, m.Tiles.Values`Visited
    ensures closed' == closed + {open[0]} && open[0] !in closed
    ensures Distinct(open') && closed' !! Elems(open')
    ensures WithinState(m, origin, range, closed' + Elems(open'), walks')
    ensures AllVisited(closed')
  {
    var current := open[0];
    ghost var added;
    open', index', added, walks' := VisitWithin(m, origin, range, current, open[1..], index, closed, closed + Elems(open), walks);
    Dequeue(closed, open, added);
    closed' := closed + {current};
  }

  /** What the range-limited fill's state says of its tiles once the loop stops. */
  lemma {:induction false} WithinDone(m: TileMap, origin: TileEntity, range: real, closed: set<TileEntity>,
                   walks: map<TileEntity, seq<TileEntity>>)
    requires WithinState(m, origin, range, closed, walks)
    ensures origin.Depth == 0.0
    ensures forall t :: t in closed ==> t.Considered
    ensures forall t :: t in closed && t != origin ==> t.VacantDefined() && t.Vacant() && t.Depth <= range
    ensures forall t :: t in closed ==> exists w :: Walk(m, w, origin, t) && PathCost(m, w) == t.Depth
    ensures forall t :: t in closed ==> Reachable(m, origin, t)
    ensures MetricLaws(m.DistanceFunc) && range < 0.0 ==> closed == {origin}
  {
    forall t | t in closed
      ensures exists w :: Walk(m, w, origin, t) && PathCost(m, w) == t.Depth
      ensures Reachable(m, origin, t)
      ensures MetricLaws(m.DistanceFunc) && range < 0.0 ==> t == origin
    {
      assert Walk(m, walks[t], origin, t);
      if MetricLaws(m.DistanceFunc) {
        PathCostNonNegative(m, walks[t]);
      }
    }
  }

  /** Under a metric no walk has a negative length. */
  lemma {:induction false} PathCostNonNegative(m: TileMap, w: seq<TileEntity>)
    requires MetricLaws(m.DistanceFunc)
    ensures PathCost(m, w) >= 0.0
    decreases |w|
  {
    if |w| > 1 {
      PathCostNonNegative(m, w[..|w| - 1]);
    }
  }

  /**
   * NodePathFinder.WalkableAreaPositions: the same range-limited fill as
   * WalkableArea, collecting the positions of the tiles it visits.
   */
  method WalkableAreaPositions(m: TileMap, origin: TileEntity, range: real) returns (r: set<Vec>)
    requires m.Valid() && origin in m.Tiles.Values
    modifies m.Tiles.Values`Depth, m.Tiles.Values`Visited, m.Tiles.Values`Considered
    ensures origin.Position() in r && origin.Depth == 0.0
    ensures forall p :: p in r ==> p in m.Tiles && m.Tiles[p].Visited && Reachable(m, origin, m.Tiles[p])
    ensures forall p :: p in r && m.Tiles[p] != origin ==>
      m.Tiles[p].VacantDefined() && m.Tiles[p].Vacant() && m.Tiles[p].Depth <= range
    ensures forall p :: p in r ==> exists w :: Walk(m, w, origin, m.Tiles[p]) && PathCost(m, w) == m.Tiles[p].Depth
    ensures MetricLaws(m.DistanceFunc) && range < 0.0 ==> r == {origin.Position()}
  {
    var closed := WalkableArea(m, origin, range);
    r := set t | t in closed :: t.Position();
    PositionsOf(m, closed, r);
    ValidValue(m, origin);
    if MetricLaws(m.DistanceFunc) && range < 0.0 {
      assert closed == {origin};
      assert r == {origin.Position()};
    }
  }

  /** The positions of a set of map tiles key exactly those tiles. */
  lemma {:induction false} PositionsOf(m: TileMap, closed: set<TileEntity>, r: set<Vec>)
    requires m.Valid() && closed <= m.Tiles.Values && r == set t | t in closed :: t.Position()
    ensures forall p :: p in r ==> p in m.Tiles && m.Tiles[p] in closed
  {
    forall p | p in r
      ensures p in m.Tiles && m.Tiles[p] in closed
    {
      var t :| t in closed && t.Position() == p;
      ValidValue(m, t);
    }
  }

  /**
   * The position of the first entry of `open` with the least score in `f`:
   * what `open.OrderBy(o => ScoreF[o]).First()` picks, the ordering being stable.
   */
  function LowestScore(open: seq<TileEntity>, f: map<TileEntity, real>): (i: int)
    requires |open| > 0 && Elems(open) <= f.Keys
    ensures 0 <= i < |open|
    ensures forall j :: 0 <= j < |open| ==> f[open[i]] <= f[open[j]]
    ensures forall j :: 0 <= j < i ==> f[open[j]] > f[open[i]]
    decreases |open|
  {
    if |open| == 1 then 0
    else
      var front := open[..|open| - 1];
      assert Elems(front) <= Elems(open);
      var j := LowestScore(front, f);
      if f[open[|open| - 1]] < f[open[j]] then |open| - 1 else j
  }

  /**
   * FindPath's bookkeeping between two neighbour visits. `g` is ScoreG, `f`
   * ScoreF, `from` CameFrom. Every scored tile is closed or open; every scored
   * tile but `start` came from a closed tile by one move, and its score is at
   * least that tile's score plus its own distance to `finish` (the increment
   * FindPath adds); `finish` is never closed; every closed tile outside
   * `pending` has all its moves scored.
   */
  ghost predicate SearchState(m: TileMap, start: TileEntity, finish: TileEntity, g: map<TileEntity, real>,
                              f: map<TileEntity, real>, from: map<TileEntity, TileEntity>,
                              open: seq<TileEntity>, closed: set<TileEntity>, pending: set<TileEntity>)
  {
    && KeysState(m, start, finish, g, f, from, open, closed)
    && ScoresState(m, finish, g, f)
    && FromState(m, finish, g, from, closed)
    && ExploredState(m, closed - pending, g.Keys)
  }

  /** Which tiles are scored, closed, open and linked to a predecessor. */
  ghost predicate KeysState(m: TileMap, start: TileEntity, finish: TileEntity, g: map<TileEntity, real>,
                            f: map<TileEntity, real>, from: map<TileEntity, TileEntity>,
                            open: seq<TileEntity>, closed: set<TileEntity>)
  {
    && start in g && g[start] == 0.0 && start !in from
    && g.Keys == f.Keys && g.Keys == closed + Elems(open) && from.Keys == g.Keys - {start}
    && closed !! Elems(open) && Distinct(open) && g.Keys <= m.Tiles.Values
    && finish !in closed
  }

  /** Scores are never negative, and ScoreF is ScoreG plus the distance to `finish`. */
  ghost predicate ScoresState(m: TileMap, finish: TileEntity, g: map<TileEntity, real>, f: map<TileEntity, real>)
  {
    forall n :: n in g ==> g[n] >= 0.0 && n in f && f[n] == g[n] + m.Distance(n, finish)
  }

  /** Each linked tile came by one move from a closed tile whose score, plus its own distance to `finish`, bounds its score. */
  ghost predicate FromState(m: TileMap, finish: TileEntity, g: map<TileEntity, real>, from: map<TileEntity, TileEntity>,
                            closed: set<TileEntity>)
  {
    forall n :: n in from ==>
      from[n] in closed && n in g && from[n] in g && Step(m, from[n], n) && g[n] >= g[from[n]] + m.Distance(n, finish)
  }

  /** Every tile of `done` has all its moves in `keys`. */
  ghost predicate ExploredState(m: TileMap, done: set<TileEntity>, keys: set<TileEntity>)
  {
    forall a :: a in done ==> Explored(m, a, keys)
  }

  /**
   * The body of FindPath's neighbour loop for one movable neighbour `node` of
   * the tile `check` just closed: a vacant node gets the score
   * `ScoreG[check] + Distance(node, finish)`; an unscored node is scored and
   * queued, a scored one is rescored only when that is strictly lower.
   */
  method Relax(m: TileMap, start: TileEntity, finish: TileEntity, check: TileEntity, node: TileEntity,
               g: map<TileEntity, real>, f: map<TileEntity, real>, from: map<TileEntity, TileEntity>,
               open: seq<TileEntity>, ghost closed: set<TileEntity>)
    returns (g': map<TileEntity, real>, f': map<TileEntity, real>, from': map<TileEntity, TileEntity>,
             open': seq<TileEntity>)
    requires m.Valid() && MetricLaws(m.DistanceFunc)
    requires check in closed && m.HasSides(check.Position()) && node in m.MovableNeighbours(check.Position())
    requires SearchState(m, start, finish, g, f, from, open, closed, {check})
    ensures SearchState(m, start, finish, g', f', from', open', closed, {check})
    ensures g.Keys <= g'.Keys
    ensures Step(m, check, node) ==> node in g'
  {
    ValidValue(m, node);
    g', f', from', open' := g, f, from, open;
    if node.Vacant() {
      assert Step(m, check, node);
      var score := g[check] + m.Distance(node, finish);
      if node in g {
        if score < g[node] {
          Rescore(m, start, finish, check, node, g, f, from, open, closed, score);
          from' := from[node := check];
          g' := g[node := score];
          f' := f[node := score + m.Distance(node, finish)];
        }
      } else {
        Discover(m, start, finish, check, node, g, f, from, open, closed, score);
        open' := open + [node];
        g' := g[node := score];
        f' := f[node := score + m.Distance(node, finish)];
        from' := from[node := check];
      }
    }
  }

  /** Rescoring a scored tile reached more cheaply from `check` keeps SearchState. */
  lemma {:induction false} Rescore(m: TileMap, start: TileEntity, finish: TileEntity, check: TileEntity, node: TileEntity,
                g: map<TileEntity, real>, f: map<TileEntity, real>, from: map<TileEntity, TileEntity>,
                open: seq<TileEntity>, closed: set<TileEntity>, score: real)
    requires MetricLaws(m.DistanceFunc) && check in closed && Step(m, check, node)
    requires SearchState(m, start, finish, g, f, from, open, closed, {check})
    requires node in g && score == g[check] + m.Distance(node, finish) && score < g[node]
    ensures SearchState(m, start, finish, g[node := score], f[node := score + m.Distance(node, finish)],
                        from[node := check], open, closed, {check})
  {
    RescoreKeys(m, start, finish, check, node, g, f, from, open, closed, score);
    RescoreFrom(m, finish, check, node, g, from, closed, score);
    ScoresUpdate(m, finish, g, f, node, score);
    assert g[node := score].Keys == g.Keys;
  }

  /** Giving a tile a new non-negative score, and ScoreF to match, keeps ScoresState. */
  lemma {:induction false} ScoresUpdate(m: TileMap, finish: TileEntity, g: map<TileEntity, real>, f: map<TileEntity, real>,
                     node: TileEntity, score: real)
    requires ScoresState(m, finish, g, f) && score >= 0.0
    ensures ScoresState(m, finish, g[node := score], f[node := score + m.Distance(node, finish)])
  {
  }

  lemma {:induction false} RescoreKeys(m: TileMap, start: TileEntity, finish: TileEntity, check: TileEntity, node: TileEntity,
                    g: map<TileEntity, real>, f: map<TileEntity, real>, from: map<TileEntity, TileEntity>,
                    open: seq<TileEntity>, closed: set<TileEntity>, score: real)
    requires MetricLaws(m.DistanceFunc) && check in g && g[check] >= 0.0
    requires KeysState(m, start, finish, g, f, from, open, closed)
    requires node in g && score == g[check] + m.Distance(node, finish) && score < g[node]
    ensures KeysState(m, start, finish, g[node := score], f[node := score + m.Distance(node, finish)],
                      from[node := check], open, closed)
  {
    assert node != start;
    assert from[node := check].Keys == from.Keys;
  }

  lemma {:induction false} RescoreFrom(m: TileMap, finish: TileEntity, check: TileEntity, node: TileEntity,
                    g: map<TileEntity, real>, from: map<TileEntity, TileEntity>, closed: set<TileEntity>, score: real)
    requires check in closed && check in g && Step(m, check, node)
    requires FromState(m, finish, g, from, closed)
    requires node in g && score == g[check] + m.Distance(node, finish) && score < g[node]
    ensures FromState(m, finish, g[node := score], from[node := check], closed)
  {
    var g', from' := g[node := score], from[node := check];
    forall n | n in from'
      ensures from'[n] in closed && n in g' && from'[n] in g' && Step(m, from'[n], n)
      ensures g'[n] >= g'[from'[n]] + m.Distance(n, finish)
    {
      if n != node {
        assert g'[from'[n]] <= g[from[n]];
      }
    }
  }

  /** Scoring and queueing an unscored tile reached from `check` keeps SearchState. */
  lemma {:induction false} Discover(m: TileMap, start: TileEntity, finish: TileEntity, check: TileEntity, node: TileEntity,
                 g: map<TileEntity, real>, f: map<TileEntity, real>, from: map<TileEntity, TileEntity>,
                 open: seq<TileEntity>, closed: set<TileEntity>, score: real)
    requires MetricLaws(m.DistanceFunc) && check in closed && Step(m, check, node)
    requires SearchState(m, start, finish, g, f, from, open, closed, {check})
    requires node !in g && score == g[check] + m.Distance(node, finish)
    ensures SearchState(m, start, finish, g[node := score], f[node := score + m.Distance(node, finish)],
                        from[node := check], open + [node], closed, {check})
  {
    DiscoverKeys(m, start, finish, check, node, g, f, from, open, closed, score);
    DiscoverFrom(m, finish, check, node, g, from, closed, score);
    ScoresUpdate(m, finish, g, f, node, score);
    ExploredMono(m, closed - {check}, g.Keys, g.Keys + {node});
    assert g[node := score].Keys == g.Keys + {node};
  }

  lemma {:induction false} DiscoverKeys(m: TileMap, start: TileEntity, finish: TileEntity, check: TileEntity, node: TileEntity,
                     g: map<TileEntity, real>, f: map<TileEntity, real>, from: map<TileEntity, TileEntity>,
                     open: seq<TileEntity>, closed: set<TileEntity>, score: real)
    requires Step(m, check, node)
    requires KeysState(m, start, finish, g, f, from, open, closed)
    requires node !in g
    ensures KeysState(m, start, finish, g[node := score], f[node := score + m.Distance(node, finish)],
                      from[node := check], open + [node], closed)
  {
    DistinctAppend(open, [node]);
    assert Elems([node]) == {node};
  }

  lemma {:induction false} DiscoverFrom(m: TileMap, finish: TileEntity, check: TileEntity, node: TileEntity,
                     g: map<TileEntity, real>, from: map<TileEntity, TileEntity>, closed: set<TileEntity>, score: real)
    requires check in closed && check in g && Step(m, check, node)
    requires FromState(m, finish, g, from, closed)
    requires node !in g && score == g[check] + m.Distance(node, finish)
    ensures FromState(m, finish, g[node := score], from[node := check], closed)
  {
    var g', from' := g[node := score], from[node := check];
    forall n | n in from'
      ensures from'[n] in closed && n in g' && from'[n] in g' && Step(m, from'[n], n)
      ensures g'[n] >= g'[from'[n]] + m.Distance(n, finish)
    {
      if n != node {
        assert from'[n] == from[n] && from[n] != node;
      }
    }
  }

  /**
   * The neighbour loop of FindPath for the tile `check` just closed: every
   * movable neighbour is relaxed in order, after which `check` has all its
   * moves scored.
   */
  method Expand(m: TileMap, start: TileEntity, finish: TileEntity, check: TileEntity,
                g: map<TileEntity, real>, f: map<TileEntity, real>, from: map<TileEntity, TileEntity>,
                open: seq<TileEntity>, ghost closed: set<TileEntity>)
    returns (g': map<TileEntity, real>, f': map<TileEntity, real>, from': map<TileEntity, TileEntity>,
             open': seq<TileEntity>)
    requires m.Valid() && MetricLaws(m.DistanceFunc) && check in closed
    requires SearchState(m, start, finish, g, f, from, open, closed, {check})
    ensures SearchState(m, start, finish, g', f', from', open', closed, {})
  {
    ValidValue(m, check);
    var ns := m.NeighborsMovable(check);
    g', f', from', open' := g, f, from, open;
    var j := 0;
    while j < |ns|
      invariant 0 <= j <= |ns|
      invariant SearchState(m, start, finish, g', f', from', open', closed, {check})
      invariant ScoredUpTo(m, check, ns, j, g'.Keys)
    {
      ghost var keys := g'.Keys;
      g', f', from', open' := Relax(m, start, finish, check, ns[j], g', f', from', open', closed);
      ScoredStep(m, check, ns, j, keys, g'.Keys);
      j := j + 1;
    }
    ExpandDone(m, check, ns, closed, g'.Keys);
  }

  /** Every one of the first `j` neighbours that is one move from `check` is scored. */
  ghost predicate ScoredUpTo(m: TileMap, check: TileEntity, ns: seq<TileEntity>, j: int, keys: set<TileEntity>)
  {
    forall k :: 0 <= k < j && k < |ns| && Step(m, check, ns[k]) ==> ns[k] in keys
  }

  lemma {:induction false} ScoredStep(m: TileMap, check: TileEntity, ns: seq<TileEntity>, j: int, keys: set<TileEntity>, keys': set<TileEntity>)
    requires 0 <= j < |ns| && ScoredUpTo(m, check, ns, j, keys) && keys <= keys'
    requires Step(m, check, ns[j]) ==> ns[j] in keys'
    ensures ScoredUpTo(m, check, ns, j + 1, keys')
  {
  }

  lemma {:induction false} ExpandDone(m: TileMap, check: TileEntity, ns: seq<TileEntity>, closed: set<TileEntity>, keys: set<TileEntity>)
    requires check in closed && check in m.Tiles.Values && m.HasSides(check.Position())
    requires ns == m.MovableNeighbours(check.Position())
    requires ExploredState(m, closed - {check}, keys)
    requires ScoredUpTo(m, check, ns, |ns|, keys)
    ensures ExploredState(m, closed, keys)
  {
    forall b | b in m.Tiles.Values && Step(m, check, b)
      ensures b in keys
    {
      var k :| 0 <= k < |ns| && ns[k] == b;
    }
    assert Explored(m, check, keys);
    assert closed == (closed - {check}) + {check};
  }

  /** Closing the open tile at `ci`, which is not `finish`, leaves it the one tile pending. */
  lemma {:induction false} Close(m: TileMap, start: TileEntity, finish: TileEntity, g: map<TileEntity, real>,
              f: map<TileEntity, real>, from: map<TileEntity, TileEntity>,
              open: seq<TileEntity>, closed: set<TileEntity>, ci: int)
    requires SearchState(m, start, finish, g, f, from, open, closed, {})
    requires 0 <= ci < |open| && open[ci] != finish
    ensures SearchState(m, start, finish, g, f, from, open[..ci] + open[ci + 1..], closed + {open[ci]}, {open[ci]})
  {
    var check := open[ci];
    assert open == open[..ci] + [check] + open[ci + 1..];
    DistinctParts(open[..ci] + [check], open[ci + 1..]);
    DistinctParts(open[..ci], [check]);
    DistinctAppend(open[..ci], open[ci + 1..]);
    assert Elems([check]) == {check};
    assert (closed + {check}) - {check} == closed - {};
  }

  /** An exhausted search has closed everything reachable, and `finish` is not among it. */
  lemma {:induction false} Exhausted(m: TileMap, start: TileEntity, finish: TileEntity, g: map<TileEntity, real>,
                  f: map<TileEntity, real>, from: map<TileEntity, TileEntity>, closed: set<TileEntity>)
    requires SearchState(m, start, finish, g, f, from, [], closed, {})
    ensures !Reachable(m, start, finish) && finish !in g
  {
    assert Elems<TileEntity>([]) == {};
    assert g.Keys == closed && closed - {} == closed;
    ClosedHoldsReachable(m, closed, start);
  }

  function Reverse<T>(s: seq<T>): (r: seq<T>)
    ensures |r| == |s| && forall i :: 0 <= i < |s| ==> r[i] == s[|s| - 1 - i]
  {
    if |s| == 0 then [] else Reverse(s[1..]) + [s[0]]
  }

  /**
   * The path walk-back of FindPath: from `finish` along CameFrom, then `start`,
   * reversed. It ends at `finish` exactly when `finish` was scored.
   */
  method Reconstruct(m: TileMap, start: TileEntity, finish: TileEntity, g: map<TileEntity, real>,
                     f: map<TileEntity, real>, from: map<TileEntity, TileEntity>,
                     ghost open: seq<TileEntity>, ghost closed: set<TileEntity>)
    returns (path: seq<TileEntity>)
    requires m.Valid() && MetricLaws(m.DistanceFunc)
    requires SearchState(m, start, finish, g, f, from, open, closed, {})
    ensures |path| > 0 && path[0] == start && Walk(m, path, start, path[|path| - 1]) && Distinct(path)
    ensures finish in g ==> path[|path| - 1] == finish
    ensures finish !in g ==> path == [start]
  {
    var back := [];
    var current := finish;
    while current in from
      invariant BackState(finish, g, from, closed, back, current)
      decreases g.Keys - Elems(back)
    {
      BackStep(m, finish, g, from, closed, back, current);
      back := back + [current];
      current := from[current];
    }
    path := Reverse(back + [start]);
    BackDone(m, start, finish, g, f, from, open, closed, back, current);
  }

  /**
   * The walk-back so far: `back` runs from `finish` along CameFrom links to
   * the tile before `current`, without repeats, and every tile of it except
   * `finish` scores strictly above `current`.
   */
  ghost predicate BackState(finish: TileEntity, g: map<TileEntity, real>, from: map<TileEntity, TileEntity>,
                            closed: set<TileEntity>, back: seq<TileEntity>, current: TileEntity)
  {
    && (|back| == 0 ==> current == finish)
    && (forall i :: 0 <= i < |back| ==> back[i] in from)
    && (forall i :: 0 <= i < |back| - 1 ==> back[i + 1] == from[back[i]])
    && (|back| > 0 ==> back[0] == finish && finish in g && current in closed && current == from[back[|back| - 1]])
    && Distinct(back) && current !in Elems(back) && Elems(back) <= g.Keys
    && (forall i :: 0 <= i < |back| && back[i] != finish ==> back[i] in g && current in g && g[back[i]] > g[current])
  }

  /** Two distinct tiles of a valid map are a positive distance apart under a metric. */
  lemma {:induction false} DistancePositive(m: TileMap, a: TileEntity, b: TileEntity)
    requires m.Valid() && MetricLaws(m.DistanceFunc) && a in m.Tiles.Values && b in m.Tiles.Values && a != b
    ensures m.Distance(a, b) > 0.0
  {
    ValidValue(m, a);
    ValidValue(m, b);
  }

  /**
   * One step of the walk-back: the predecessor of `current` is closed, so it is
   * not `finish`, and its score is below that of every tile walked back over
   * but `finish`; so it is none of them.
   */
  lemma {:induction false} BackStep(m: TileMap, finish: TileEntity, g: map<TileEntity, real>, from: map<TileEntity, TileEntity>,
                 closed: set<TileEntity>, back: seq<TileEntity>, current: TileEntity)
    requires m.Valid() && MetricLaws(m.DistanceFunc)
    requires FromState(m, finish, g, from, closed) && finish !in closed && g.Keys <= m.Tiles.Values
    requires BackState(finish, g, from, closed, back, current) && current in from
    ensures BackState(finish, g, from, closed, back + [current], from[current])
    ensures current in g && g.Keys - Elems(back + [current]) < g.Keys - Elems(back)
  {
    var next := from[current];
    var back' := back + [current];
    assert g[current] >= g[next] + m.Distance(current, finish);
    if current != finish {
      DistancePositive(m, current, finish);
    }
    forall i | 0 <= i < |back'| && back'[i] != finish
      ensures back'[i] in g && next in g && g[back'[i]] > g[next]
    {
      if i < |back| {
        assert back'[i] == back[i];
      }
    }
    forall i | 0 <= i < |back'| - 1
      ensures back'[i + 1] == from[back'[i]]
    {
      assert back'[i] == back[i];
    }
    DistinctAppend(back, [current]);
    assert Elems(back') == Elems(back) + {current};
  }

  lemma {:induction false} DistinctReverse<T>(s: seq<T>)
    requires Distinct(s)
    ensures Distinct(Reverse(s))
  {
    var r := Reverse(s);
    forall i, j | 0 <= i < j < |r|
      ensures r[i] != r[j]
    {
      assert r[i] == s[|s| - 1 - i] && r[j] == s[|s| - 1 - j];
    }
  }

  /** The walk-back, with `start` appended and reversed, is a walk from `start`. */
  lemma {:induction false} BackWalk(m: TileMap, start: TileEntity, finish: TileEntity, g: map<TileEntity, real>,
                 from: map<TileEntity, TileEntity>, closed: set<TileEntity>, back: seq<TileEntity>)
    requires FromState(m, finish, g, from, closed) && start in m.Tiles.Values && start !in from
    requires forall i :: 0 <= i < |back| ==> back[i] in from
    requires forall i :: 0 <= i < |back| - 1 ==> back[i + 1] == from[back[i]]
    requires |back| > 0 ==> from[back[|back| - 1]] == start
    requires Distinct(back)
    ensures var b := back + [start]; Walk(m, Reverse(b), start, b[0]) && Distinct(Reverse(b))
  {
    var b := back + [start];
    var r := Reverse(b);
    var n := |b|;
    forall k | 0 <= k < n - 1
      ensures b[k] in from && b[k + 1] == from[b[k]]
    {
      assert b[k] == back[k];
    }
    forall i | 0 <= i < n - 1
      ensures Step(m, r[i], r[i + 1])
    {
      var k := n - 2 - i;
      assert r[i] == b[k + 1] && r[i + 1] == b[k];
    }
    forall i | 0 <= i < n
      ensures r[i] in m.Tiles.Values
    {
      var k := n - 1 - i;
      assert r[i] == b[k];
      if k < n - 1 {
        assert Step(m, from[b[k]], b[k]);
      }
    }
    DistinctAppend(back, [start]);
    DistinctReverse(b);
  }

  /** After the walk-back, the reversed path ends at `finish` when it was scored and is `[start]` otherwise. */
  lemma {:induction false} BackDone(m: TileMap, start: TileEntity, finish: TileEntity, g: map<TileEntity, real>,
                 f: map<TileEntity, real>, from: map<TileEntity, TileEntity>,
                 open: seq<TileEntity>, closed: set<TileEntity>, back: seq<TileEntity>, current: TileEntity)
    requires SearchState(m, start, finish, g, f, from, open, closed, {})
    requires BackState(finish, g, from, closed, back, current) && current !in from
    ensures var path := Reverse(back + [start]);
      && |path| > 0 && path[0] == start && Walk(m, path, start, path[|path| - 1]) && Distinct(path)
      && (finish in g ==> path[|path| - 1] == finish)
      && (finish !in g ==> path == [start])
  {
    var path := Reverse(back + [start]);
    if |back| > 0 {
      assert current == start;
    } else if finish in g {
      assert finish == start;
    }
    BackWalk(m, start, finish, g, from, closed, back);
    if |back| == 0 {
      assert path == [start];
    }
  }

  /**
   * FindPath: A*-style search from `start` towards `finish`. A non-vacant
   * `finish` gives the empty path. Otherwise the result is a walk from
   * `start` without repeats; it ends at `finish` exactly when `finish` is
   * reachable, and it is `[start]` alone when it is not or when `finish` is `start`.
   */
  method FindPath(m: TileMap, start: TileEntity, finish: TileEntity) returns (path: seq<TileEntity>)
    requires m.Valid() && MetricLaws(m.DistanceFunc) && start in m.Tiles.Values && finish.VacantDefined()
    ensures !finish.Vacant() ==> path == []
    ensures finish.Vacant() ==> |path| > 0 && path[0] == start && Walk(m, path, start, path[|path| - 1]) && Distinct(path)
    ensures finish.Vacant() ==> (path[|path| - 1] == finish <==> Reachable(m, start, finish))
    ensures finish.Vacant() && !Reachable(m, start, finish) ==> path == [start]
    ensures finish.Vacant() && finish == start ==> path == [start]
  {
    path := [];
    if !finish.Vacant() {
      return;
    }
    var g, f, from, open, closed, found := Search(m, start, finish);
    path := Reconstruct(m, start, finish, g, f, from, open, closed);
    if found {
      assert WalkIn(m, path, start, finish, m.Tiles.Values);
    } else {
      ReachableSelf(m, start);
    }
    if finish == start {
      ReachableSelf(m, start);
    }
  }

  /**
   * The main loop of FindPath: repeatedly take the open tile of lowest ScoreF
   * (the first such in order), stop at `finish`, otherwise close it and relax
   * its neighbours. It stops with `finish` scored, or with nothing open and
   * `finish` unreachable.
   */
  method Search(m: TileMap, start: TileEntity, finish: TileEntity)
    returns (g: map<TileEntity, real>, f: map<TileEntity, real>, from: map<TileEntity, TileEntity>,
             open: seq<TileEntity>, ghost closed: set<TileEntity>, found: bool)
    requires m.Valid() && MetricLaws(m.DistanceFunc) && start in m.Tiles.Values
    ensures SearchState(m, start, finish, g, f, from, open, closed, {})
    ensures found ==> finish in g
    ensures !found ==> finish !in g && !Reachable(m, start, finish)
  {
    open := [start];
    closed := {};
    f := map[start := m.Distance(start, finish)];
    g := map[start := 0.0];
    from := map[];
    found := false;
    assert Elems(open) == {start};
    while |open| > 0 && !found
      invariant SearchState(m, start, finish, g, f, from, open, closed, {})
      invariant found ==> finish in g
      decreases if found then 0 else 1, m.Tiles.Values - closed
    {
      var ci := LowestScore(open, f);
      var check := open[ci];
      if check == finish {
        found := true;
      } else {
        // Every open tile is unclosed, so the source's skip of a closed tile never happens.
        Close(m, start, finish, g, f, from, open, closed, ci);
        closed := closed + {check};
        open := open[..ci] + open[ci + 1..];
        g, f, from, open := Expand(m, start, finish, check, g, f, from, open, closed);
      }
    }
    if !found {
      Exhausted(m, start, finish, g, f, from, closed);
    }
  }

  /**
   * What TrimPath leaves of `path`: a prefix, non-empty when `path` is, each
   * of whose partial sums of step distances is within `range`, and which is
   * cut just before the first step that would exceed it.
   */
  ghost predicate Trimmed(m: TileMap, path: seq<TileEntity>, range: real, r: seq<TileEntity>)
  {
    && |r| <= |path| && r == path[..|r|] && (|path| > 0 ==> |r| > 0)
    && (forall k :: 2 <= k <= |r| ==> PathCost(m, path[..k]) <= range)
    && (|r| < |path| ==> PathCost(m, path[..|r| + 1]) > range)
  }

  /** NodePathFinder.TrimPath: walk the path adding step distances, and drop everything from the first step past `range`. */
  method TrimPath(m: TileMap, path: seq<TileEntity>, range: real) returns (r: seq<TileEntity>)
    ensures Trimmed(m, path, range, r)
  {
    var distance := 0.0;
    var trimIndex := -1;
    var i := 0;
    while i < |path| - 1
      invariant 0 <= i && (|path| > 0 ==> i < |path|)
      invariant trimIndex == -1
      invariant |path| > 0 ==> distance == PathCost(m, path[..i + 1])
      invariant forall k :: 2 <= k <= i + 1 && k <= |path| ==> PathCost(m, path[..k]) <= range
    {
      var step := distance + m.Distance(path[i], path[i + 1]);
      assert path[..i + 2][..i + 1] == path[..i + 1];
      if step <= range {
        distance := step;
      } else {
        trimIndex := i + 1;
        break;
      }
      i := i + 1;
    }
    if trimIndex >= 0 {
      r := path[..trimIndex];
    } else {
      r := path;
      assert path[..|path|] == path;
    }
  }

  /** Trimmed pins the result down: there is only one trimmed prefix. */
  lemma {:induction false} TrimmedUnique(m: TileMap, path: seq<TileEntity>, range: real, r1: seq<TileEntity>, r2: seq<TileEntity>)
    requires Trimmed(m, path, range, r1) && Trimmed(m, path, range, r2)
    ensures r1 == r2
  {
  }

  /** With non-negative distances a longer prefix never costs less. */
  lemma {:induction false} PathCostPrefixMono(m: TileMap, w: seq<TileEntity>, j: int, k: int)
    requires MetricLaws(m.DistanceFunc) && 0 <= j <= k <= |w|
    ensures PathCost(m, w[..j]) <= PathCost(m, w[..k])
    decreases k - j
  {
    if j < k {
      PathCostPrefixMono(m, w, j, k - 1);
      var v := w[..k];
      assert v[..|v| - 1] == w[..k - 1];
    }
  }

  /** Under a metric the trimmed path is the longest prefix whose length is within `range`, or the start alone. */
  lemma {:induction false} TrimmedLongest(m: TileMap, path: seq<TileEntity>, range: real, r: seq<TileEntity>)
    requires MetricLaws(m.DistanceFunc) && Trimmed(m, path, range, r)
    ensures |r| >= 2 ==> PathCost(m, r) <= range
    ensures forall k :: |r| < k <= |path| ==> PathCost(m, path[..k]) > range
  {
    if |r| < |path| {
      ExceedsAfter(m, path, |r| + 1, range);
    }
  }

  /** Once a prefix costs more than `range`, so does every longer one. */
  lemma {:induction false} ExceedsAfter(m: TileMap, path: seq<TileEntity>, j: int, range: real)
    requires MetricLaws(m.DistanceFunc) && 0 <= j <= |path| && PathCost(m, path[..j]) > range
    ensures forall k :: j <= k <= |path| ==> PathCost(m, path[..k]) > range
  {
    forall k | j <= k <= |path|
      ensures PathCost(m, path[..k]) > range
    {
      PathCostPrefixMono(m, path, j, k);
    }
  }

  /** What FindPath promises of its result. */
  ghost predicate FoundPath(m: TileMap, start: TileEntity, finish: TileEntity, path: seq<TileEntity>)
    requires finish.VacantDefined()
  {
    && (!finish.Vacant() ==> path == [])
    && (finish.Vacant() ==> |path| > 0 && path[0] == start && Walk(m, path, start, path[|path| - 1]) && Distinct(path))
    && (finish.Vacant() ==> (path[|path| - 1] == finish <==> Reachable(m, start, finish)))
    && (finish.Vacant() && !Reachable(m, start, finish) ==> path == [start])
  }

  /**
   * NodePathFinder.Path(map, start, finish): no path (null) between tiles of
   * different movable areas, otherwise FindPath.
   */
  method Path(m: TileMap, start: TileEntity, finish: TileEntity) returns (r: Option<seq<TileEntity>>)
    requires m.Valid() && MetricLaws(m.DistanceFunc) && start in m.Tiles.Values && finish.VacantDefined()
    ensures r.None? <==> start.MovableArea != finish.MovableArea
    ensures r.Some? ==> FoundPath(m, start, finish, r.value)
  {
    if start.MovableArea != finish.MovableArea {
      return None;
    }
    var full := FindPath(m, start, finish);
    r := Some(full);
  }

  /**
   * NodePathFinder.Path(map, start, finish, range): as Path, with the found
   * path trimmed to `range`.
   */
  method PathWithin(m: TileMap, start: TileEntity, finish: TileEntity, range: real) returns (r: Option<seq<TileEntity>>)
    requires m.Valid() && MetricLaws(m.DistanceFunc) && start in m.Tiles.Values && finish.VacantDefined()
    ensures r.None? <==> start.MovableArea != finish.MovableArea
    ensures r.Some? ==> exists full :: FoundPath(m, start, finish, full) && Trimmed(m, full, range, r.value)
    ensures r.Some? && finish.Vacant() ==> |r.value| > 0 && r.value[0] == start
    ensures r.Some? && !finish.Vacant() ==> r.value == []
  {
    if start.MovableArea != finish.MovableArea {
      return None;
    }
    var full := FindPath(m, start, finish);
    var trimmed := TrimPath(m, full, range);
    r := Some(trimmed);
  }
}

# ProtoTiles tile-grid engine in Dafny

This project models the integer core of ProtoTiles, the tile-map engine of
the TacticsGame Unity project, and proves properties of that model. The
engine works on hex and square grids. It keeps the following:

- cells as integer triples (`Vector3Int`): cube coordinates `x + y + z = 0`
  on hex maps, the `y = 0` plane on square maps;
- a tile dictionary from cell to `TileEntity`, each tile carrying the search
  flags `Depth`, `Visited` and `Considered`;
- a per-grid table of neighbour directions.

On top of that it provides:

- **Lattice tables and metrics** (`hex.dfy`, `square.dfy`): the neighbour
  tables, the hex cube distance, cube rounding, world-to-square rounding and
  the integer `Area` enumerations.
- **Tiles** (`tiles.dfy`): the stored record `TileData`, the tile preset, the
  movability conditions (`Not`, `HaveTag`, others uninterpreted) and the
  runtime `TileEntity` with its vacancy test.
- **The tile graph** (`map_node.dfy`, `tile_reset.dfy`): class `TileMap` stands
  for both `IMapNode` implementations, `MapEntity` and `MapEntityMock`. It
  gives tile lookup, raw and movable neighbours, the full and radius-bounded
  resets of the search flags, and the left/right turn of `IMapDirectional`.
- **The path finder** (`path_finder.dfy`): the two breadth-first expansions
  `AccessibleArea` and `WalkableArea`/`WalkableAreaPositions`, the A*-style
  `FindPath`, `TrimPath`, and both `Path` overloads behind the movable-area
  guard.
- **Map queries** (`map_entity.dfy`): `NearestPosition` and `PathTiles`.
- **The border tracer** (`map_border.dfy`): `FindBorderPositions`, a
  wall-following walk emitting `(tile, vertex index)` points.
- **Map data operations** (`map_settings.dfy`): class `MapSettings` with preset
  removal, tile lookup, opposite side index, tile-dictionary creation,
  rectangular map generation and the region labelling of `MarkAreas`.
- **Utilities**: dictionary get-or-default/get-or-create
  (`dictionary_extensions.dfy`), the flatten/rebuild round trip of
  `SerializableDictionary` (`serializable_dictionary.dfy`), the column string
  builder (`enumerable_extensions.dfy`) and the lock counter (`locker.dfy`).

Code that updates state in place stays imperative in the model. Classes
hold the mutated fields, methods carry `modifies` frames, and loops carry
their invariants. Examples are the tile flags, the open/closed lists and
score dictionaries of the searches, the border loop and the map lists.
Each such method is specified against functions or predicates of its inputs
(`Layout`, `WithoutPreset`, `Records`, `Points`, `Trace`, `Trimmed`,
`Reachable`, `Walk`), and lemmas prove the properties of those.

Some behaviours are kept exactly as the code has them:

- The A* g-score adds `Distance(node, finish)` instead of the edge cost.
- Cube rounding recomputes Y whenever `diffY > diffX`, even when Z has the
  largest error.
- `Hex.Area` ignores `origin`.
- `Square.Area` adds `origin` twice and measures from world zero.
- The mock map always resets a hex diamond.
- `ChangeMovableAreaPreset` leaves the cached `MovableArea` unchanged.
- Movable neighbours are decided by the origin tile's side heights alone.

The two area functions have corrected counterparts; they are listed under
"## Findings".

Several parts of the system are parameters of the model:

- **Floats** are `real`. `float.MaxValue` is the constant `MaxFloat`.
- **Stand-ins for engine calls:**
  - `Mathf.RoundToInt` is a parameter `round`.
  - The float matrix conversion of `WorldToHexCube` is a parameter
    `fractional`.
  - The square root inside `Vector3Int.Distance` is a parameter `sqrt`,
    constrained by `SqrtLaws`.
- **A map's distance delegate** is a parameter constrained by `MetricLaws`:
  non-negative, symmetric, zero exactly on equal cells. `Hex.HexDistanceMetric`
  and `Square.DistanceMetric` prove that the installed delegates satisfy these
  laws.
- **Enumeration orders of `Dictionary` and `HashSet`** are unspecified:
  - a `:|` choice in `MarkAreas`;
  - an explicit `order` argument in `FindBorderPositions`;
  - the result set itself in the area searches.

## Model

| member | source | states |
|---|---|---|
| Hex.NeighbourTable | Assets/RedBjorn/ProtoTiles/Map/Scripts/Runtime/Presets/Hex.cs:19-27 | the hex table has six entries, each with x + y + z = 0 |
| Hex.NeighbourOpposite | Assets/RedBjorn/ProtoTiles/Map/Scripts/Runtime/Presets/Hex.cs:19-27 | entry i + 3 is the negation of entry i, and entry i the negation of entry i + 3 |
| Hex.HexCubeDistance | Assets/RedBjorn/ProtoTiles/Map/Scripts/Runtime/Presets/Hex.cs:120-123 | the distance is non-negative, bounds every absolute component difference and equals one of them (their maximum) |
| Hex.DistanceSymmetric | Assets/RedBjorn/ProtoTiles/Map/Scripts/Runtime/Presets/Hex.cs:120-123 | the cube distance is symmetric |
| Hex.DistanceZeroIff | Assets/RedBjorn/ProtoTiles/Map/Scripts/Runtime/Presets/Hex.cs:120-123 | the cube distance is 0 exactly when the cells are equal |
| Hex.DistanceToNeighbour | Assets/RedBjorn/ProtoTiles/Map/Scripts/Runtime/Presets/Hex.cs:120-123 | every cell is at distance 1 from the cell one table step away |
| Hex.HexDistanceMetric | Assets/RedBjorn/ProtoTiles/Map/Scripts/Runtime/Presets/Hex.cs:120-123 | the float distance delegate of hex maps satisfies the metric laws the path finder relies on |
| Hex.HexCubeNearest | Assets/RedBjorn/ProtoTiles/Map/Scripts/Runtime/Presets/Hex.cs:89-112 | the result satisfies x + y + z = 0 for any rounding; X is recomputed only when its error is strictly largest, else Y when diffY > diffX, else Z, and the other two are the plain rounded values |
| Hex.NearestCorrectsYBeforeZ | Assets/RedBjorn/ProtoTiles/Map/Scripts/Runtime/Presets/Hex.cs:99-110 | with diffX < diffY < diffZ the Z and X components stay rounded and Y is recomputed, although Z has the largest error |
| Hex.WorldToHexCube | Assets/RedBjorn/ProtoTiles/Map/Scripts/Runtime/Presets/Hex.cs:157-160 | the world-to-cube conversion always yields a cube coordinate, namely the rounding of the fractional conversion |
| Hex.BallIsBox | Assets/RedBjorn/ProtoTiles/Map/Scripts/Runtime/Presets/Hex.cs:179-193 | a cube cell is within distance r of (0,0,0) exactly when each component lies in [-r, r] |
| Hex.Area | Assets/RedBjorn/ProtoTiles/Map/Scripts/Runtime/Presets/Hex.cs:179-193 | the list holds exactly the cube cells within distance floor(range) of (0,0,0), each once, ordered by x then y; it is empty for a negative range; `origin` plays no part |
| Hex.AreaIgnoresOrigin | Assets/RedBjorn/ProtoTiles/Map/Scripts/Runtime/Presets/Hex.cs:179-193 | at range 0 the area holds (0,0,0) and not the origin, for any origin other than (0,0,0) |
| Hex.AreaAround | Assets/RedBjorn/ProtoTiles/Map/Scripts/Runtime/Presets/Hex.cs:173-193 | the corrected area: exactly the cells whose offset from origin is a cube cell within floor(range), each once, and empty for a negative range |
| Square.NeighbourTable | Assets/RedBjorn/ProtoTiles/Map/Scripts/Runtime/Presets/Square.cs:16-22 | the square table has four entries, all with y = 0 |
| Square.NeighbourOpposite | Assets/RedBjorn/ProtoTiles/Map/Scripts/Runtime/Presets/Square.cs:16-22 | entry i + 2 is the negation of entry i and back |
| Square.SqrMagnitudeZero | Assets/RedBjorn/ProtoTiles/Map/Scripts/Runtime/Presets/Square.cs:140 | a squared length is non-negative and zero only for the zero vector |
| Square.DistanceSymmetric | Assets/RedBjorn/ProtoTiles/Map/Scripts/Runtime/Presets/Square.cs:78-81 | the Euclidean distance is symmetric |
| Square.DistanceZeroIff | Assets/RedBjorn/ProtoTiles/Map/Scripts/Runtime/Presets/Square.cs:78-81 | the distance is non-negative and 0 exactly on equal cells |
| Square.DistanceToNeighbour | Assets/RedBjorn/ProtoTiles/Map/Scripts/Runtime/Presets/Square.cs:56-81 | every neighbour is exactly DistanceBetweenCenters = 1 away |
| Square.DistanceMetric | Assets/RedBjorn/ProtoTiles/Map/Scripts/Runtime/Presets/Square.cs:78-81 | a delegate computing Distance satisfies the metric laws |
| Square.WorldToSquare | Assets/RedBjorn/ProtoTiles/Map/Scripts/Runtime/Presets/Square.cs:100-103 | the cell always has y = 0, and x and z are the roundings of the scaled coordinates |
| Square.Area | Assets/RedBjorn/ProtoTiles/Map/Scripts/Runtime/Presets/Square.cs:122-147 | [origin] for range <= 0; otherwise exactly the cells on origin's plane with x within ceil(range) of 2 * origin.x and z within ceil(range) of 2 * origin.z (origin added twice) whose squared length from world zero is within range², each once, ordered by x then z |
| Square.AreaAtZeroIsDisc | Assets/RedBjorn/ProtoTiles/Map/Scripts/Runtime/Presets/Square.cs:128-145 | around world zero the kept cells are exactly the lattice disc of radius range in the y = 0 plane |
| Square.AreaAwayFromZero | Assets/RedBjorn/ProtoTiles/Map/Scripts/Runtime/Presets/Square.cs:131-142 | around (5,0,0) with range 1 no candidate is kept, although (5,0,0) is within range of itself |
| Square.AreaAround | Assets/RedBjorn/ProtoTiles/Map/Scripts/Runtime/Presets/Square.cs:116-147 | the corrected area: [origin] for range <= 0, otherwise exactly the cells on origin's plane whose offset from origin has squared length within range², each once |
| Tiles.TileData.constructor | Assets/RedBjorn/ProtoTiles/Map/Scripts/Runtime/Map/Tiles/TileData.cs:7-13 | a new record holds its position, preset id and side heights, with MovableArea 0 |
| Tiles.NotIsMet | Assets/RedBjorn/ProtoTiles/Map/Scripts/Runtime/Map/Tiles/Conditions/Not.cs:10-13 | Not without an inner condition is false; otherwise it is the negation of the inner condition |
| Tiles.NotNot | Assets/RedBjorn/ProtoTiles/Map/Scripts/Runtime/Map/Tiles/Conditions/Not.cs:10-13 | Not around Not around a condition evaluates to that condition |
| Tiles.HaveTagIsMet | Assets/RedBjorn/ProtoTiles/Map/Scripts/Runtime/Map/Tiles/Conditions/HaveTag.cs:10-13 | HaveTag holds exactly when the preset's tag list contains the tag; it needs a preset |
| Tiles.HaveTagOnlyTags | Assets/RedBjorn/ProtoTiles/Map/Scripts/Runtime/Map/Tiles/Conditions/HaveTag.cs:10-13 | two tiles whose presets have the same tags give the same answer, whatever their positions and sides |
| Tiles.HaveTagEmpty | Assets/RedBjorn/ProtoTiles/Map/Scripts/Runtime/Map/Tiles/Conditions/HaveTag.cs:10-13 | an empty tag list gives false |
| Tiles.TileEntity.constructor | Assets/RedBjorn/ProtoTiles/Map/Scripts/Runtime/Map/Tiles/TileEntity.cs:36-42 | the entity keeps record, preset and rules and copies the record's MovableArea into its cache; flags start cleared and Depth 0 |
| Tiles.TileEntity.Position | Assets/RedBjorn/ProtoTiles/Map/Scripts/Runtime/Map/Tiles/TileEntity.cs:32 | the record's position, or zero without a record |
| Tiles.TileEntity.NeighbourMovable | Assets/RedBjorn/ProtoTiles/Map/Scripts/Runtime/Map/Tiles/TileEntity.cs:31 | the record's own side heights, or none without a record |
| Tiles.TileEntity.ChangeMovableAreaPreset | Assets/RedBjorn/ProtoTiles/Map/Scripts/Runtime/Map/Tiles/TileEntity.cs:49-52 | the record's MovableArea becomes the new area, while the cached MovableArea stays as it was |
| Tiles.VacantWithoutRule | Assets/RedBjorn/ProtoTiles/Map/Scripts/Runtime/Map/Tiles/TileEntity.cs:16-26 | a tile without record, rules or movability condition is vacant |
| Tiles.VacantWithRule | Assets/RedBjorn/ProtoTiles/Map/Scripts/Runtime/Map/Tiles/TileEntity.cs:16-26 | otherwise vacancy is exactly the movability condition, the obstacle count being 0 |
| Tiles.KeyedInjective | Assets/RedBjorn/ProtoTiles/Map/Scripts/Runtime/Map/Map/MapSettings.cs:267 | in a dictionary keyed by each record's position, an entity sits under one key only: its own position |
| MapNode.TileMap.constructor | Assets/RedBjorn/ProtoTiles/Map/Scripts/Runtime/Map/Map/MapEntity.cs:30-57 | the graph holds the given tiles, direction table, distance delegate and kind |
| MapNode.TileMap.Tile | Assets/RedBjorn/ProtoTiles/Map/Scripts/Runtime/Map/Map/MapEntity.cs:74-77 | the stored tile when the cell is a key, null exactly when it is not; nothing changes |
| MapNode.TileMap.Distance | Assets/RedBjorn/ProtoTiles/Map/Scripts/Runtime/Map/Map/MapEntity.cs:476-479 | MaxValue when either tile is null, otherwise the delegate on the two positions (the mock's Distance at MapEntityMock.cs:14-17 is the same) |
| MapNode.TileMap.Neighbours | Assets/RedBjorn/ProtoTiles/Map/Scripts/Runtime/Map/Map/MapEntity.cs:481-488 | one entry per direction, in table order: the tile at node + direction, or null |
| MapNode.TileMap.NeighborsMovable | Assets/RedBjorn/ProtoTiles/Map/Scripts/Runtime/Map/Map/MapEntity.cs:490-505 | the present neighbours in the directions whose side height on the node's own tile is <= 0, in table order; it needs the node's tile and its side heights |
| MapNode.TileMap.MovableNeighboursMeaning | Assets/RedBjorn/ProtoTiles/Map/Scripts/Runtime/Map/Map/MapEntityMock.cs:29-44 | a tile is a movable neighbour exactly when some direction open on the node's side leads to it; the neighbour's own sides are never read |
| MapNode.TileMap.Reset | Assets/RedBjorn/ProtoTiles/Map/Scripts/Runtime/Map/Map/MapEntity.cs:507-515 | every tile gets Depth = MaxValue and both flags cleared (the same as MapEntityMock.cs:46-54) |
| MapNode.TileMap.ResetAround | Assets/RedBjorn/ProtoTiles/Map/Scripts/Runtime/Map/Map/MapEntityMock.cs:56-75 | the mock resets exactly the present tiles within hex distance ceil(range) around the start, whichever table is installed; MapEntity (MapEntity.cs:517-524) uses its grid's reset and does nothing without a start; tiles outside stay unchanged |
| MapNode.TileMap.TurnLeft | Assets/RedBjorn/ProtoTiles/Map/Scripts/Runtime/Map/Map/MapEntity.cs:528-532 | the table entry after the index of -d, wrapping; entry 0 when -d is missing; always a table member |
| MapNode.TileMap.TurnRight | Assets/RedBjorn/ProtoTiles/Map/Scripts/Runtime/Map/Map/MapEntity.cs:534-542 | the entry before the index of -d, index 0 wrapping to the last entry; defined when -d is in the table |
| MapNode.TurnRightThenLeft | Assets/RedBjorn/ProtoTiles/Map/Scripts/Runtime/Map/Map/MapEntity.cs:528-542 | on a table whose entry half-way round is the negation, TurnLeft(TurnRight(d)) == d |
| MapNode.TurnLeftThenRight | Assets/RedBjorn/ProtoTiles/Map/Scripts/Runtime/Map/Map/MapEntity.cs:528-542 | on such a table TurnRight(TurnLeft(d)) == d |
| MapNode.HexTableOpposite | Assets/RedBjorn/ProtoTiles/Map/Scripts/Runtime/Presets/Hex.cs:19-27 | the hex table is distinct and has the negation of each entry half-way round |
| MapNode.SquareTableOpposite | Assets/RedBjorn/ProtoTiles/Map/Scripts/Runtime/Presets/Square.cs:16-22 | the square table is distinct and has the negation of each entry half-way round |
| TileReset.ResetTile | Assets/RedBjorn/ProtoTiles/Map/Scripts/Runtime/Map/Map/MapSettings.cs:614-619 | a tile gets Depth = MaxValue and both flags cleared |
| TileReset.ResetHex | Assets/RedBjorn/ProtoTiles/Map/Scripts/Runtime/Map/Map/MapSettings.cs:604-622 | exactly the present tiles at start + v for cube cells v within distance ceil(range) are reset; every other tile keeps its flags |
| TileReset.ResetSquare | Assets/RedBjorn/ProtoTiles/Map/Scripts/Runtime/Map/Map/MapSettings.cs:624-640 | exactly the present tiles at start + (x, 0, z) with x, z in [-ceil(range), ceil(range)] are reset; every other tile keeps its flags |
| NodePathFinder.ClosedHoldsReachable | Assets/RedBjorn/ProtoTiles/Map/Scripts/Runtime/Nodes/NodePathFinder.cs:21-37 | a set holding the origin whose every member has all its movable vacant neighbours inside holds every tile reachable from the origin |
| NodePathFinder.AccessibleArea | Assets/RedBjorn/ProtoTiles/Map/Scripts/Runtime/Nodes/NodePathFinder.cs:13-39 | after a full reset: the result holds the origin and only tiles reachable from it by movable steps onto vacant tiles; with at most 100000 tiles it holds all of them; exactly the result is Visited, its members Considered, every Depth MaxValue |
| NodePathFinder.FillRound | Assets/RedBjorn/ProtoTiles/Map/Scripts/Runtime/Nodes/NodePathFinder.cs:23-35 | one pass closes the queue head, enqueues its unconsidered vacant movable neighbours once each, and keeps the queue/closed/flag invariant |
| NodePathFinder.PathCostNonNegative | Assets/RedBjorn/ProtoTiles/Map/Scripts/Runtime/Nodes/NodePathFinder.cs:56 | under the metric laws the summed distance of a walk is non-negative |
| NodePathFinder.WalkableArea | Assets/RedBjorn/ProtoTiles/Map/Scripts/Runtime/Nodes/NodePathFinder.cs:41-70 | origin.Depth is 0 and the origin is in the result; every member is Visited, Considered and reachable; every other member is vacant with Depth <= range; each Depth is the cost of a walk from the origin; a negative range gives just the origin |
| NodePathFinder.WithinRound | Assets/RedBjorn/ProtoTiles/Map/Scripts/Runtime/Nodes/NodePathFinder.cs:52-66 | one pass closes the head and enqueues the unconsidered vacant neighbours within range, giving each its Depth once, keeping the walk-cost invariant |
| NodePathFinder.WalkableAreaPositions | Assets/RedBjorn/ProtoTiles/Map/Scripts/Runtime/Nodes/NodePathFinder.cs:72-101 | the positions of the same set: the origin's position is in it, each position keys a Visited reachable tile whose Depth is a walk cost within range, and a negative range gives only the origin's position |
| NodePathFinder.LowestScore | Assets/RedBjorn/ProtoTiles/Map/Scripts/Runtime/Nodes/NodePathFinder.cs:141 | the open tile of least F score, the earliest in the open list among equal scores |
| NodePathFinder.Relax | Assets/RedBjorn/ProtoTiles/Map/Scripts/Runtime/Nodes/NodePathFinder.cs:155-173 | scoring one neighbour keeps the search invariant (every score non-negative, f = g + distance to finish, each predecessor link one move from a closed tile), keeping every scored tile scored; a neighbour one vacant move away ends up scored |
| NodePathFinder.Expand | Assets/RedBjorn/ProtoTiles/Map/Scripts/Runtime/Nodes/NodePathFinder.cs:153-174 | after scoring the closed tile's neighbours the search invariant holds with that tile fully explored: each of its vacant movable neighbours is scored |
| NodePathFinder.Close | Assets/RedBjorn/ProtoTiles/Map/Scripts/Runtime/Nodes/NodePathFinder.cs:151-152 | moving an open tile other than finish to the closed list keeps the search invariant, with that tile still to be explored |
| NodePathFinder.Exhausted | Assets/RedBjorn/ProtoTiles/Map/Scripts/Runtime/Nodes/NodePathFinder.cs:139 | when the open list runs empty, finish is unreachable from start and was never scored |
| NodePathFinder.Search | Assets/RedBjorn/ProtoTiles/Map/Scripts/Runtime/Nodes/NodePathFinder.cs:133-175 | the loop ends with the search invariant; it stops with finish scored, or with nothing open and finish unreachable |
| NodePathFinder.Reconstruct | Assets/RedBjorn/ProtoTiles/Map/Scripts/Runtime/Nodes/NodePathFinder.cs:176-183 | following CameFrom back from finish and reversing gives a walk from start without repeats, ending at finish when finish was scored and [start] otherwise |
| NodePathFinder.BackStep | Assets/RedBjorn/ProtoTiles/Map/Scripts/Runtime/Nodes/NodePathFinder.cs:177-181 | each step back along CameFrom reaches a tile of strictly smaller g, so the walk back ends and repeats no tile |
| NodePathFinder.FindPath | Assets/RedBjorn/ProtoTiles/Map/Scripts/Runtime/Nodes/NodePathFinder.cs:122-186 | a non-vacant finish gives []; otherwise a walk from start of vacant movable steps without repeats, ending at finish exactly when finish is reachable, and exactly [start] when it is not or when finish is start |
| NodePathFinder.TrimPath | Assets/RedBjorn/ProtoTiles/Map/Scripts/Runtime/Nodes/NodePathFinder.cs:188-210 | the result is a prefix of the path, non-empty for a non-empty path, every prefix of two or more tiles up to it costs at most range, and the next longer prefix costs more |
| NodePathFinder.TrimmedUnique | Assets/RedBjorn/ProtoTiles/Map/Scripts/Runtime/Nodes/NodePathFinder.cs:188-210 | the trimmed prefix is determined by path and range |
| NodePathFinder.TrimmedLongest | Assets/RedBjorn/ProtoTiles/Map/Scripts/Runtime/Nodes/NodePathFinder.cs:188-210 | under the metric laws a kept prefix of two or more tiles costs at most range, and every longer prefix of the path costs more |
| NodePathFinder.PathCostPrefixMono | Assets/RedBjorn/ProtoTiles/Map/Scripts/Runtime/Nodes/NodePathFinder.cs:192-198 | under the metric laws a longer prefix never costs less |
| NodePathFinder.Path | Assets/RedBjorn/ProtoTiles/Map/Scripts/Runtime/Nodes/NodePathFinder.cs:113-120 | null exactly when the movable areas differ, otherwise a path meeting every promise of FindPath |
| NodePathFinder.PathWithin | Assets/RedBjorn/ProtoTiles/Map/Scripts/Runtime/Nodes/NodePathFinder.cs:103-111 | null exactly when the movable areas differ, otherwise a path meeting FindPath's promises, trimmed to range; it starts at start when finish is vacant and is empty when it is not |
| MapEntity.OrderBy | Assets/RedBjorn/ProtoTiles/Map/Scripts/Runtime/Map/Map/MapEntity.cs:262 | the stable sort: every direction index once, each before all later ones by key, equal keys in table order |
| MapEntity.NearestPosition | Assets/RedBjorn/ProtoTiles/Map/Scripts/Runtime/Map/Map/MapEntity.cs:259-273 | true exactly when some direction leads to a present tile meeting the condition; then the position of the candidate of least key, earliest in the table among equal keys; otherwise false and zero |
| MapEntity.FirstIsLeast | Assets/RedBjorn/ProtoTiles/Map/Scripts/Runtime/Map/Map/MapEntity.cs:262-270 | the first candidate met in sorted order comes before every other candidate |
| MapEntity.PathTiles | Assets/RedBjorn/ProtoTiles/Map/Scripts/Runtime/Map/Map/MapEntity.cs:282-294 | [] when the two tiles lie in different movable areas, otherwise the trimmed FindPath result |
| MapBorder.LeftVertex | Assets/RedBjorn/ProtoTiles/Map/Scripts/Runtime/Map/Map/MapBorder.cs:32 | for a table direction, (index + n - 1) % n: the index before it, wrapping, within [0, n) |
| MapBorder.RightVertex | Assets/RedBjorn/ProtoTiles/Map/Scripts/Runtime/Map/Map/MapBorder.cs:33 | the direction's own index, or -1 when it is not in the table |
| MapBorder.Highest | Assets/RedBjorn/ProtoTiles/Map/Scripts/Runtime/Map/Map/MapBorder.cs:35 | the Aggregate result: a cell of maximal z, and no later cell in enumeration order has that z |
| MapBorder.HighestAt | Assets/RedBjorn/ProtoTiles/Map/Scripts/Runtime/Map/Map/MapBorder.cs:35 | the index of that cell: its z is maximal and strictly above every later z |
| MapBorder.Advance | Assets/RedBjorn/ProtoTiles/Map/Scripts/Runtime/Map/Map/MapBorder.cs:74-94 | one pass of the walker leaves it on a table direction, whichever way it turns, so the next pass is defined |
| MapBorder.EmittedShape | Assets/RedBjorn/ProtoTiles/Map/Scripts/Runtime/Map/Map/MapBorder.cs:82-91 | a pass emits at most one point, for the cell it leaves, with an index in range, and none exactly when it does not cross the inside boundary |
| MapBorder.Points | Assets/RedBjorn/ProtoTiles/Map/Scripts/Runtime/Map/Map/MapBorder.cs:82-91 | every point emitted in the first k passes has a vertex index in [0, n) |
| MapBorder.PointsGrow | Assets/RedBjorn/ProtoTiles/Map/Scripts/Runtime/Map/Map/MapBorder.cs:51-91 | the border only grows: the points after j passes are among those after k >= j passes |
| MapBorder.TraceEntries | Assets/RedBjorn/ProtoTiles/Map/Scripts/Runtime/Map/Map/MapBorder.cs:58-98 | after k passes the steps list has k + 1 entries: the start entry, then per pass the new direction and the cell stepped from |
| MapBorder.FirstOutsideUnique | Assets/RedBjorn/ProtoTiles/Map/Scripts/Runtime/Map/Map/MapBorder.cs:39-49 | the first outside direction of the start cell is unique |
| MapBorder.Pass | Assets/RedBjorn/ProtoTiles/Map/Scripts/Runtime/Map/Map/MapBorder.cs:71-98 | one loop body: the new walker is Advance of the old, the emitted points are added and the step recorded |
| MapBorder.TraceBorder | Assets/RedBjorn/ProtoTiles/Map/Scripts/Runtime/Map/Map/MapBorder.cs:51-101 | the border is the two start vertices plus every point of the passes made; the walk stops at the first pass back at the start facing the first direction, or after 10001 passes; the steps list is extended by the trace |
| MapBorder.VerticesInRange | Assets/RedBjorn/ProtoTiles/Map/Scripts/Runtime/Map/Map/MapBorder.cs:32-33 | with a table closed under negation every vertex index the walk emits lies in [0, n) |
| MapBorder.FindBorderPositions | Assets/RedBjorn/ProtoTiles/Map/Scripts/Runtime/Map/Map/MapBorder.cs:29-103 | the start is the Aggregate cell of maximal z; with no outside neighbour the border is empty and steps unchanged; otherwise the result is the trace from the first outside direction; every vertex index is in range |
| MapSettings.FirstWhere | Assets/RedBjorn/ProtoTiles/Map/Scripts/Runtime/Map/Map/MapSettings.cs:181 | FirstOrDefault: the first index meeting the predicate, or -1 when none does |
| MapSettings.FindPreset | Assets/RedBjorn/ProtoTiles/Map/Scripts/Runtime/Map/Map/MapSettings.cs:266 | none exactly when no preset has the id, otherwise a preset with that id |
| MapSettings.WithoutPreset | Assets/RedBjorn/ProtoTiles/Map/Scripts/Runtime/Map/Map/MapSettings.cs:156 | RemoveAll: the kept tiles are exactly the tiles with another id |
| MapSettings.WithoutPresetConcat | Assets/RedBjorn/ProtoTiles/Map/Scripts/Runtime/Map/Map/MapSettings.cs:156 | removal works piecewise over concatenation, so the kept tiles stay in order |
| MapSettings.WithoutPresetNone | Assets/RedBjorn/ProtoTiles/Map/Scripts/Runtime/Map/Map/MapSettings.cs:156 | with no tile of that id the list is unchanged |
| MapSettings.Records | Assets/RedBjorn/ProtoTiles/Map/Scripts/Runtime/Map/Map/MapSettings.cs:260-270 | the record per position left by the loop: every listed position is a key, mapped to a listed record at that position |
| MapSettings.RecordsLast | Assets/RedBjorn/ProtoTiles/Map/Scripts/Runtime/Map/Map/MapSettings.cs:263-268 | a record with no later record at its position is the one kept |
| MapSettings.RecordsKeepLast | Assets/RedBjorn/ProtoTiles/Map/Scripts/Runtime/Map/Map/MapSettings.cs:263-268 | the record kept at each position is the last one listed there |
| MapSettings.LayoutShape | Assets/RedBjorn/ProtoTiles/Map/Scripts/Runtime/Map/Map/MapSettings.cs:424-477 | a fresh map has rows * columns cells (none for a non-positive side), pairwise distinct, cube cells on the hex grid and on y = 0 on the square grid |
| MapSettings.CellInjective | Assets/RedBjorn/ProtoTiles/Map/Scripts/Runtime/Map/Map/MapSettings.cs:438-474 | different (row, column) pairs give different cells |
| MapSettings.MapSettings.constructor | Assets/RedBjorn/ProtoTiles/Map/Scripts/Runtime/Map/Map/MapSettings.cs:109-117 | Init: the given grid type and rules, no presets and no tiles |
| MapSettings.MapSettings.NeighbourDirections | Assets/RedBjorn/ProtoTiles/Map/Scripts/Runtime/Map/Map/MapSettings.cs:91-102 | the hex table of six entries on hex maps, the square table of four on square maps |
| MapSettings.MapSettings.PresetRemove | Assets/RedBjorn/ProtoTiles/Map/Scripts/Runtime/Map/Map/MapSettings.cs:144-157 | an out-of-range index changes nothing; otherwise that preset goes and so does every tile with its id, the other tiles keeping their order |
| MapSettings.MapSettings.GetTile | Assets/RedBjorn/ProtoTiles/Map/Scripts/Runtime/Map/Map/MapSettings.cs:179-182 | null exactly when no record has the position, otherwise the first such record |
| MapSettings.MapSettings.TileNeighbourIndexOpposite | Assets/RedBjorn/ProtoTiles/Map/Scripts/Runtime/Map/Map/MapSettings.cs:219-227 | for a valid index, the valid index of the negated direction |
| MapSettings.OppositeInvolution | Assets/RedBjorn/ProtoTiles/Map/Scripts/Runtime/Map/Map/MapSettings.cs:219-227 | taking the opposite index twice gives the index back |
| MapSettings.HexOpposite | Assets/RedBjorn/ProtoTiles/Map/Scripts/Runtime/Map/Map/MapSettings.cs:223 | (index + 3) % 6 points at the negated hex direction |
| MapSettings.SquareOpposite | Assets/RedBjorn/ProtoTiles/Map/Scripts/Runtime/Map/Map/MapSettings.cs:224 | (index + 2) % 4 points at the negated square direction |
| MapSettings.MapSettings.TileNeighbourAtIndex | Assets/RedBjorn/ProtoTiles/Map/Scripts/Runtime/Map/Map/MapSettings.cs:234-254 | the table entry for an index below the table length, zero at or beyond it |
| MapSettings.OppositeNeighbour | Assets/RedBjorn/ProtoTiles/Map/Scripts/Runtime/Map/Map/MapSettings.cs:219-254 | the direction at the opposite index is the negation of the direction at the index |
| MapSettings.MapSettings.CreateTiles | Assets/RedBjorn/ProtoTiles/Map/Scripts/Runtime/Map/Map/MapSettings.cs:260-270 | one fresh entity per distinct record position, built from the record kept there (the last), its preset and the rules, keyed by its position |
| MapSettings.MapSettings.MapCreateHex | Assets/RedBjorn/ProtoTiles/Map/Scripts/Runtime/Map/Map/MapSettings.cs:424-449 | the tile list becomes the hex layout in row order, each record with the first preset's id and six zero side heights |
| MapSettings.MapSettings.MapCreateSquare | Assets/RedBjorn/ProtoTiles/Map/Scripts/Runtime/Map/Map/MapSettings.cs:451-477 | without a preset nothing changes; otherwise the square layout at (j - columns/2, 0, i - rows/2), each record with the first preset's id and six zero side heights |
| MapSettings.MapSettings.MapCreate | Assets/RedBjorn/ProtoTiles/Map/Scripts/Runtime/Map/Map/MapSettings.cs:412-422 | dispatches on the grid type to the hex or square generator |
| MapSettings.MapSettings.MockMap | Assets/RedBjorn/ProtoTiles/Map/Scripts/Runtime/Map/Map/MapSettings.cs:567-575 | the mock graph: one fresh entity per record position, over the grid's table, in a valid state |
| MapSettings.UnmarkedMeans | Assets/RedBjorn/ProtoTiles/Map/Scripts/Runtime/Map/Map/MapSettings.cs:581 | in a dictionary keyed by position, no marked tile at a tile's position means the tile is not marked |
| MapSettings.LabelArea | Assets/RedBjorn/ProtoTiles/Map/Scripts/Runtime/Map/Map/MapSettings.cs:581-590 | one round labels the accessible area of an unmarked vacant tile with the round's label: the marked set grows by at least one and stays within the vacant tiles, every marked record carries its label, labels run from 1 to below the next round's, and within the flood fill's cap no label falls along a move out of a marked tile |
| MapSettings.GrowState | Assets/RedBjorn/ProtoTiles/Map/Scripts/Runtime/Map/Map/MapSettings.cs:583-589 | a round keeps the loop state: its area is vacant, is the complete reachable set within the cap, and gets a label above every earlier one |
| MapSettings.GrowClosed | Assets/RedBjorn/ProtoTiles/Map/Scripts/Runtime/Map/Map/MapSettings.cs:583-589 | adding a reachability-complete area with a label above all earlier ones keeps the labels non-decreasing along every move out of a marked tile |
| MapSettings.LabelGrown | Assets/RedBjorn/ProtoTiles/Map/Scripts/Runtime/Map/Map/MapSettings.cs:585-589 | the round's writes: every tile of the area carries the round's label and every other marked tile keeps its label |
| MapSettings.AllMarked | Assets/RedBjorn/ProtoTiles/Map/Scripts/Runtime/Map/Map/MapSettings.cs:581-592 | when no vacant tile is left whose position no marked tile has, every vacant tile is marked |
| MapSettings.LabelsDone | Assets/RedBjorn/ProtoTiles/Map/Scripts/Runtime/Map/Map/MapSettings.cs:578-579 | at loop exit every vacant tile is marked, with a label between 1 and the number of vacant tiles, and labels are closed under moves within the cap |
| MapSettings.LabelAreas | Assets/RedBjorn/ProtoTiles/Map/Scripts/Runtime/Map/Map/MapSettings.cs:576-596 | the loop leaves every vacant tile with a label between 1 and the number of vacant tiles; within the flood fill's cap, a move out of a vacant tile never leads to a lower label |
| MapSettings.ReachableLabels | Assets/RedBjorn/ProtoTiles/Map/Scripts/Runtime/Map/Map/MapSettings.cs:576-596 | under closed labels, a tile reachable from a marked tile is marked with at least its label |
| MapSettings.ClearNotVacant | Assets/RedBjorn/ProtoTiles/Map/Scripts/Runtime/Map/Map/MapSettings.cs:598-601 | every tile that is not vacant gets label 0 and every vacant tile keeps its label |
| MapSettings.FinalLabels | Assets/RedBjorn/ProtoTiles/Map/Scripts/Runtime/Map/Map/MapSettings.cs:576-601 | the labels of the two phases give the result: vacant tiles >= 1, no label above the number of vacant tiles, labels non-decreasing along reachability from a vacant tile within the cap |
| MapSettings.MarkMap | Assets/RedBjorn/ProtoTiles/Map/Scripts/Runtime/Map/Map/MapSettings.cs:576-601 | every vacant tile of the graph has a label >= 1 and every other tile label 0; no label exceeds the number of vacant tiles; within the cap a tile reachable from a vacant tile carries at least that tile's label; records outside the graph keep their labels |
| MapSettings.MapSettings.MarkAreas | Assets/RedBjorn/ProtoTiles/Map/Scripts/Runtime/Map/Map/MapSettings.cs:556-602 | every record behind an entity gets a label >= 1 if the tile is vacant and 0 if not; no label exceeds the number of vacant tiles; on a map within the flood fill's cap, a tile reachable from a vacant tile carries at least that tile's label; records overwritten at their position keep their label |
| Serialization.Rebuilt | Assets/RedBjorn/Utils/Runtime/Serialization/SerializableDictionary.cs:40-47 | the rebuilt dictionary has exactly the listed keys, Keys[i] mapping to Values[i] |
| Serialization.RebuiltFlattened | Assets/RedBjorn/Utils/Runtime/Serialization/SerializableDictionary.cs:40-58 | rebuilding flattened lists gives the dictionary back |
| Serialization.SerializableDictionary.constructor | Assets/RedBjorn/Utils/Runtime/Serialization/SerializableDictionary.cs:12-15 | empty dictionary and empty lists |
| Serialization.SerializableDictionary.Count | Assets/RedBjorn/Utils/Runtime/Serialization/SerializableDictionary.cs:17-23 | the number of keys of the dictionary |
| Serialization.SerializableDictionary.Clear | Assets/RedBjorn/Utils/Runtime/Serialization/SerializableDictionary.cs:25-28 | the dictionary becomes empty; the lists are untouched |
| Serialization.SerializableDictionary.Add | Assets/RedBjorn/Utils/Runtime/Serialization/SerializableDictionary.cs:30-33 | needs an absent key (Dictionary.Add throws otherwise), adds it and grows Count by one |
| Serialization.SerializableDictionary.Remove | Assets/RedBjorn/Utils/Runtime/Serialization/SerializableDictionary.cs:35-38 | the key is gone; an absent key changes nothing |
| Serialization.SerializableDictionary.Get | Assets/RedBjorn/Utils/Runtime/Serialization/SerializableDictionary.cs:72-75 | the stored value, or the default without inserting |
| Serialization.SerializableDictionary.Set | Assets/RedBjorn/Utils/Runtime/Serialization/SerializableDictionary.cs:76-79 | inserts or overwrites that key only |
| Serialization.SerializableDictionary.TryGetOrDefault | Assets/RedBjorn/Utils/Runtime/Serialization/SerializableDictionary.cs:82-85 | the same as the indexer get |
| Serialization.SerializableDictionary.OnAfterDeserialize | Assets/RedBjorn/Utils/Runtime/Serialization/SerializableDictionary.cs:40-47 | with distinct keys and enough values, the dictionary becomes exactly Keys[i] to Values[i], discarding what was there |
| Serialization.SerializableDictionary.OnBeforeSerialize | Assets/RedBjorn/Utils/Runtime/Serialization/SerializableDictionary.cs:49-58 | the lists become parallel, distinct keys as long as Count, Values[i] the value of Keys[i] |
| Serialization.SerializableDictionary.RoundTrip | Assets/RedBjorn/Utils/Runtime/Serialization/SerializableDictionary.cs:40-58 | serialising then deserialising leaves the dictionary unchanged |
| DictionaryExtensions.TryGetOrDefault | Assets/RedBjorn/Utils/Runtime/Extensions/DictionaryExtensions.cs:15-23 | the stored value for a present key, the default for an absent one; the dictionary is not changed |
| DictionaryExtensions.TryGetOrDefaultAfterSet | Assets/RedBjorn/Utils/Runtime/Extensions/DictionaryExtensions.cs:15-23 | after setting a key the lookup gives the new value there and the old answers elsewhere |
| DictionaryExtensions.TryGetOrDefaultAfterRemove | Assets/RedBjorn/Utils/Runtime/Extensions/DictionaryExtensions.cs:15-23 | after removing a key the lookup gives the default |
| DictionaryExtensions.AfterGetOrCreate | Assets/RedBjorn/Utils/Runtime/Extensions/DictionaryExtensions.cs:33-43 | the key is present afterwards; a present key leaves the dictionary as it was; an absent one is added with the new value, the size grows by one and other entries stay |
| DictionaryExtensions.GetOrCreateIdempotent | Assets/RedBjorn/Utils/Runtime/Extensions/DictionaryExtensions.cs:33-43 | a second get-or-create on the same key changes nothing and the value is the existing or the created one |
| DictionaryExtensions.TryGetOrCreate | Assets/RedBjorn/Utils/Runtime/Extensions/DictionaryExtensions.cs:33-43 | returns the existing value, or inserts and returns the created one |
| EnumerableExtensions.JoinedLength | Assets/RedBjorn/Utils/Runtime/Extensions/EnumerableExtensions.cs:16-19 | the built text has length equal to the sum of len(e) + 1 over the elements |
| EnumerableExtensions.JoinedSingleChar | Assets/RedBjorn/Utils/Runtime/Extensions/EnumerableExtensions.cs:20-23 | the built text has length 1 exactly for a single empty element, the input on which Remove throws |
| EnumerableExtensions.ToColumn | Assets/RedBjorn/Utils/Runtime/Extensions/EnumerableExtensions.cs:13-25 | empty input gives ""; otherwise the text e + "\n" per element with the final two characters removed, of length sum(len(e) + 1) - 2 |
| EnumerableExtensions.ToColumnDropsLastChar | Assets/RedBjorn/Utils/Runtime/Extensions/EnumerableExtensions.cs:22 | the removal drops the trailing newline and also the last character of the final element |
| EnumerableExtensions.ToColumnExample | Assets/RedBjorn/Utils/Runtime/Extensions/EnumerableExtensions.cs:22 | ["ab", "cd"] gives "ab\nc" |
| EnumerableExtensions.ToColumnTrimmed | Assets/RedBjorn/Utils/Runtime/Extensions/EnumerableExtensions.cs:13-25 | the corrected builder: the elements joined by newlines, the final element whole |
| Helpers.Locker.constructor | Assets/RedBjorn/Utils/Runtime/Helpers/Locker.cs:5 | a new locker has Value 0 and is not locked |
| Helpers.Locker.Lock | Assets/RedBjorn/Utils/Runtime/Helpers/Locker.cs:7-10 | Value grows by exactly 1 |
| Helpers.Locker.Unlock | Assets/RedBjorn/Utils/Runtime/Helpers/Locker.cs:12-15 | Value shrinks by exactly 1, with no lower bound |
| Helpers.Locker.Run | Assets/RedBjorn/Utils/Runtime/Helpers/Locker.cs:7-15 | a sequence of Lock and Unlock calls leaves Value as the value applied to the sequence |
| Helpers.AsBoolMeaning | Assets/RedBjorn/Utils/Runtime/Helpers/Locker.cs:17-22 | the bool conversion is true exactly for a non-null locker with Value > 0 |
| Helpers.ApplyNet | Assets/RedBjorn/Utils/Runtime/Helpers/Locker.cs:7-15 | applying calls adds their net count (locks minus unlocks) |
| Helpers.LockUnlockRestores | Assets/RedBjorn/Utils/Runtime/Helpers/Locker.cs:7-15 | k locks followed by k unlocks restore Value |
| Helpers.ExtraUnlockNeedsExtraLock | Assets/RedBjorn/Utils/Runtime/Helpers/Locker.cs:7-22 | after one extra unlock from 0, k locks report locked exactly when k >= 2 |

## Left out

- World-space float geometry is not modelled, because it is floating-point angle and matrix arithmetic. This covers `HexCubeToPoint`, `HexCubeFractionalToPoint`, `Center`, `SquareToPoint`, `NeighbourTileIndexAtDirection`, the vertex, side-centre and side-rotation tables, and the float parts of `MapEntity` (line casts, `Tile(Vector3)`, `WorldPosition`, `Area(Vector3, float)`, `WalkableBorder`, `PathPoints`).
- Floats are modelled as mathematical reals. Rounding and overflow of `float` arithmetic (path costs, `range * range`) are not modelled, and neither is NaN.
- Hex.WorldToHexCube: world-to-cube conversion is the composition only; the fractional conversion is a parameter.
- Square.WorldToSquare: `Mathf.RoundToInt` is a parameter, so only the shape of the result is stated.
- Square.DistanceMetric: the square root is a parameter constrained by `SqrtLaws`, not Unity's `Mathf.Sqrt`.
- Unity object and editor code is left out, because it drives the engine and editor rather than computing anything: `PresetAddDefault` (GUID, Undo; its runtime build returns null), `PlacePrefabs`, `Clear`, `MapAnalyze*` (physics casts), `CreateCell`, `CreateGrid`, `GridEnable`, `GridToggle`, `TileSideRotation`, `TileCenterWorld`, `TileNeighbourIndexAtDirection`, and `Debug.LogError` calls.
- MapSettings.MapSettings.MapCreateHex: requires a preset. Without one, the runtime `PresetAddDefault` returns null and `preset.Id` is dereferenced; the model does not represent that failure.
- MapSettings.MapSettings.MapCreateSquare: without a preset, the editor would add a default preset and then build. The model covers the runtime build, where nothing happens.
- MapSettings.MapSettings.TileNeighbourAtIndex: requires `index >= 0`, because a negative index makes the array access throw.
- MapSettings.MapSettings.MarkAreas: requires every record to have a side height per direction and a movability condition it can evaluate (`Markable`). Without these, the searches throw on the unguarded side-height access or on `HaveTag` with a null preset. The mock map is returned as a ghost result, and the loop is split into `MockMap`, `MarkMap`, `LabelAreas`, `LabelArea` and `ClearNotVacant`.
- MapSettings.MapSettings.MarkAreas: the first unmarked vacant entry is chosen with `:|`, because `Dictionary` enumeration order is unspecified, so the exact label numbers are not stated. The model states that vacant tiles get labels from 1 up to the number of vacant tiles, and that within the flood fill's cap labels never fall along reachability from a vacant tile. It does not state that different areas get different labels: a later round can relabel tiles reached through one-sided side heights, so two areas need not stay distinguishable.
- MapSettings.MapSettings.MarkAreas: monotonicity along reachability is stated only for maps of at most 100000 tiles, where `AccessibleArea` is complete.
- MapNode.TileMap.constructor: the tile dictionary is fixed when the map is built. `MapEntity` assigns it only in its constructor; `MarkAreas` fills the mock's dictionary entry by entry before any search, which the model does by building the dictionary first.
- NodePathFinder.AccessibleArea: completeness (every reachable tile is in the result) is stated only for maps of at most 100000 tiles, where the enqueue cap cannot bind.
- NodePathFinder.WalkableArea: soundness only. The result need not be every tile within range, because the breadth-first order fixes each `Depth` at first discovery; the model does not claim completeness or shortest costs.
- NodePathFinder.FindPath: optimality of the path is not claimed, since the g-score adds the distance to finish rather than the edge cost. Termination and the absence of repeats are proved under `MetricLaws` on the distance delegate.
- NodePathFinder.FindPath: `ScoreG`, `ScoreF` and `CameFrom` are static dictionaries in the source. The model makes them per-call values, so reentrancy and sharing between calls are not modelled. The closed list is a ghost set, since its `Contains` branch can never be taken (the open and closed lists stay disjoint).
- NodePathFinder.TrimPath: works on a value sequence. The in-place `RemoveRange`, and its effect on the caller's list (aliasing), are not modelled.
- MapEntity.PathTiles: takes the tile positions of its two points; the world-to-tile conversion is float geometry. It requires both positions to hold tiles; a missing tile would be dereferenced as null in the source.
- MapEntity.NearestPosition: the condition and the ordering are pure functions of a tile and a direction. Conditions that read or change mutable state are not modelled.
- MapBorder.FindBorderPositions: requires a non-empty `inside` set, since `Aggregate` throws on an empty one. It also requires a direction table closed under negation; otherwise `TurnRight` can index at -2 and throw. The `Dictionary`/`HashSet` enumeration order of `inside` is the `order` parameter.
- Tiles: `TileCondition` subclasses other than `Not` and `HaveTag` are uninterpreted, as `Custom` over what a condition can observe of a tile (position, preset, side heights). `ObstacleCount` is never written in this code and stays 0. `SideHeight` is a sequence, since the core never writes it after creation.
- Helpers.Locker.Lock: `Value` is an unbounded integer. The C# field is a 32-bit `int`, so `Value++` at `int.MaxValue` wraps to `int.MinValue` and `Locked` turns false; the model does not capture that wrap.
- Helpers.Locker.Unlock: `Value--` at `int.MinValue` wraps to `int.MaxValue` in C#, so `Locked` turns true; the model's unbounded `Value` keeps decreasing instead.
- MapSettings.MapSettings.MapCreateHex: the layout arithmetic on columns, rows and the centring offsets is unbounded; 32-bit overflow in the source for huge row or column counts is not modelled.
- MapSettings.MapSettings.MapCreateSquare: the same for the square layout arithmetic; 32-bit overflow is not modelled.
- Square.WorldToSquare: requires `size != 0.0`. The source divides by `size` without a check (the map passes its `Edge`), and a zero size gives an infinity or NaN that `Mathf.RoundToInt` maps to an unspecified integer; the model does not represent that result. The default argument `size = 1f` is not modelled; callers pass the size.
- EnumerableExtensions.ToColumn: requires `rows != [""]`. For a single empty element the builder holds one character and `Remove(sb.Length - 2, 2)` throws; the model does not represent that exception.
- EnumerableExtensions.ToColumn: the source is generic over the element type and formats each element with `AppendFormat("{0}\n", en)`, a null element giving the empty text; the model takes the elements as already formatted strings.
- EnumerableExtensions.ToColumn: C# string lengths count UTF-16 code units, so the removal can split a surrogate pair; the model counts characters of `seq<char>` and does not capture that.
- Serialization.SerializableDictionary.Add: requires an absent key, because `Dictionary.Add` throws on a duplicate; the exception is not modelled.
- Serialization.SerializableDictionary.OnAfterDeserialize: requires distinct keys and at least as many values as keys. In the source the dictionary is cleared first and the rebuild then throws part-way on a duplicate key or a missing value, leaving only the entries added before it; a null key also throws. That partial rebuild is not modelled.
- Everything outside the tile engine is not part of this model: unit stats, input, camera, rendering, coroutines, spawning, the random extension and editor windows.

## Findings

| source | as written | input that shows it | evidently intended | confidence | as-written member | corrected member |
|---|---|---|---|---|---|---|
| Assets/RedBjorn/Utils/Runtime/Extensions/EnumerableExtensions.cs:22 | `Remove(sb.Length - 2, 2)` drops the trailing newline and the last character of the final element | `["ab", "cd"]` gives `"ab\nc"` | `"ab\ncd"`: only the trailing newline removed | not executed; high | EnumerableExtensions.ToColumnExample | EnumerableExtensions.ToColumnTrimmed |
| Assets/RedBjorn/ProtoTiles/Map/Scripts/Runtime/Presets/Hex.cs:189 | the cells around (0,0,0) are returned; `origin` is never used | origin (1,-1,0), range 0 gives [(0,0,0)] | the cells within range of `origin`, as the method's documentation says | not executed; high | Hex.AreaIgnoresOrigin | Hex.AreaAround |
| Assets/RedBjorn/ProtoTiles/Map/Scripts/Runtime/Presets/Square.cs:131-140 | `origin` is added both to the loop bounds and to each candidate, and the squared length is measured from world zero | origin (5,0,0), range 1 gives [] | the cells within range of `origin` | not executed; high | Square.AreaAwayFromZero | Square.AreaAround |

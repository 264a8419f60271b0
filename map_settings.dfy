/**
 * MapSettings: the stored map (tile types and tile records) and the
 * operations on it: removing a type with its tiles, looking a record up,
 * the neighbour table of the grid, building the runtime tile dictionary,
 * laying out a fresh rectangular map and labelling movable areas.
 */
module MapSettings {
  import opened Optional
  import opened Vectors
  import opened Tiles
  import opened MapNode
  import NodePathFinder
  import Hex
  import Square

  /** The first index whose element satisfies `p`, or -1 (Enumerable.FirstOrDefault with a predicate). */
  function FirstWhere<T>(s: seq<T>, p: T -> bool): (i: int)
    ensures -1 <= i < |s|
    ensures i >= 0 ==> p(s[i])
    ensures forall l :: 0 <= l < |s| && (i < 0 || l < i) ==> !p(s[l])
  {
    if |s| == 0 then -1
    else if p(s[0]) then 0
    else
      var i := FirstWhere(s[1..], p);
      if i < 0 then -1 else i + 1
  }

  /** Presets.FirstOrDefault(t => t.Id == id) */
  function FindPreset(presets: seq<TilePreset>, id: string): (r: Option<TilePreset>)
    ensures r.None? <==> forall k :: 0 <= k < |presets| ==> presets[k].Id != id
    ensures r.Some? ==> exists k :: 0 <= k < |presets| && presets[k] == r.value && r.value.Id == id
  {
    var i := FirstWhere(presets, (t: TilePreset) => t.Id == id);
    if i < 0 then None else Some(presets[i])
  }

  /** Tiles.RemoveAll(p => p.Id == id): the records of other types, in their order. */
  function WithoutPreset(tiles: seq<TileData>, id: string): (r: seq<TileData>)
    ensures forall k :: 0 <= k < |r| ==> r[k] in tiles && r[k].Id != id
    ensures forall k :: 0 <= k < |tiles| && tiles[k].Id != id ==> tiles[k] in r
    ensures |r| <= |tiles|
  {
    if |tiles| == 0 then []
    else (if tiles[0].Id == id then [] else [tiles[0]]) + WithoutPreset(tiles[1..], id)
  }

  /** Removal keeps the order: removing from a concatenation concatenates the removals. */
  lemma {:induction false} WithoutPresetConcat(a: seq<TileData>, b: seq<TileData>, id: string)
    ensures WithoutPreset(a + b, id) == WithoutPreset(a, id) + WithoutPreset(b, id)
  {
    if |a| > 0 {
      assert (a + b)[1..] == a[1..] + b;
      WithoutPresetConcat(a[1..], b, id);
    } else {
      assert a + b == b;
    }
  }

  /** A list with no record of the type is left as it is. */
  lemma {:induction false} WithoutPresetNone(tiles: seq<TileData>, id: string)
    requires forall k :: 0 <= k < |tiles| ==> tiles[k].Id != id
    ensures WithoutPreset(tiles, id) == tiles
  {
    if |tiles| > 0 {
      WithoutPresetNone(tiles[1..], id);
      assert tiles == [tiles[0]] + tiles[1..];
    }
  }

  /** The dictionary CreateTiles fills: each position mapped to the last record placed there. */
  function Records(tiles: seq<TileData>): (r: map<Vec, TileData>)
    ensures forall p :: p in r ==> r[p].TilePos == p && r[p] in tiles
    ensures forall k :: 0 <= k < |tiles| ==> tiles[k].TilePos in r
  {
    if |tiles| == 0 then map[]
    else
      var last := tiles[|tiles| - 1];
      var front := tiles[..|tiles| - 1];
      assert forall k :: 0 <= k < |front| ==> front[k] == tiles[k];
      Records(front)[last.TilePos := last]
  }

  /** A record with no later record at its position is the one the dictionary keeps. */
  lemma {:induction false} RecordsLast(tiles: seq<TileData>, k: int)
    requires 0 <= k < |tiles|
    requires forall l :: k < l < |tiles| ==> tiles[l].TilePos != tiles[k].TilePos
    ensures Records(tiles)[tiles[k].TilePos] == tiles[k]
  {
    if k < |tiles| - 1 {
      var front := tiles[..|tiles| - 1];
      RecordsLast(front, k);
    }
  }

  /** Every record the dictionary keeps has no later record at its position. */
  lemma {:induction false} RecordsKeepLast(tiles: seq<TileData>, p: Vec)
    requires p in Records(tiles)
    ensures exists k :: 0 <= k < |tiles| && tiles[k] == Records(tiles)[p] && LastAt(tiles, p, k)
  {
    var n := |tiles|;
    if tiles[n - 1].TilePos == p {
      assert LastAt(tiles, p, n - 1);
    } else {
      var front := tiles[..n - 1];
      assert Records(tiles) == Records(front)[tiles[n - 1].TilePos := tiles[n - 1]];
      RecordsKeepLast(front, p);
      var k :| 0 <= k < |front| && front[k] == Records(front)[p] && LastAt(front, p, k);
      forall l | k < l < n
        ensures tiles[l].TilePos != p
      {
        if l < n - 1 {
          assert tiles[l] == front[l];
        }
      }
      assert LastAt(tiles, p, k);
    }
  }

  /** tiles[k] is at p and no later record is. */
  predicate LastAt(tiles: seq<TileData>, p: Vec, k: int)
    requires 0 <= k < |tiles|
  {
    tiles[k].TilePos == p && forall l :: k < l < |tiles| ==> tiles[l].TilePos != p
  }

  /** The six zero side heights a laid-out tile starts with. */
  const ZeroSides: seq<real> := [0.0, 0.0, 0.0, 0.0, 0.0, 0.0]

  /** The corner cell a hex layout starts from, in closed form. */
  function HexCorner(rows: int, columns: int): Vec {
    var shift3 := CsDiv(rows, 2);
    var shift4 := CsDiv(columns, 4) + (if CsRem(columns, 4) == 3 then 1 else 0);
    var shift5 := CsDiv(columns, 4);
    Vec(-shift4 - shift5, shift5 - shift3, shift3 + shift4)
  }

  /**
   * The cell of row i and column j of a fresh map: on the hex grid the rows
   * step along (0,1,-1) and the columns zig-zag between (1,0,-1) and (1,-1,0);
   * on the square grid the map is centred, (j - columns/2, 0, i - rows/2).
   */
  function Cell(g: GridType, rows: int, columns: int, i: int, j: int): Vec {
    match g
    case HexGrid =>
      var c := HexCorner(rows, columns);
      Vec(c.x + j, c.y + i - j / 2, c.z - i - (j + 1) / 2)
    case SquareGrid =>
      Vec(j - FloorToInt(columns as real / 2.0), 0, i - FloorToInt(rows as real / 2.0))
  }

  function Width(columns: int): nat {
    if columns > 0 then columns else 0
  }

  function Row(g: GridType, rows: int, columns: int, i: int): (r: seq<Vec>)
    ensures |r| == Width(columns) && forall j :: 0 <= j < |r| ==> r[j] == Cell(g, rows, columns, i, j)
  {
    seq(Width(columns), j requires 0 <= j < Width(columns) => Cell(g, rows, columns, i, j))
  }

  /** The cells of the first r rows, row by row. */
  function Rows(g: GridType, rows: int, columns: int, r: nat): seq<Vec> {
    if r == 0 then [] else Rows(g, rows, columns, r - 1) + Row(g, rows, columns, r - 1)
  }

  /** The cells a fresh map of `rows` by `columns` tiles gets, in the order they are added. */
  function Layout(g: GridType, rows: int, columns: int): seq<Vec> {
    Rows(g, rows, columns, Width(rows))
  }

  lemma {:induction false} RowsSize(g: GridType, rows: int, columns: int, r: nat)
    ensures |Rows(g, rows, columns, r)| == r * Width(columns)
  {
    if r > 0 {
      RowsSize(g, rows, columns, r - 1);
    }
  }

  /** Cell (i, j) is tile number i * columns + j. */
  lemma {:induction false} RowsIndex(g: GridType, rows: int, columns: int, r: nat, i: int, j: int)
    requires 0 <= i < r && 0 <= j < Width(columns)
    ensures i * Width(columns) + j < |Rows(g, rows, columns, r)|
    ensures Rows(g, rows, columns, r)[i * Width(columns) + j] == Cell(g, rows, columns, i, j)
  {
    RowsSize(g, rows, columns, r - 1);
    RowsSize(g, rows, columns, r);
    var w := Width(columns);
    if i < r - 1 {
      RowsIndex(g, rows, columns, r - 1, i, j);
      assert i * w + j < (r - 1) * w by {
        assert i * w <= (r - 2) * w;
      }
    } else {
      assert i * w + j - (r - 1) * w == j;
    }
  }

  /** Every tile of the first r rows is some cell (i, j) with i < r. */
  lemma {:induction false} RowsCells(g: GridType, rows: int, columns: int, r: nat, k: int)
    requires 0 <= k < |Rows(g, rows, columns, r)|
    ensures exists i, j :: 0 <= i < r && 0 <= j < Width(columns) && Rows(g, rows, columns, r)[k] == Cell(g, rows, columns, i, j)
  {
    var front := Rows(g, rows, columns, r - 1);
    if k < |front| {
      RowsCells(g, rows, columns, r - 1, k);
    } else {
      var j := k - |front|;
      assert Rows(g, rows, columns, r)[k] == Cell(g, rows, columns, r - 1, j);
    }
  }

  /** Different (row, column) pairs give different cells, on both grids. */
  lemma {:induction false} CellInjective(g: GridType, rows: int, columns: int, i: int, j: int, i': int, j': int)
    requires 0 <= j && 0 <= j'
    requires Cell(g, rows, columns, i, j) == Cell(g, rows, columns, i', j')
    ensures i == i' && j == j'
  {
  }

  /** No two tiles of a fresh map share a position. */
  lemma {:induction false} RowsDistinct(g: GridType, rows: int, columns: int, r: nat)
    ensures Distinct(Rows(g, rows, columns, r))
  {
    if r > 0 {
      RowsDistinct(g, rows, columns, r - 1);
      var front, row := Rows(g, rows, columns, r - 1), Row(g, rows, columns, r - 1);
      var s := front + row;
      forall a, b | 0 <= a < b < |s|
        ensures s[a] != s[b]
      {
        if b < |front| {
          assert s[a] == front[a] && s[b] == front[b];
        } else if a >= |front| {
          var ja, jb := a - |front|, b - |front|;
          if s[a] == s[b] {
            CellInjective(g, rows, columns, r - 1, ja, r - 1, jb);
          }
        } else {
          RowsCells(g, rows, columns, r - 1, a);
          var i, j :| 0 <= i < r - 1 && 0 <= j < Width(columns) && front[a] == Cell(g, rows, columns, i, j);
          if s[a] == s[b] {
            CellInjective(g, rows, columns, i, j, r - 1, b - |front|);
          }
        }
      }
    }
  }

  /**
   * A fresh map has rows * columns tiles (none for a non-positive side), at
   * pairwise different positions, in cube coordinates on the hex grid and on
   * the y = 0 plane on the square grid.
   */
  lemma {:induction false} LayoutShape(g: GridType, rows: int, columns: int)
    ensures |Layout(g, rows, columns)| == (if rows > 0 && columns > 0 then rows * columns else 0)
    ensures Distinct(Layout(g, rows, columns))
    ensures forall k :: 0 <= k < |Layout(g, rows, columns)| ==>
      (g.HexGrid? ==> Hex.IsCube(Layout(g, rows, columns)[k])) && (g.SquareGrid? ==> Layout(g, rows, columns)[k].y == 0)
  {
    RowsSize(g, rows, columns, Width(rows));
    RowsDistinct(g, rows, columns, Width(rows));
    forall k | 0 <= k < |Layout(g, rows, columns)|
      ensures (g.HexGrid? ==> Hex.IsCube(Layout(g, rows, columns)[k])) && (g.SquareGrid? ==> Layout(g, rows, columns)[k].y == 0)
    {
      RowsCells(g, rows, columns, Width(rows), k);
      var i, j :| 0 <= i < Width(rows) && 0 <= j < Width(columns) && Layout(g, rows, columns)[k] == Cell(g, rows, columns, i, j);
      assert (j + 1) / 2 + j / 2 == j;
    }
  }

  /** The tile records match the cells one for one, each of type `id` with zero side heights. */
  predicate LaidOut(tiles: seq<TileData>, cells: seq<Vec>, id: string) {
    && |tiles| == |cells|
    && forall k :: 0 <= k < |tiles| ==>
      tiles[k].TilePos == cells[k] && tiles[k].Id == id && tiles[k].SideHeight == ZeroSides
  }

  /** Adding the record of cell (i, j) extends the laid-out prefix by one cell. */
  lemma {:induction false} LaidOutStep(tiles: seq<TileData>, g: GridType, rows: int, columns: int, i: nat, j: int, id: string, t: TileData)
    requires 0 <= j < Width(columns)
    requires LaidOut(tiles, Rows(g, rows, columns, i) + Row(g, rows, columns, i)[..j], id)
    requires t.TilePos == Cell(g, rows, columns, i, j) && t.Id == id && t.SideHeight == ZeroSides
    ensures LaidOut(tiles + [t], Rows(g, rows, columns, i) + Row(g, rows, columns, i)[..j + 1], id)
  {
    var row := Row(g, rows, columns, i);
    assert row[..j + 1] == row[..j] + [row[j]];
  }

  /** A full row finishes the prefix of the next row count. */
  lemma {:induction false} LaidOutRow(tiles: seq<TileData>, g: GridType, rows: int, columns: int, i: nat, id: string)
    requires LaidOut(tiles, Rows(g, rows, columns, i) + Row(g, rows, columns, i)[..Width(columns)], id)
    ensures LaidOut(tiles, Rows(g, rows, columns, i + 1), id)
  {
    var row := Row(g, rows, columns, i);
    assert row[..Width(columns)] == row;
  }

  class MapSettings {
    var Type: GridType
    var Rules: Option<MapRules>
    var Presets: seq<TilePreset>
    var Tiles: seq<TileData>

    /** A new settings asset after MapSettings.Init: no presets and no tiles. */
    constructor (grid: GridType, rules: Option<MapRules>)
      ensures Type == grid && Rules == rules && Presets == [] && Tiles == []
    {
      Type := grid;
      Rules := rules;
      Presets := [];
      Tiles := [];
    }

    /** MapSettings.NeighbourDirections: the neighbour table of the grid type. */
    function NeighbourDirections(): (dirs: seq<Vec>)
      reads this
      ensures Type.HexGrid? ==> dirs == Hex.HexCubeNeighbour && |dirs| == 6
      ensures Type.SquareGrid? ==> dirs == Square.Neighbour && |dirs| == 4
    {
      match Type
      case HexGrid => Hex.HexCubeNeighbour
      case SquareGrid => Square.Neighbour
    }

    /**
     * MapSettings.PresetRemove: an index outside the list changes nothing;
     * otherwise that preset goes, and with it every tile record of its type,
     * the others keeping their order.
     */
    method PresetRemove(index: int)
      modifies this`Presets, this`Tiles
      ensures !(0 <= index < |old(Presets)|) ==> Presets == old(Presets) && Tiles == old(Tiles)
      ensures 0 <= index < |old(Presets)| ==>
        && Presets == old(Presets[..index] + Presets[index + 1..])
        && Tiles == WithoutPreset(old(Tiles), old(Presets[index].Id))
    {
      if index < 0 || index >= |Presets| {
        return;
      }
      var currentPreset := Presets[index];
      Presets := Presets[..index] + Presets[index + 1..];
      Tiles := WithoutPreset(Tiles, currentPreset.Id);
    }

    /** MapSettings.GetTile: the first record at `position`, or null when there is none. */
    function GetTile(position: Vec): (r: TileData?)
      reads this
      ensures r == null <==> forall k :: 0 <= k < |Tiles| ==> Tiles[k].TilePos != position
      ensures r != null ==> exists k :: 0 <= k < |Tiles| && Tiles[k] == r && FirstAt(Tiles, position, k)
    {
      var k := FirstWhere(Tiles, (t: TileData) => t.TilePos == position);
      if k < 0 then null
      else
        assert FirstAt(Tiles, position, k);
        Tiles[k]
    }

    /**
     * MapSettings.TileNeighbourIndexOpposite: (index + 3) % 6 on the hex grid
     * and (index + 2) % 4 on the square grid, with the sign-keeping remainder
     * of C#. For a valid index it is the index of the opposite direction.
     */
    function TileNeighbourIndexOpposite(index: int): (r: int)
      reads this
      ensures 0 <= index < |NeighbourDirections()| ==>
        0 <= r < |NeighbourDirections()| && NeighbourDirections()[r] == NeighbourDirections()[index].Neg()
    {
      match Type
      case HexGrid => HexOpposite(index); CsRem(index + 3, |Hex.HexCubeNeighbour|)
      case SquareGrid => SquareOpposite(index); CsRem(index + 2, |Square.Neighbour|)
    }

    /**
     * MapSettings.TileNeighbourAtIndex: the table entry, or zero past the end
     * of the table; a negative index is out of the array's bounds and throws.
     */
    function TileNeighbourAtIndex(index: int): (r: Vec)
      reads this
      requires index >= 0
      ensures index < |NeighbourDirections()| ==> r == NeighbourDirections()[index]
      ensures index >= |NeighbourDirections()| ==> r == Zero
    {
      match Type
      case HexGrid => if index >= |Hex.HexCubeNeighbour| then Zero else Hex.HexCubeNeighbour[index]
      case SquareGrid => if index >= |Square.Neighbour| then Zero else Square.Neighbour[index]
    }

    /**
     * MapSettings.CreateTiles: a new tile entity for every position that has
     * a record, built from the last record there, the first preset of its
     * type and the map rules.
     */
    method CreateTiles() returns (tiles: map<Vec, TileEntity>)
      ensures tiles.Keys == Records(Tiles).Keys
      ensures forall p :: p in tiles ==> Built(tiles[p], Records(Tiles)[p])
      ensures forall p :: p in tiles ==> fresh(tiles[p])
      ensures KeyedByPosition(tiles)
    {
      tiles := map[];
      var i := 0;
      while i < |Tiles|
        invariant 0 <= i <= |Tiles|
        invariant tiles.Keys == Records(Tiles[..i]).Keys
        invariant forall p :: p in tiles ==> Built(tiles[p], Records(Tiles[..i])[p]) && fresh(tiles[p])
      {
        var tilePreset := Tiles[i];
        var preset := FindPreset(Presets, tilePreset.Id);
        var entity := new TileEntity(tilePreset, preset, Rules);
        tiles := tiles[tilePreset.TilePos := entity];
        assert Tiles[..i + 1][..i] == Tiles[..i];
        i := i + 1;
      }
      assert Tiles[..i] == Tiles;
    }

    /** The entity CreateTiles makes of record d. */
    ghost predicate Built(t: TileEntity, d: TileData)
      reads this
    {
      t.Data == d && t.Preset == FindPreset(Presets, d.Id) && t.Rules == Rules
    }

    /**
     * MapSettings.MapCreateHex. The first preset's type is given to every
     * tile; without a preset the source dereferences null, so one is required.
     */
    method MapCreateHex(rows: int, columns: int)
      requires |Presets| > 0
      modifies this`Tiles
      ensures LaidOut(Tiles, Layout(HexGrid, rows, columns), Presets[0].Id)
    {
      var preset := Presets[0];
      Tiles := [];
      var shift3 := CsDiv(rows, 2);
      var shift4 := CsDiv(columns, 4) + (if CsRem(columns, 4) == 3 then 1 else 0);
      var shift5 := CsDiv(columns, 4);
      var dirs := Hex.HexCubeNeighbour;
      var bottomLeftHex := dirs[3].Times(shift3).Plus(dirs[4].Times(shift4)).Plus(dirs[5].Times(shift5));
      ghost var corner := HexCorner(rows, columns);
      HexStart(rows, columns, shift3, shift4, shift5);
      var i := 0;
      while i < rows
        invariant 0 <= i <= Width(rows)
        invariant bottomLeftHex == Vec(corner.x, corner.y + i, corner.z - i)
        invariant LaidOut(Tiles, Rows(HexGrid, rows, columns, i), preset.Id)
      {
        var j := 0;
        while j < columns
          invariant 0 <= j <= Width(columns)
          invariant LaidOut(Tiles, Rows(HexGrid, rows, columns, i) + Row(HexGrid, rows, columns, i)[..j], preset.Id)
        {
          var tilePos := bottomLeftHex.Plus(dirs[1].Times((j + 1) / 2)).Plus(dirs[2].Times(j / 2));
          HexTilePos(rows, columns, i, j, corner);
          var tile := new TileData(tilePos, preset.Id, ZeroSides);
          LaidOutStep(Tiles, HexGrid, rows, columns, i, j, preset.Id, tile);
          Tiles := Tiles + [tile];
          j := j + 1;
        }
        LaidOutRow(Tiles, HexGrid, rows, columns, i, preset.Id);
        bottomLeftHex := bottomLeftHex.Plus(dirs[0]);
        i := i + 1;
      }
    }

    /**
     * MapSettings.MapCreateSquare. Without a preset (Presets.FirstOrDefault()
     * is null and no default can be added) the map is left as it is.
     */
    method MapCreateSquare(rows: int, columns: int)
      modifies this`Tiles
      ensures |Presets| == 0 ==> Tiles == old(Tiles)
      ensures |Presets| > 0 ==> LaidOut(Tiles, Layout(SquareGrid, rows, columns), Presets[0].Id)
    {
      if |Presets| == 0 {
        return;
      }
      var preset := Presets[0];
      Tiles := [];
      var leftColumn := FloorToInt(columns as real / 2.0);
      var bottomRow := FloorToInt(rows as real / 2.0);
      var bottomLeftSquare := Vec(-leftColumn, 0, -bottomRow);
      var dirs := Square.Neighbour;
      var i := 0;
      while i < rows
        invariant 0 <= i <= Width(rows)
        invariant bottomLeftSquare == Vec(-leftColumn, 0, i - bottomRow)
        invariant LaidOut(Tiles, Rows(SquareGrid, rows, columns, i), preset.Id)
      {
        var j := 0;
        while j < columns
          invariant 0 <= j <= Width(columns)
          invariant LaidOut(Tiles, Rows(SquareGrid, rows, columns, i) + Row(SquareGrid, rows, columns, i)[..j], preset.Id)
        {
          var tilePos := bottomLeftSquare.Plus(dirs[1].Times(j));
          assert tilePos == Cell(SquareGrid, rows, columns, i, j);
          var tile := new TileData(tilePos, preset.Id, ZeroSides);
          LaidOutStep(Tiles, SquareGrid, rows, columns, i, j, preset.Id, tile);
          Tiles := Tiles + [tile];
          j := j + 1;
        }
        LaidOutRow(Tiles, SquareGrid, rows, columns, i, preset.Id);
        bottomLeftSquare := bottomLeftSquare.Plus(dirs[0]);
        i := i + 1;
      }
    }

    /** MapSettings.MapCreate: lay out a map of the settings' grid type. */
    method MapCreate(rows: int, columns: int)
      requires Type.HexGrid? ==> |Presets| > 0
      modifies this`Tiles
      ensures Type.HexGrid? ==> LaidOut(Tiles, Layout(HexGrid, rows, columns), Presets[0].Id)
      ensures Type.SquareGrid? && |Presets| == 0 ==> Tiles == old(Tiles)
      ensures Type.SquareGrid? && |Presets| > 0 ==> LaidOut(Tiles, Layout(SquareGrid, rows, columns), Presets[0].Id)
    {
      match Type
      case HexGrid => MapCreateHex(rows, columns);
      case SquareGrid => MapCreateSquare(rows, columns);
    }

    /** What MarkAreas needs of a record: a side height per direction and a movability test it can evaluate. */
    ghost predicate Markable(d: TileData)
      reads this
    {
      && |d.SideHeight| >= |NeighbourDirections()|
      && (RuleApplies(d, Rules) ==>
            CanEvaluate(Rules.value.IsMovable.value, TileView(d.TilePos, FindPreset(Presets, d.Id), d.SideHeight)))
    }

    /** The dictionary CreateTiles returns, as MarkAreas relies on it. */
    ghost predicate Entities(tiles: map<Vec, TileEntity>)
      reads this
    {
      && KeyedByPosition(tiles)
      && tiles.Keys == Records(Tiles).Keys
      && forall p :: p in tiles ==> Built(tiles[p], Records(Tiles)[p])
    }

    /** Over such a dictionary the mock map is valid, and every entity's record is one of Tiles. */
    lemma {:induction false} EntitiesValid(tiles: map<Vec, TileEntity>, m: TileMap)
      requires Entities(tiles) && forall k :: 0 <= k < |Tiles| ==> Markable(Tiles[k])
      requires m.Tiles == tiles && m.NeighboursDirection == NeighbourDirections()
      ensures m.Valid()
      ensures forall t :: t in tiles.Values ==> t.Data in Tiles
    {
      forall p | p in tiles
        ensures m.HasSides(p) && tiles[p].VacantDefined() && tiles[p].Data in Tiles
      {
        var d := Records(Tiles)[p];
        var k :| 0 <= k < |Tiles| && Tiles[k] == d;
        assert Markable(d);
      }
    }

    /** A record that is not the one kept at its position belongs to no entity. */
    lemma {:induction false} NotEntityData(tiles: map<Vec, TileEntity>, k: int)
      requires Entities(tiles) && 0 <= k < |Tiles| && Records(Tiles)[Tiles[k].TilePos] != Tiles[k]
      ensures forall t :: t in tiles.Values ==> t.Data != Tiles[k]
    {
    }

    /**
     * MapSettings.MarkAreas: over a mock map of the entities CreateTiles would
     * build, repeatedly take a vacant tile whose position no labelled tile has,
     * give every tile of its accessible area the next label (from 1), until as
     * many tiles are labelled as are vacant; then label the tiles that are not
     * vacant 0. Afterwards every vacant tile carries a label of at least 1 and
     * every other tile 0; records hidden by a later record at the same
     * position keep their label. No label exceeds the number of vacant tiles,
     * and on a map within the flood fill's cap a tile reachable from a vacant
     * tile carries at least that tile's label: each later round hands out a
     * larger label. The mock map is returned for the contract.
     */
    method MarkAreas(sqrt: real -> real) returns (ghost mock: TileMap)
      requires forall k :: 0 <= k < |Tiles| ==> Markable(Tiles[k])
      modifies Tiles
      ensures Entities(mock.Tiles)
      ensures mock.NeighboursDirection == NeighbourDirections() && mock.Kind == Mock && mock.Valid()
      ensures forall t :: t in mock.Tiles.Values && t.Vacant() ==> t.Data.MovableArea >= 1
      ensures forall t :: t in mock.Tiles.Values && !t.Vacant() ==> t.Data.MovableArea == 0
      ensures LabelsOrdered(mock)
      ensures forall d :: d in old(Hidden()) ==> d.MovableArea == old(d.MovableArea)
    {
      var m := MockMap(sqrt);
      MarkMap(m, Hidden());
      mock := m;
    }

    /** The records CreateTiles skips: each is followed in Tiles by another record at its position. */
    function Hidden(): set<TileData>
      reads this
    {
      set k | 0 <= k < |Tiles| && Records(Tiles)[Tiles[k].TilePos] != Tiles[k] :: Tiles[k]
    }

    /** The mock map MarkAreas builds: the entities of CreateTiles with the grid's directions and distance. */
    method MockMap(sqrt: real -> real) returns (m: TileMap)
      requires forall k :: 0 <= k < |Tiles| ==> Markable(Tiles[k])
      ensures fresh(m) && m.Valid() && Entities(m.Tiles) && m.Kind == Mock
      ensures m.NeighboursDirection == NeighbourDirections()
      ensures forall t :: t in m.Tiles.Values ==> fresh(t) && t.Data in Tiles
      ensures Hidden() !! set t | t in m.Tiles.Values :: t.Data
    {
      var distance: (Vec, Vec) -> real :=
        if Type.HexGrid? then (a: Vec, b: Vec) => Hex.HexDistance(a, b) else (a: Vec, b: Vec) => Square.Distance(sqrt, a, b);
      var tiles := CreateTiles();
      assert Entities(tiles);
      m := new TileMap(tiles, NeighbourDirections(), distance, Mock);
      EntitiesValid(tiles, m);
      forall k | 0 <= k < |Tiles| && Records(Tiles)[Tiles[k].TilePos] != Tiles[k] {
        NotEntityData(tiles, k);
      }
    }
  }

  /**
   * The order MarkAreas leaves among the labels of a map: no label exceeds
   * the number of vacant tiles, and, on a map within the flood fill's cap, a
   * tile reachable from a vacant tile carries at least that tile's label.
   */
  ghost predicate LabelsOrdered(m: TileMap)
    reads set t | t in m.Tiles.Values :: t.Data
    requires m.Valid()
  {
    && (forall p :: p in m.Tiles ==> m.Tiles[p].Data != null && m.Tiles[p].Data.MovableArea <= |VacantTiles(m)|)
    && (|m.Tiles| <= NodePathFinder.QueueCap ==>
      forall p, q | p in m.Tiles && q in m.Tiles && m.Tiles[p].Vacant()
        && NodePathFinder.Reachable(m, m.Tiles[p], m.Tiles[q]) ::
        m.Tiles[q].Data.MovableArea >= m.Tiles[p].Data.MovableArea)
  }

  /** The vacant tiles of a valid map. */
  ghost function VacantTiles(m: TileMap): (r: set<TileEntity>)
    requires m.Valid()
  {
    set t | t in m.Tiles.Values && t.Vacant()
  }

  /**
   * The two phases of MarkAreas on the mock map: label the accessible areas
   * of the vacant tiles, then give every tile that is not vacant label 0.
   */
  method MarkMap(m: TileMap, ghost others: set<TileData>)
    requires m.Valid()
    requires others !! set t | t in m.Tiles.Values :: t.Data
    modifies m.Tiles.Values`Depth, m.Tiles.Values`Visited, m.Tiles.Values`Considered
    modifies set t | t in m.Tiles.Values :: t.Data
    ensures forall d :: d in others ==> d.MovableArea == old(d.MovableArea)
    ensures forall t :: t in m.Tiles.Values && t.Vacant() ==> t.Data.MovableArea >= 1
    ensures forall t :: t in m.Tiles.Values && !t.Vacant() ==> t.Data.MovableArea == 0
    ensures LabelsOrdered(m)
  {
    ghost var labels := LabelAreas(m);
    ClearNotVacant(m);
    FinalLabels(m, VacantTiles(m), labels);
  }

  /** The second phase of MarkAreas: every tile that is not vacant gets label 0, vacant tiles keep theirs. */
  method ClearNotVacant(m: TileMap)
    requires m.Valid()
    modifies set t | t in m.Tiles.Values :: t.Data
    ensures forall t :: t in m.Tiles.Values && !t.Vacant() ==> t.Data.MovableArea == 0
    ensures forall t :: t in VacantTiles(m) ==> t.Data.MovableArea == old(t.Data.MovableArea)
  {
    var blocked := set t | t in m.Tiles.Values && !t.Vacant();
    VacantApart(m.Tiles, VacantTiles(m), blocked);
    ClearBlocked(blocked);
  }

  /** The contract of MarkMap from the labels the loop left on the vacant tiles. */
  lemma {:induction false} FinalLabels(m: TileMap, vacant: set<TileEntity>, before: map<TileEntity, int>)
    requires m.Valid() && vacant == VacantTiles(m) && vacant <= before.Keys
    requires forall t :: t in vacant ==> t.Data.MovableArea == before[t] && 1 <= before[t] <= |vacant|
    requires forall t :: t in m.Tiles.Values && !t.Vacant() ==> t.Data.MovableArea == 0
    requires |m.Tiles| <= NodePathFinder.QueueCap ==> ClosedUnder(m, vacant, before)
    ensures forall t :: t in m.Tiles.Values && t.Vacant() ==> t.Data.MovableArea >= 1
    ensures LabelsOrdered(m)
  {
    forall p | p in m.Tiles
      ensures m.Tiles[p].Data.MovableArea <= |VacantTiles(m)|
    {
      if m.Tiles[p].Vacant() {
        assert m.Tiles[p] in vacant;
      }
    }
    if |m.Tiles| <= NodePathFinder.QueueCap {
      forall p, q | p in m.Tiles && q in m.Tiles && m.Tiles[p].Vacant()
        && NodePathFinder.Reachable(m, m.Tiles[p], m.Tiles[q])
        ensures m.Tiles[q].Data.MovableArea >= m.Tiles[p].Data.MovableArea
      {
        assert m.Tiles[p] in vacant;
        ReachableLabels(m, vacant, before, m.Tiles[p], m.Tiles[q]);
      }
    }
  }

  /** Every tile of the set has a record, whose label is the one `labels` gives it. */
  ghost predicate Carries(marked: set<TileEntity>, labels: map<TileEntity, int>)
    reads (set t | t in marked :: t.Data)`MovableArea
  {
    forall t :: t in marked ==> t.Data != null && t in labels && t.Data.MovableArea == labels[t]
  }

  /**
   * The labels never fall along a move out of a labelled tile: the tile
   * moved to is labelled too, with a label at least as large.
   */
  ghost predicate ClosedUnder(m: TileMap, marked: set<TileEntity>, labels: map<TileEntity, int>)
  {
    && marked <= labels.Keys
    && forall a, b {:trigger NodePathFinder.Step(m, a, b)} :: a in marked && b in m.Tiles.Values && NodePathFinder.Step(m, a, b) ==>
      b in marked && labels[b] >= labels[a]
  }

  /** Along a walk out of a labelled tile every tile is labelled, with at least the first tile's label. */
  lemma {:induction false} WalkLabels(m: TileMap, marked: set<TileEntity>, labels: map<TileEntity, int>, w: seq<TileEntity>, k: int)
    requires ClosedUnder(m, marked, labels) && 0 <= k < |w| && w[0] in marked
    requires forall i :: 0 <= i < |w| ==> w[i] in m.Tiles.Values
    requires forall i :: 0 <= i < |w| - 1 ==> NodePathFinder.Step(m, w[i], w[i + 1])
    ensures w[k] in marked && labels[w[k]] >= labels[w[0]]
    decreases k
  {
    if k > 0 {
      WalkLabels(m, marked, labels, w, k - 1);
      assert NodePathFinder.Step(m, w[k - 1], w[k]);
    }
  }

  /** A tile reachable from a labelled tile is labelled, with at least its label. */
  lemma {:induction false} ReachableLabels(m: TileMap, marked: set<TileEntity>, labels: map<TileEntity, int>, a: TileEntity, b: TileEntity)
    requires ClosedUnder(m, marked, labels) && a in marked && NodePathFinder.Reachable(m, a, b)
    ensures b in marked && labels[b] >= labels[a]
  {
    var w :| NodePathFinder.WalkIn(m, w, a, b, m.Tiles.Values);
    WalkLabels(m, marked, labels, w, |w| - 1);
  }

  /**
   * One labelling round keeps the labels closed: the new area is closed
   * under moves and gets a label above every earlier one.
   */
  lemma {:induction false} GrowClosed(m: TileMap, marked: set<TileEntity>, accessible: set<TileEntity>, walkable: TileEntity,
                                      before: map<TileEntity, int>, after: map<TileEntity, int>, area: int)
    requires ClosedUnder(m, marked, before)
    requires forall t :: t in accessible ==> NodePathFinder.Reachable(m, walkable, t)
    requires forall t :: NodePathFinder.Reachable(m, walkable, t) ==> t in accessible
    requires after.Keys == marked + accessible
    requires forall t :: t in accessible ==> after[t] == area
    requires forall t :: t in marked && t !in accessible ==> after[t] == before[t]
    requires forall t :: t in marked ==> before[t] < area
    ensures ClosedUnder(m, marked + accessible, after)
  {
    forall a, b | a in marked + accessible && b in m.Tiles.Values && NodePathFinder.Step(m, a, b)
      ensures b in marked + accessible && after[b] >= after[a]
    {
      if a in accessible {
        NodePathFinder.ReachableStep(m, walkable, a, b);
      }
    }
  }

  /** In a dictionary keyed by position, a tile outside a set of its tiles shares no record with them. */
  lemma {:induction false} DataApart(tiles: map<Vec, TileEntity>, u: TileEntity, s: set<TileEntity>)
    requires KeyedByPosition(tiles) && u in tiles.Values && s <= tiles.Values && u !in s
    ensures u.Data !in set t | t in s :: t.Data
  {
    forall t | t in s
      ensures t.Data != u.Data
    {
      var p :| p in tiles && tiles[p] == t;
      var q :| q in tiles && tiles[q] == u;
    }
  }

  /**
   * The labelling loop of MarkAreas: while fewer tiles are labelled than are
   * vacant, take a vacant tile whose position no labelled tile has and give
   * its accessible area the next label, counting from 1. Every vacant tile
   * ends with a label of at least 1.
   */
  method LabelAreas(m: TileMap) returns (ghost labels: map<TileEntity, int>)
    requires m.Valid()
    modifies m.Tiles.Values`Depth, m.Tiles.Values`Visited, m.Tiles.Values`Considered
    modifies set t | t in m.Tiles.Values :: t.Data
    ensures Carries(VacantTiles(m), labels)
    ensures forall t :: t in VacantTiles(m) ==> 1 <= labels[t] <= |VacantTiles(m)|
    ensures |m.Tiles| <= NodePathFinder.QueueCap ==> ClosedUnder(m, VacantTiles(m), labels)
  {
    var tiles := m.Tiles;
    var movableArea := 1;
    var marked: set<TileEntity> := {};
    labels := map[];
    var walkableCount := |set t | t in tiles.Values && t.Vacant()|;
    assert walkableCount == |VacantTiles(m)|;
    while |marked| < walkableCount
      invariant movableArea >= 1 && LabelState(m, marked, labels, movableArea) && Carries(marked, labels)
      decreases walkableCount - |marked|
    {
      if walkable :| walkable in tiles.Values && walkable.Vacant() && Unmarked(marked, walkable) {
        marked, labels := LabelArea(m, marked, labels, walkable, movableArea);
      } else {
        AllMarked(m, marked);
        break;
      }
      movableArea := movableArea + 1;
    }
    LabelsDone(m, marked, labels, movableArea);
  }

  /** When no vacant tile is left whose position no labelled tile has, every vacant tile is labelled. */
  lemma {:induction false} AllMarked(m: TileMap, marked: set<TileEntity>)
    requires m.Valid() && marked <= m.Tiles.Values
    requires forall t :: t in m.Tiles.Values && t.Vacant() ==> !Unmarked(marked, t)
    ensures VacantTiles(m) <= marked
  {
    forall t | t in VacantTiles(m)
      ensures t in marked
    {
      UnmarkedMeans(m.Tiles, marked, t);
    }
  }

  /** The contract of LabelAreas from the loop's state once every vacant tile is labelled. */
  lemma {:induction false} LabelsDone(m: TileMap, marked: set<TileEntity>, labels: map<TileEntity, int>, next: int)
    requires m.Valid() && LabelState(m, marked, labels, next) && Carries(marked, labels)
    requires |marked| >= |VacantTiles(m)| || VacantTiles(m) <= marked
    ensures Carries(VacantTiles(m), labels)
    ensures forall t :: t in VacantTiles(m) ==> 1 <= labels[t] <= |VacantTiles(m)|
    ensures |m.Tiles| <= NodePathFinder.QueueCap ==> ClosedUnder(m, VacantTiles(m), labels)
  {
    if |marked| >= |VacantTiles(m)| {
      SubsetFull(marked, VacantTiles(m));
    }
    assert marked == VacantTiles(m);
  }

  /** One round of the labelling loop: the area accessible from `walkable` gets label `area`. */
  method LabelArea(m: TileMap, marked: set<TileEntity>, ghost labels: map<TileEntity, int>, walkable: TileEntity, area: int)
    returns (r: set<TileEntity>, ghost labels': map<TileEntity, int>)
    requires m.Valid() && area >= 1 && LabelState(m, marked, labels, area) && Carries(marked, labels)
    requires walkable in m.Tiles.Values && walkable.Vacant() && Unmarked(marked, walkable)
    modifies m.Tiles.Values`Depth, m.Tiles.Values`Visited, m.Tiles.Values`Considered
    modifies set t | t in m.Tiles.Values :: t.Data
    ensures marked <= r && |r| > |marked| && LabelState(m, r, labels', area + 1) && Carries(r, labels')
  {
    UnmarkedMeans(m.Tiles, marked, walkable);
    var accessible := NodePathFinder.AccessibleArea(m, walkable);
    assert Carries(marked, labels);
    r := Grow(marked, accessible, walkable);
    labels' := Relabel(labels, marked, accessible, area);
    GrowState(m, marked, accessible, walkable, labels, labels', area);
    LabelGrown(m, marked, accessible, labels, labels', area);
  }

  /** The record writes of a round: the new area gets `area`, every other labelled tile keeps its label. */
  method LabelGrown(m: TileMap, marked: set<TileEntity>, accessible: set<TileEntity>,
                    ghost labels: map<TileEntity, int>, ghost labels': map<TileEntity, int>, area: int)
    requires m.Valid() && marked <= m.Tiles.Values && accessible <= m.Tiles.Values && Carries(marked, labels)
    requires labels'.Keys == marked + accessible && forall t :: t in accessible ==> labels'[t] == area
    requires forall t :: t in marked && t !in accessible ==> labels'[t] == labels[t]
    modifies set t | t in m.Tiles.Values :: t.Data
    ensures Carries(marked + accessible, labels')
  {
    Label(accessible, area);
    forall u | u in marked && u !in accessible
      ensures u.Data.MovableArea == labels[u]
    {
      DataApart(m.Tiles, u, accessible);
    }
    CarriesGrown(marked, accessible, labels, labels', area);
  }

  /** The labelling after a round: `area` on the new area, the old label elsewhere. */
  ghost function Relabel(labels: map<TileEntity, int>, marked: set<TileEntity>, accessible: set<TileEntity>, area: int): (r: map<TileEntity, int>)
    requires marked <= labels.Keys
    ensures r.Keys == marked + accessible && forall t :: t in accessible ==> r[t] == area
    ensures forall t :: t in marked && t !in accessible ==> r[t] == labels[t]
  {
    map t | t in marked + accessible :: if t in accessible then area else labels[t]
  }

  /** The records carry the labelling after a round when the new area carries `area` and the rest kept theirs. */
  lemma {:induction false} CarriesGrown(marked: set<TileEntity>, accessible: set<TileEntity>,
                                        labels: map<TileEntity, int>, labels': map<TileEntity, int>, area: int)
    requires forall t :: t in accessible ==> t.Data != null && t.Data.MovableArea == area
    requires forall t :: t in marked && t !in accessible ==> t.Data != null && t in labels && t.Data.MovableArea == labels[t]
    requires labels'.Keys == marked + accessible && forall t :: t in accessible ==> labels'[t] == area
    requires forall t :: t in marked && t !in accessible ==> labels'[t] == labels[t]
    ensures Carries(marked + accessible, labels')
  {
  }

  /** The loop's state after one round, from the state before it and the area the round labelled. */
  lemma {:induction false} GrowState(m: TileMap, marked: set<TileEntity>, accessible: set<TileEntity>, walkable: TileEntity,
                                     labels: map<TileEntity, int>, labels': map<TileEntity, int>, area: int)
    requires m.Valid() && area >= 1 && LabelState(m, marked, labels, area)
    requires walkable in accessible && walkable.VacantDefined() && walkable.Vacant() && walkable !in marked
    requires accessible <= m.Tiles.Values
    requires forall t :: t in accessible && t != walkable ==> t.VacantDefined() && t.Vacant()
    requires forall t :: t in accessible ==> NodePathFinder.Reachable(m, walkable, t)
    requires |m.Tiles| <= NodePathFinder.QueueCap ==> forall t :: NodePathFinder.Reachable(m, walkable, t) ==> t in accessible
    requires labels'.Keys == marked + accessible && forall t :: t in accessible ==> labels'[t] == area
    requires forall t :: t in marked && t !in accessible ==> t in labels && labels'[t] == labels[t]
    requires |marked + accessible| > |marked|
    ensures LabelState(m, marked + accessible, labels', area + 1)
  {
    if |m.Tiles| <= NodePathFinder.QueueCap {
      GrowClosed(m, marked, accessible, walkable, labels, labels', area);
    }
  }

  /**
   * What the labelling loop keeps of the tiles labelled so far, before it
   * hands out label `next`: they are vacant, carry labels from 1 up to
   * below `next`, at most one label per labelled tile has been used, and
   * (within the flood fill's cap) the labels are closed under moves.
   */
  ghost predicate LabelState(m: TileMap, marked: set<TileEntity>, labels: map<TileEntity, int>, next: int)
    requires m.Valid()
  {
    && marked <= VacantTiles(m)
    && marked <= labels.Keys
    && (forall t :: t in marked ==> 1 <= labels[t] < next)
    && next - 1 <= |marked|
    && (|m.Tiles| <= NodePathFinder.QueueCap ==> ClosedUnder(m, marked, labels))
  }

  /** No labelled tile has the position of t. */
  predicate Unmarked(marked: set<TileEntity>, t: TileEntity) {
    forall a :: a in marked ==> a.Position() != t.Position()
  }

  /** In a dictionary keyed by position, "no labelled tile at its position" means "not labelled". */
  lemma {:induction false} UnmarkedMeans(tiles: map<Vec, TileEntity>, marked: set<TileEntity>, t: TileEntity)
    requires KeyedByPosition(tiles) && marked <= tiles.Values && t in tiles.Values
    ensures Unmarked(marked, t) <==> t !in marked
  {
    if !Unmarked(marked, t) {
      var a :| a in marked && a.Position() == t.Position();
      var p :| p in tiles && tiles[p] == a;
      var q :| q in tiles && tiles[q] == t;
    }
  }

  /** Vacant and non-vacant entities of such a dictionary have different records. */
  lemma {:induction false} VacantApart(tiles: map<Vec, TileEntity>, vacant: set<TileEntity>, blocked: set<TileEntity>)
    requires KeyedByPosition(tiles) && vacant <= tiles.Values && blocked <= tiles.Values && vacant !! blocked
    ensures forall t :: t in vacant ==> t.Data !in set u | u in blocked :: u.Data
  {
    forall t | t in vacant
      ensures t.Data !in set u | u in blocked :: u.Data
    {
      DataApart(tiles, t, blocked);
    }
  }

  /** The label step: every tile of the area gets `label` in its record (ChangeMovableAreaPreset). */
  method Label(accessible: set<TileEntity>, area: int)
    requires forall t :: t in accessible ==> t.Data != null
    modifies set t | t in accessible :: t.Data
    ensures forall t :: t in accessible ==> t.Data.MovableArea == area
  {
    var rest := accessible;
    while rest != {}
      invariant rest <= accessible
      invariant forall t :: t in accessible - rest ==> t.Data.MovableArea == area
      decreases rest
    {
      var a :| a in rest;
      a.ChangeMovableAreaPreset(area);
      rest := rest - {a};
    }
  }

  /** The final step: every tile that is not vacant gets label 0 in its record. */
  method ClearBlocked(blocked: set<TileEntity>)
    requires forall t :: t in blocked ==> t.Data != null
    modifies set t | t in blocked :: t.Data
    ensures forall t :: t in blocked ==> t.Data.MovableArea == 0
  {
    var rest := blocked;
    while rest != {}
      invariant rest <= blocked
      invariant forall t :: t in blocked - rest ==> t.Data.MovableArea == 0
      decreases rest
    {
      var t :| t in rest;
      t.Data.MovableArea := 0;
      rest := rest - {t};
    }
  }

  /** Adding an area that holds an unlabelled tile makes the labelled set strictly larger. */
  method Grow(marked: set<TileEntity>, accessible: set<TileEntity>, walkable: TileEntity) returns (r: set<TileEntity>)
    requires walkable in accessible && walkable !in marked
    ensures r == marked + accessible && |r| > |marked|
  {
    r := marked + accessible;
    SubsetCard(marked + {walkable}, r);
  }

  lemma {:induction false} SubsetCard<T>(a: set<T>, b: set<T>)
    requires a <= b
    ensures |a| <= |b|
    decreases a
  {
    if a != {} {
      var y :| y in a;
      SubsetCard(a - {y}, b - {y});
    }
  }

  /** A subset at least as large as its superset is the whole of it. */
  lemma {:induction false} SubsetFull<T>(a: set<T>, b: set<T>)
    requires a <= b && |a| >= |b|
    ensures a == b
  {
    if a != b {
      var x :| x in b && x !in a;
      SubsetCard(a, b - {x});
    }
  }

  /** Three steps round the hex table is the reverse direction. */
  lemma {:induction false} HexOpposite(index: int)
    ensures 0 <= index < 6 ==>
      0 <= CsRem(index + 3, 6) < 6 && Hex.HexCubeNeighbour[CsRem(index + 3, 6)] == Hex.HexCubeNeighbour[index].Neg()
  {
    Hex.NeighbourOpposite();
    if 0 <= index < 6 {
      RemOfSmall(index + 3, 6);
    }
  }

  /** Two steps round the square table is the reverse direction. */
  lemma {:induction false} SquareOpposite(index: int)
    ensures 0 <= index < 4 ==>
      0 <= CsRem(index + 2, 4) < 4 && Square.Neighbour[CsRem(index + 2, 4)] == Square.Neighbour[index].Neg()
  {
    Square.NeighbourOpposite();
    if 0 <= index < 4 {
      RemOfSmall(index + 2, 4);
    }
  }

  /** The remainder by a table size (six or four) of a value below twice it takes at most one subtraction. */
  lemma {:induction false} RemOfSmall(a: int, b: int)
    requires (b == 6 || b == 4) && 0 <= a < 2 * b
    ensures CsRem(a, b) == if a < b then a else a - b
  {
    if b == 6 {
      assert CsRem(a, 6) == a % 6;
    } else {
      assert CsRem(a, 4) == a % 4;
    }
  }

  /** The first corner of MapCreateHex, built from the table, is HexCorner. */
  lemma {:induction false} HexStart(rows: int, columns: int, shift3: int, shift4: int, shift5: int)
    requires shift3 == CsDiv(rows, 2) && shift5 == CsDiv(columns, 4)
    requires shift4 == CsDiv(columns, 4) + (if CsRem(columns, 4) == 3 then 1 else 0)
    ensures Hex.HexCubeNeighbour[3].Times(shift3).Plus(Hex.HexCubeNeighbour[4].Times(shift4)).Plus(Hex.HexCubeNeighbour[5].Times(shift5))
      == HexCorner(rows, columns)
  {
  }

  /** Row i's corner plus the zig-zag of j columns is Cell(i, j). */
  lemma {:induction false} HexTilePos(rows: int, columns: int, i: int, j: int, corner: Vec)
    requires 0 <= j && corner == HexCorner(rows, columns)
    ensures Vec(corner.x, corner.y + i, corner.z - i).Plus(Hex.HexCubeNeighbour[1].Times((j + 1) / 2)).Plus(Hex.HexCubeNeighbour[2].Times(j / 2))
      == Cell(HexGrid, rows, columns, i, j)
  {
    assert (j + 1) / 2 + j / 2 == j;
  }

  /** tiles[k] is at p and no earlier record is. */
  predicate FirstAt(tiles: seq<TileData>, p: Vec, k: int)
    requires 0 <= k < |tiles|
  {
    tiles[k].TilePos == p && forall l :: 0 <= l < k ==> tiles[l].TilePos != p
  }

  /** The opposite of the opposite index is the index itself. */
  lemma {:induction false} OppositeInvolution(s: MapSettings, index: int)
    requires 0 <= index < |s.NeighbourDirections()|
    ensures s.TileNeighbourIndexOpposite(s.TileNeighbourIndexOpposite(index)) == index
  {
    var r := s.TileNeighbourIndexOpposite(index);
    match s.Type
    case HexGrid =>
      RemOfSmall(index + 3, 6);
      assert r == CsRem(index + 3, 6);
      RemOfSmall(r + 3, 6);
      assert s.TileNeighbourIndexOpposite(r) == CsRem(r + 3, 6);
    case SquareGrid =>
      RemOfSmall(index + 2, 4);
      assert r == CsRem(index + 2, 4);
      RemOfSmall(r + 2, 4);
      assert s.TileNeighbourIndexOpposite(r) == CsRem(r + 2, 4);
  }

  /** The neighbour at the opposite index is the reversed direction. */
  lemma {:induction false} OppositeNeighbour(s: MapSettings, index: int)
    requires 0 <= index < |s.NeighbourDirections()|
    ensures s.TileNeighbourIndexOpposite(index) >= 0
    ensures s.TileNeighbourAtIndex(s.TileNeighbourIndexOpposite(index)) == s.TileNeighbourAtIndex(index).Neg()
  {
  }
}

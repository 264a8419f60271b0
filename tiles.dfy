/**
 * Tiles: the stored tile record (TileData), the tile type (TilePreset), the
 * movability conditions (TileCondition with its Not and HaveTag kinds), the
 * map rules and the runtime tile (TileEntity) that the search code works on.
 */
module Tiles {
  import opened Optional
  import opened Vectors

  /** A tile tag (a ScriptableObject in the source), compared by identity; here by name. */
  type TileTag = string

  /** TilePreset: a tile type; only the fields the core reads are kept. */
  datatype TilePreset = TilePreset(Type: string, Id: string, Tags: seq<TileTag>)

  /** TileData: one stored tile of a map. Only MovableArea is written after creation. */
  class TileData {
    const TilePos: Vec
    const Id: string
    var MovableArea: int
    const SideHeight: seq<real>

    constructor (pos: Vec, id: string, sides: seq<real>)
      ensures TilePos == pos && Id == id && SideHeight == sides && MovableArea == 0
    {
      TilePos := pos;
      Id := id;
      SideHeight := sides;
      MovableArea := 0;
    }
  }

  /**
   * What a condition can observe of a tile: its position, its preset and its
   * side heights. Conditions other than Not and HaveTag are left uninterpreted.
   */
  datatype TileView = TileView(Position: Vec, Preset: Option<TilePreset>, SideHeight: seq<real>)

  /** TileCondition and its two concrete kinds; `Custom` stands for any other subclass. */
  datatype Condition =
    | Not(Inner: Option<Condition>)
    | HaveTag(Tag: TileTag)
    | Custom(Holds: TileView -> bool)

  /** HaveTag dereferences `tile.Preset` unguarded, so it needs a preset to evaluate. */
  predicate CanEvaluate(c: Condition, v: TileView) {
    match c
    case Not(inner) => inner.None? || CanEvaluate(inner.value, v)
    case HaveTag(_) => v.Preset.Some?
    case Custom(_) => true
  }

  /** TileCondition.IsMet */
  function IsMet(c: Condition, v: TileView): bool
    requires CanEvaluate(c, v)
  {
    match c
    case Not(inner) => if inner.None? then false else !IsMet(inner.value, v)
    case HaveTag(tag) => tag in v.Preset.value.Tags
    case Custom(holds) => holds(v)
  }

  /** Not.IsMet: false without an inner condition, otherwise the negation of the inner one. */
  lemma {:induction false} NotIsMet(inner: Option<Condition>, v: TileView)
    requires CanEvaluate(Not(inner), v)
    ensures inner.None? ==> !IsMet(Not(inner), v)
    ensures inner.Some? ==> IsMet(Not(inner), v) == !IsMet(inner.value, v)
  {
  }

  /** A Not wrapping a Not around a condition evaluates to that condition. */
  lemma {:induction false} NotNot(c: Condition, v: TileView)
    requires CanEvaluate(c, v)
    ensures CanEvaluate(Not(Some(Not(Some(c)))), v)
    ensures IsMet(Not(Some(Not(Some(c)))), v) == IsMet(c, v)
  {
  }

  /** HaveTag.IsMet holds exactly when the preset's tag list contains the tag. */
  lemma {:induction false} HaveTagIsMet(tag: TileTag, v: TileView)
    requires v.Preset.Some?
    ensures IsMet(HaveTag(tag), v) <==> exists i :: 0 <= i < |v.Preset.value.Tags| && v.Preset.value.Tags[i] == tag
  {
  }

  /** HaveTag depends on the preset's tags only, not on position or sides. */
  lemma {:induction false} HaveTagOnlyTags(tag: TileTag, v: TileView, w: TileView)
    requires v.Preset.Some? && w.Preset.Some? && v.Preset.value.Tags == w.Preset.value.Tags
    ensures IsMet(HaveTag(tag), v) == IsMet(HaveTag(tag), w)
  {
  }

  /** An empty tag list never has the tag. */
  lemma {:induction false} HaveTagEmpty(tag: TileTag, v: TileView)
    requires v.Preset.Some? && v.Preset.value.Tags == []
    ensures !IsMet(HaveTag(tag), v)
  {
  }

  /** MapRules: the condition a tile must meet to be movable. */
  datatype MapRules = MapRules(IsMovable: Option<Condition>)

  /** The movability rule a vacancy test must evaluate, if any. */
  predicate RuleApplies(data: TileData?, rules: Option<MapRules>) {
    data != null && rules.Some? && rules.value.IsMovable.Some?
  }

  /** TileEntity: the runtime tile, holding the search flags of the path finder. */
  class TileEntity {
    /** TileEntity.CachedMovabeArea, read through the MovableArea property */
    var MovableArea: int
    /** Never written in this code, so it keeps its default 0. */
    const ObstacleCount: int := 0
    const Data: TileData?
    const Preset: Option<TilePreset>
    const Rules: Option<MapRules>
    var Visited: bool
    var Considered: bool
    var Depth: real

    /** TileEntity(TileData, TilePreset, MapRules); it reads `preset.MovableArea`, so the record must exist. */
    constructor (data: TileData, preset: Option<TilePreset>, rules: Option<MapRules>)
      ensures Data == data && Preset == preset && Rules == rules
      ensures MovableArea == data.MovableArea
      ensures !Visited && !Considered && Depth == 0.0
    {
      Data := data;
      Rules := rules;
      Preset := preset;
      MovableArea := data.MovableArea;
      Visited := false;
      Considered := false;
      Depth := 0.0;
    }

    /** TileEntity.Position: the record's position, or zero without a record. */
    function Position(): (p: Vec)
      ensures Data != null ==> p == Data.TilePos
      ensures Data == null ==> p == Zero
    {
      if Data == null then Zero else Data.TilePos
    }

    /** TileEntity.NeighbourMovable: the record's side heights, or null without a record. */
    function NeighbourMovable(): (s: Option<seq<real>>)
      ensures s.None? <==> Data == null
      ensures s.Some? ==> s.value == Data.SideHeight
    {
      if Data == null then None else Some(Data.SideHeight)
    }

    function View(): TileView {
      TileView(Position(), Preset, if Data == null then [] else Data.SideHeight)
    }

    /** The movability condition, when there is one, can be evaluated on this tile. */
    predicate VacantDefined() {
      RuleApplies(Data, Rules) ==> CanEvaluate(Rules.value.IsMovable.value, View())
    }

    /** TileEntity.Vacant */
    predicate Vacant()
      requires VacantDefined()
    {
      !RuleApplies(Data, Rules) || (IsMet(Rules.value.IsMovable.value, View()) && ObstacleCount == 0)
    }

    /** ChangeMovableAreaPreset writes the record only; the cached MovableArea stays as it was. */
    method ChangeMovableAreaPreset(area: int)
      requires Data != null
      modifies Data`MovableArea
      ensures Data.MovableArea == area
      ensures MovableArea == old(MovableArea)
    {
      Data.MovableArea := area;
    }
  }

  /** Vacant is true whenever there is no record, no rules or no movability condition. */
  lemma {:induction false} VacantWithoutRule(t: TileEntity)
    requires t.VacantDefined() && !RuleApplies(t.Data, t.Rules)
    ensures t.Vacant()
  {
  }

  /** Otherwise Vacant is the movability condition together with the empty obstacle count. */
  lemma {:induction false} VacantWithRule(t: TileEntity)
    requires t.VacantDefined() && RuleApplies(t.Data, t.Rules)
    ensures t.Vacant() <==> IsMet(t.Rules.value.IsMovable.value, t.View())
  {
  }

  /** A tile dictionary as the map builds it: every entry sits at its own record's position. */
  predicate KeyedByPosition(tiles: map<Vec, TileEntity>) {
    forall p :: p in tiles ==> tiles[p].Data != null && tiles[p].Data.TilePos == p
  }

  /** In such a dictionary an entity sits at one key only, and that key is its position. */
  lemma {:induction false} KeyedInjective(tiles: map<Vec, TileEntity>, p: Vec, q: Vec)
    requires KeyedByPosition(tiles) && p in tiles && q in tiles && tiles[p] == tiles[q]
    ensures p == q && tiles[p].Position() == p
  {
  }
}

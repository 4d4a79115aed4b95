/**
 * The static tables of `HDBlockModels`: the block model registered for each
 * global block-state index, the states whose updates are ignored, the states
 * whose custom model wants tile-entity data, and the memo of scaled model
 * sets; plus the mod id a model file is named after.
 *
 * Block states are known only through a lookup, given as a parameter: a
 * block name resolves to its base state, which is either air or lists the
 * global indices of its states in state order.
 */
module HDBlockModels {
  import opened JavaLang

  /** A subblock of a volumetric model (`scale` per side). */
  datatype Cell = Cell(x: int, y: int, z: int)

  /** What a registered model is, as far as the loader looks at it. */
  datatype Shape = Volumetric(cells: set<Cell>) | PatchBased | CustomRendered

  /** A registered model: the block set (file) that defined it, its texture count and its shape. */
  datatype BlockModel = BlockModel(blockSet: string, textureCount: int, shape: Shape)

  /** A base block state: air, or the global indices of its states. */
  datatype BaseBlock = Air | Block(states: seq<int>)

  /** `DynmapBlockState.getBaseStateByName`. */
  type BlockLookup = string -> BaseBlock

  /** `HDScaledBlockModels`: the per-scale model set handed out by the memo. */
  class ScaledModels {
    const scale: int

    constructor (scale: int)
      ensures this.scale == scale
    {
      this.scale := scale;
    }
  }

  /** The static state of `HDBlockModels`. */
  class ModelRegistry {
    var modelsByIdData: map<int, BlockModel>
    var changeIgnoredBlocks: set<int>
    var customModelsRequestingTileData: set<int>
    var scaledModelsByScale: map<int, ScaledModels>

    constructor ()
      ensures modelsByIdData == map[] && changeIgnoredBlocks == {}
      ensures customModelsRequestingTileData == {} && scaledModelsByScale == map[]
    {
      modelsByIdData := map[];
      changeIgnoredBlocks := {};
      customModelsRequestingTileData := {};
      scaledModelsByScale := map[];
    }

    /**
     * `resetIfNotBlockSet`: a model defined by another block set is dropped
     * (true); a model of the same set, or none, stays (false).
     */
    method ResetIfNotBlockSet(state: int, blockSet: string) returns (reset: bool)
      modifies this
      ensures reset <==> state in old(modelsByIdData) && old(modelsByIdData)[state].blockSet != blockSet
      ensures modelsByIdData == if reset then old(modelsByIdData) - {state} else old(modelsByIdData)
      ensures changeIgnoredBlocks == old(changeIgnoredBlocks)
      ensures customModelsRequestingTileData == old(customModelsRequestingTileData)
      ensures scaledModelsByScale == old(scaledModelsByScale)
    {
      reset := false;
      if state in modelsByIdData && modelsByIdData[state].blockSet != blockSet {
        modelsByIdData := modelsByIdData - {state};
        reset := true;
      }
    }

    /** `getNeededTextureCount`: the model's own count, or 6 (one per face) without a model. */
    function NeededTextureCount(state: int): (n: int)
      reads this
      ensures state !in modelsByIdData ==> n == 6
      ensures state in modelsByIdData ==> n == modelsByIdData[state].textureCount
    {
      if state in modelsByIdData then modelsByIdData[state].textureCount else 6
    }

    /**
     * `getModelsForScale`: the set made for this scale the first time it is
     * asked for, and the same object every later time.
     */
    method ModelsForScale(scale: int) returns (m: ScaledModels)
      modifies this
      ensures scale in old(scaledModelsByScale) ==> m == old(scaledModelsByScale)[scale] && scaledModelsByScale == old(scaledModelsByScale)
      ensures scale !in old(scaledModelsByScale) ==> fresh(m) && m.scale == scale && scaledModelsByScale == old(scaledModelsByScale)[scale := m]
      ensures modelsByIdData == old(modelsByIdData) && changeIgnoredBlocks == old(changeIgnoredBlocks)
      ensures customModelsRequestingTileData == old(customModelsRequestingTileData)
    {
      if scale in scaledModelsByScale {
        m := scaledModelsByScale[scale];
      } else {
        m := new ScaledModels(scale);
        scaledModelsByScale := scaledModelsByScale[scale := m];
      }
    }

    /**
     * `remapModel(bn, newbn)` as written: both block states are looked up
     * from `bn`, so every state of `bn` takes over its own model and flags.
     */
    method RemapModel(bn: string, newbn: string, lookup: BlockLookup)
      modifies this
      ensures modelsByIdData == old(modelsByIdData)
      ensures changeIgnoredBlocks == old(changeIgnoredBlocks)
      ensures customModelsRequestingTileData == old(customModelsRequestingTileData)
      ensures scaledModelsByScale == old(scaledModelsByScale)
    {
      var from := lookup(bn);
      var to := lookup(bn);
      var fromStates := StatesOf(from);
      var toStates := StatesOf(to);
      var fcnt := |fromStates|;
      var bs := 0;
      while bs < |toStates|
        invariant 0 <= bs <= |toStates|
        invariant modelsByIdData == old(modelsByIdData)
        invariant changeIgnoredBlocks == old(changeIgnoredBlocks)
        invariant customModelsRequestingTileData == old(customModelsRequestingTileData)
        invariant scaledModelsByScale == old(scaledModelsByScale)
      {
        var tb := toStates[bs];
        var fs := toStates[bs % fcnt];
        assert fs == tb;
        ghost var ignored, custom := changeIgnoredBlocks, customModelsRequestingTileData;
        CopyState(fs, tb);
        assert forall s :: s in changeIgnoredBlocks <==> s in ignored;
        assert forall s :: s in customModelsRequestingTileData <==> s in custom;
        bs := bs + 1;
      }
    }

    /**
     * One step of the remap loop: state `to` takes the model (or the absence
     * of one) and both flags of state `from`.
     */
    method CopyState(from: int, to: int)
      modifies this
      ensures modelsByIdData == if from in old(modelsByIdData) then old(modelsByIdData)[to := old(modelsByIdData)[from]] else old(modelsByIdData) - {to}
      ensures to in changeIgnoredBlocks <==> from in old(changeIgnoredBlocks)
      ensures forall s :: s != to ==> (s in changeIgnoredBlocks <==> s in old(changeIgnoredBlocks))
      ensures to in customModelsRequestingTileData <==> from in old(customModelsRequestingTileData)
      ensures forall s :: s != to ==> (s in customModelsRequestingTileData <==> s in old(customModelsRequestingTileData))
      ensures scaledModelsByScale == old(scaledModelsByScale)
    {
      if from in modelsByIdData {
        modelsByIdData := modelsByIdData[to := modelsByIdData[from]];
      } else {
        modelsByIdData := modelsByIdData - {to};
      }
      customModelsRequestingTileData := SetFlag(customModelsRequestingTileData, to, from in customModelsRequestingTileData);
      changeIgnoredBlocks := SetFlag(changeIgnoredBlocks, to, from in changeIgnoredBlocks);
    }

    /**
     * `remapModel` as its names say it is meant: state `bs` of `newbn` takes
     * over the model and both flags of state `bs % fcnt` of `bn`, and every
     * state that is not one of `newbn`'s keeps its model and flags.
     */
    method RemapModelIntended(bn: string, newbn: string, lookup: BlockLookup)
      modifies this
      ensures var from, to := StatesOf(lookup(bn)), StatesOf(lookup(newbn));
        forall k :: 0 <= k < |to| && Distinct(to) && !Overlap(from, to) ==>
          (to[k] in modelsByIdData <==> from[k % |from|] in old(modelsByIdData)) &&
          (to[k] in modelsByIdData ==> modelsByIdData[to[k]] == old(modelsByIdData)[from[k % |from|]]) &&
          (to[k] in changeIgnoredBlocks <==> from[k % |from|] in old(changeIgnoredBlocks)) &&
          (to[k] in customModelsRequestingTileData <==> from[k % |from|] in old(customModelsRequestingTileData))
      ensures var to := StatesOf(lookup(newbn));
        forall s :: s !in to ==> Unmoved(s, old(modelsByIdData), old(changeIgnoredBlocks), old(customModelsRequestingTileData))
      ensures scaledModelsByScale == old(scaledModelsByScale)
    {
      var fromStates := StatesOf(lookup(bn));
      var toStates := StatesOf(lookup(newbn));
      var fcnt := |fromStates|;
      var bs := 0;
      while bs < |toStates|
        invariant 0 <= bs <= |toStates|
        invariant Distinct(toStates) && !Overlap(fromStates, toStates) ==>
          forall k :: 0 <= k < bs ==>
            (toStates[k] in modelsByIdData <==> fromStates[k % fcnt] in old(modelsByIdData)) &&
            (toStates[k] in modelsByIdData ==> modelsByIdData[toStates[k]] == old(modelsByIdData)[fromStates[k % fcnt]]) &&
            (toStates[k] in changeIgnoredBlocks <==> fromStates[k % fcnt] in old(changeIgnoredBlocks)) &&
            (toStates[k] in customModelsRequestingTileData <==> fromStates[k % fcnt] in old(customModelsRequestingTileData))
        invariant forall s :: s !in toStates[..bs] ==>
          Unmoved(s, old(modelsByIdData), old(changeIgnoredBlocks), old(customModelsRequestingTileData))
        invariant scaledModelsByScale == old(scaledModelsByScale)
      {
        var tb := toStates[bs];
        var fs := fromStates[bs % fcnt];
        if Distinct(toStates) && !Overlap(fromStates, toStates) {
          assert forall j :: 0 <= j < |toStates| ==> toStates[j] != fs;
          assert fs !in toStates[..bs];
          assert Unmoved(fs, old(modelsByIdData), old(changeIgnoredBlocks), old(customModelsRequestingTileData));
          assert forall j :: 0 <= j < bs ==> toStates[j] != tb;
        }
        CopyState(fs, tb);
        assert toStates[..bs + 1] == toStates[..bs] + [tb];
        bs := bs + 1;
      }
      assert toStates[..bs] == toStates;
    }

    /** State `s` has the model and the two flags it had in the given tables. */
    predicate Unmoved(s: int, models: map<int, BlockModel>, ignored: set<int>, custom: set<int>)
      reads this
    {
      (s in modelsByIdData <==> s in models) &&
      (s in modelsByIdData ==> modelsByIdData[s] == models[s]) &&
      (s in changeIgnoredBlocks <==> s in ignored) &&
      (s in customModelsRequestingTileData <==> s in custom)
    }
  }

  /** The global indices of a base block's states (air has the one state 0 here). */
  function StatesOf(b: BaseBlock): (r: seq<int>)
    ensures |r| >= 1
    ensures b.Block? && |b.states| > 0 ==> r == b.states
  {
    if b.Air? || |b.states| == 0 then [0] else b.states
  }

  /** `BitSet.set(i, v)` for a set of indices. */
  function SetFlag(flags: set<int>, i: int, v: bool): (r: set<int>)
    ensures i in r <==> v
    ensures forall s :: s != i ==> (s in r <==> s in flags)
  {
    if v then flags + {i} else flags - {i}
  }

  predicate Distinct(s: seq<int>) {
    forall i, j :: 0 <= i < j < |s| ==> s[i] != s[j]
  }

  predicate Overlap(a: seq<int>, b: seq<int>) {
    exists i, j :: 0 <= i < |a| && 0 <= j < |b| && a[i] == b[j]
  }

  /**
   * `getModIDFromFileName`: the part after the last '/' and before the last
   * '-', each cut made only when that character is past the first position.
   */
  function ModIdFromFileName(fn: string): (r: string)
    ensures |r| <= |fn|
    ensures LastIndexOf(fn, '/') <= 0 && LastIndexOf(fn, '-') <= 0 ==> r == fn
  {
    var slash := LastIndexOf(fn, '/');
    var name := if slash > 0 then fn[slash + 1..] else fn;
    var dash := LastIndexOf(name, '-');
    if dash > 0 then name[..dash] else name
  }

  /**
   * A model file "dir/mod-rest" with a non-empty directory and mod id, and
   * no '/' or '-' after the mod id, is named after that mod id.
   */
  lemma ModIdOfPath(dir: string, mod: string, rest: string)
    requires |dir| > 0 && |mod| > 0
    requires '/' !in mod && '/' !in rest && '-' !in rest
    ensures ModIdFromFileName(dir + "/" + mod + "-" + rest) == mod
  {
    var fn := dir + "/" + mod + "-" + rest;
    var slash := LastIndexOf(fn, '/');
    assert fn[|dir|] == '/';
    assert slash == |dir|;
    var name := fn[slash + 1..];
    assert name == mod + "-" + rest;
    var dash := LastIndexOf(name, '-');
    assert name[|mod|] == '-';
    assert dash == |mod|;
    assert name[..dash] == mod;
  }
}

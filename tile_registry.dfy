/**
 * The add-on tile-file registry of dynmap's texture packs: the `addonfiles`
 * list, its `addonFilesByName` index and the `next_dynamic_tile` counter of
 * `TexturePack`.
 *
 * Every tile file is registered once under its name. Each file carries a slot
 * table mapping its local tile numbers to ids in the global tile table; ids
 * are handed out lazily from the counter, which starts right after the last
 * static tile. `parseTextureIndex` turns a texture value of a definition file
 * into such a global id, carrying its modifier code along.
 *
 * A `DynamicTileFile` is held as a value in the list; the name index maps a
 * name to the file's position in the list, which stands for the shared object.
 * The operations are specified as functions on `RegistryState`; the class
 * `AddonFiles` holds the same state in fields and its methods are proved
 * against those functions.
 */
module TileRegistry {
  import opened JavaLang
  import opened CustomTiles

  /** Index of the last static tile; dynamic ids start right after it. */
  const MAX_TILEINDEX: int := 267
  const TILEINDEX_CHEST_COUNT: int := 6
  const TILEINDEX_BIGCHEST_COUNT: int := 10
  const TILEINDEX_SIGN_COUNT: int := 10
  const TILEINDEX_SKIN_COUNT: int := 6
  const TILEINDEX_SHULKER_COUNT: int := 6
  const TILEINDEX_BED_COUNT: int := 18
  /** The texture source of a definition file that has no image behind it. */
  const TXTID_INVALID: int := -2
  /** The modifier code sits at x1000 in definition files and at x1000000 inside. */
  const COLORMOD_MULT_FILE: int := 1000
  const COLORMOD_MULT_INTERNAL: int := 1000000
  /** Where the vanilla 1.6 resource-pack and 1.5 texture-pack block images live. */
  const RP_PREFIX: string := "assets/minecraft/textures/blocks/"
  const BLOCK_PREFIX: string := "textures/blocks/"
  const PNG: string := ".png"

  datatype DynamicTileFile = DynamicTileFile(
    idx: int,
    filename: string,
    modname: Option<string>,
    tilecntX: int,
    tilecntY: int,
    tileToDyntile: seq<int>,
    format: TileFileFormat,
    cust: seq<Option<CustomTileRec>>,
    used: bool)

  datatype RegistryState = RegistryState(files: seq<DynamicTileFile>, byName: map<string, int>, next: int)

  /** The registry right after it is cleared. */
  const EMPTY: RegistryState := RegistryState([], map[], MAX_TILEINDEX + 1)

  /** The size of a new file's slot table; `x*y` is Java `int` arithmetic. */
  function SlotCount(fmt: TileFileFormat, x: int, y: int, customCount: int): (n: int)
    ensures fmt != GRID && fmt != TILESET && fmt != CUSTOM ==> n >= 1
  {
    match fmt
    case GRID => Wrap32(x * y)
    case TILESET => Wrap32(x * y)
    case CHEST => TILEINDEX_CHEST_COUNT
    case BIGCHEST => TILEINDEX_BIGCHEST_COUNT
    case SIGN => TILEINDEX_SIGN_COUNT
    case SHULKER => TILEINDEX_SHULKER_COUNT
    case BED => TILEINDEX_BED_COUNT
    case SKIN => TILEINDEX_SKIN_COUNT
    case BIOME => 1
    case CUSTOM => customCount
  }

  // ---------------------------------------------------------------------
  // The registry's invariant

  /** The index names exactly the files, each at its own position. */
  ghost predicate NamesOk(s: RegistryState) {
    (forall name :: name in s.byName ==> 0 <= s.byName[name] < |s.files| && s.files[s.byName[name]].filename == name) &&
    (forall i :: 0 <= i < |s.files| ==> s.files[i].idx == i && s.files[i].filename in s.byName && s.byName[s.files[i].filename] == i)
  }

  /** A file's slot table has its format's size and holds -1 or an id already handed out. */
  ghost predicate FileOk(f: DynamicTileFile, next: int) {
    |f.tileToDyntile| == SlotCount(f.format, f.tilecntX, f.tilecntY, |f.cust|) &&
    forall k :: 0 <= k < |f.tileToDyntile| ==> -1 <= f.tileToDyntile[k] < next
  }

  ghost predicate FilesOk(s: RegistryState) {
    forall i :: 0 <= i < |s.files| ==> FileOk(s.files[i], s.next)
  }

  /** Slot `k` of file `i`. */
  function SlotAt(s: RegistryState, i: int, k: int): int
    requires 0 <= i < |s.files| && 0 <= k < |s.files[i].tileToDyntile|
  {
    s.files[i].tileToDyntile[k]
  }

  ghost predicate IsSlot(s: RegistryState, i: int, k: int) {
    0 <= i < |s.files| && 0 <= k < |s.files[i].tileToDyntile|
  }

  /** Every id past the static range is held by one slot of one file. */
  ghost predicate DynamicIdsUnique(s: RegistryState) {
    forall i, k, j, l {:trigger SlotAt(s, i, k), SlotAt(s, j, l)} ::
      IsSlot(s, i, k) && IsSlot(s, j, l) && SlotAt(s, i, k) > MAX_TILEINDEX && SlotAt(s, i, k) == SlotAt(s, j, l)
      ==> i == j && k == l
  }

  ghost predicate Consistent(s: RegistryState) {
    s.next > MAX_TILEINDEX && NamesOk(s) && FilesOk(s) && DynamicIdsUnique(s)
  }

  /** The state after a call and the value or exception it ends with; an exception leaves the state alone. */
  function Outcome(s: RegistryState, res: Result<(RegistryState, int)>): (RegistryState, Result<int>) {
    match res
    case Ok((s', v)) => (s', Ok(v))
    case Err(e) => (s, Err(e))
  }

  // ---------------------------------------------------------------------
  // findOrAddDynamicTileFile

  /** The registry with `f` added at the end of the list and under its name. */
  function Appended(s: RegistryState, f: DynamicTileFile): RegistryState {
    RegistryState(s.files + [f], s.byName[f.filename := |s.files|], s.next)
  }

  /** The tile records of a new file: only a CUSTOM file reads its arguments. */
  function CustFor(fmt: TileFileFormat, args: seq<string>): seq<Option<CustomTileRec>> {
    if fmt == CUSTOM then CustomRecsFrom([], args) else []
  }

  /**
   * Registers a tile file, or returns the position of the one already under
   * that name (its dimensions, format and arguments are then ignored). A new
   * file goes at the end of the list with every slot unassigned; only a BIOME
   * file starts out used. A negative slot count throws.
   */
  function AddFile(s: RegistryState, name: string, mod: Option<string>, x: int, y: int,
                   fmt: TileFileFormat, args: seq<string>): Result<(RegistryState, int)>
  {
    if name in s.byName then Ok((s, s.byName[name]))
    else
      var cust := CustFor(fmt, args);
      var n := SlotCount(fmt, x, y, |cust|);
      if n < 0 then Err(NegativeArraySizeException)
      else Ok((Appended(s, DynamicTileFile(|s.files|, name, mod, x, y, seq(n, _ => -1), fmt, cust, fmt == BIOME)), |s.files|))
  }

  lemma AppendNames(s: RegistryState, f: DynamicTileFile)
    requires NamesOk(s) && f.filename !in s.byName && f.idx == |s.files|
    ensures NamesOk(Appended(s, f))
  {
    var s' := Appended(s, f);
    forall k | 0 <= k < |s.files|
      ensures s'.files[k] == s.files[k] && s'.byName[s.files[k].filename] == k
    {
      assert s.files[k].filename in s.byName;
    }
  }

  lemma AppendFiles(s: RegistryState, f: DynamicTileFile)
    requires FilesOk(s) && FileOk(f, s.next)
    ensures FilesOk(Appended(s, f))
  {
    var s' := Appended(s, f);
    assert forall k :: 0 <= k < |s.files| ==> s'.files[k] == s.files[k];
  }

  lemma AppendUnique(s: RegistryState, f: DynamicTileFile)
    requires DynamicIdsUnique(s) && forall k :: 0 <= k < |f.tileToDyntile| ==> f.tileToDyntile[k] <= MAX_TILEINDEX
    ensures DynamicIdsUnique(Appended(s, f))
  {
    var s' := Appended(s, f);
    forall i, k, j, l | IsSlot(s', i, k) && IsSlot(s', j, l) && SlotAt(s', i, k) > MAX_TILEINDEX && SlotAt(s', i, k) == SlotAt(s', j, l)
      ensures i == j && k == l
    {
      assert i < |s.files| && j < |s.files|;
      assert SlotAt(s', i, k) == SlotAt(s, i, k) && SlotAt(s', j, l) == SlotAt(s, j, l);
    }
  }

  /** Adding a new file whose slots are unassigned keeps the invariant. */
  lemma AppendPreserves(s: RegistryState, f: DynamicTileFile)
    requires Consistent(s) && f.filename !in s.byName && f.idx == |s.files| && FileOk(f, s.next)
    requires forall k :: 0 <= k < |f.tileToDyntile| ==> f.tileToDyntile[k] == -1
    ensures Consistent(Appended(s, f))
  {
    AppendNames(s, f);
    AppendFiles(s, f);
    AppendUnique(s, f);
  }

  /** Adding a file keeps the invariant; the name then leads to the returned position. */
  lemma AddFilePreserves(s: RegistryState, name: string, mod: Option<string>, x: int, y: int,
                         fmt: TileFileFormat, args: seq<string>)
    requires Consistent(s) && AddFile(s, name, mod, x, y, fmt, args).Ok?
    ensures var (s', i) := AddFile(s, name, mod, x, y, fmt, args).value;
      Consistent(s') && name in s'.byName && s'.byName[name] == i &&
      s'.next == s.next && s'.files[..|s.files|] == s.files &&
      (forall n :: n in s.byName ==> n in s'.byName && s'.byName[n] == s.byName[n])
  {
    if name !in s.byName {
      var cust := CustFor(fmt, args);
      var n := SlotCount(fmt, x, y, |cust|);
      var f := DynamicTileFile(|s.files|, name, mod, x, y, seq(n, _ => -1), fmt, cust, fmt == BIOME);
      assert FileOk(f, s.next);
      AppendPreserves(s, f);
      assert Appended(s, f).files[..|s.files|] == s.files;
    }
  }

  /** A name not yet registered gets the next position and a table of unassigned slots. */
  lemma AddFileNew(s: RegistryState, name: string, mod: Option<string>, x: int, y: int,
                   fmt: TileFileFormat, args: seq<string>)
    requires Consistent(s) && name !in s.byName
    requires SlotCount(fmt, x, y, |CustFor(fmt, args)|) >= 0
    ensures AddFile(s, name, mod, x, y, fmt, args).Ok?
    ensures var (s', i) := AddFile(s, name, mod, x, y, fmt, args).value;
      Consistent(s') && i == |s.files| && |s'.files| == i + 1 && s'.files[i].used == (fmt == BIOME) &&
      forall k :: FindTile(s', name, k).1 == -1
  {
    AddFilePreserves(s, name, mod, x, y, fmt, args);
  }

  /** Asking for the same name again returns the same position and changes nothing. */
  lemma AddFileAgain(s: RegistryState, name: string, mod: Option<string>, x: int, y: int, fmt: TileFileFormat,
                     args: seq<string>, mod2: Option<string>, x2: int, y2: int, fmt2: TileFileFormat, args2: seq<string>)
    requires Consistent(s) && AddFile(s, name, mod, x, y, fmt, args).Ok?
    ensures var (s', i) := AddFile(s, name, mod, x, y, fmt, args).value;
      AddFile(s', name, mod2, x2, y2, fmt2, args2) == Ok((s', i))
  {
    AddFilePreserves(s, name, mod, x, y, fmt, args);
  }

  // ---------------------------------------------------------------------
  // findDynamicTile

  /**
   * The global id of tile `idx` of the named file, marking the file used;
   * -1 when the file is unknown, the number is out of range or the slot is
   * still unassigned.
   */
  function FindTile(s: RegistryState, name: string, idx: int): (RegistryState, int)
    requires Consistent(s)
  {
    if name in s.byName then
      var i := s.byName[name];
      var f := s.files[i];
      if 0 <= idx < |f.tileToDyntile| && f.tileToDyntile[idx] >= 0 then
        (MarkUsed(s, i), f.tileToDyntile[idx])
      else (s, -1)
    else (s, -1)
  }

  /** The registry with file `i` marked used. */
  function MarkUsed(s: RegistryState, i: int): RegistryState
    requires 0 <= i < |s.files|
  {
    s.(files := s.files[i := s.files[i].(used := true)])
  }

  /** Two states that differ at most in the files' used flags. */
  ghost predicate OnlyUsedChanged(s: RegistryState, s': RegistryState) {
    s'.byName == s.byName && s'.next == s.next && |s'.files| == |s.files| &&
    forall j :: 0 <= j < |s.files| ==> s'.files[j] == s.files[j].(used := s'.files[j].used)
  }

  lemma OnlyUsedNames(s: RegistryState, s': RegistryState)
    requires NamesOk(s) && OnlyUsedChanged(s, s')
    ensures NamesOk(s')
  {
    assert forall j :: 0 <= j < |s.files| ==> s'.files[j].filename == s.files[j].filename && s'.files[j].idx == s.files[j].idx;
  }

  lemma OnlyUsedFiles(s: RegistryState, s': RegistryState)
    requires FilesOk(s) && OnlyUsedChanged(s, s')
    ensures FilesOk(s')
  {
    forall j | 0 <= j < |s'.files|
      ensures FileOk(s'.files[j], s'.next)
    {
      assert FileOk(s.files[j], s.next);
    }
  }

  lemma OnlyUsedUnique(s: RegistryState, s': RegistryState)
    requires DynamicIdsUnique(s) && OnlyUsedChanged(s, s')
    ensures DynamicIdsUnique(s')
  {
    forall a, b, c, d | IsSlot(s', a, b) && IsSlot(s', c, d) && SlotAt(s', a, b) > MAX_TILEINDEX && SlotAt(s', a, b) == SlotAt(s', c, d)
      ensures a == c && b == d
    {
      assert SlotAt(s', a, b) == SlotAt(s, a, b) && SlotAt(s', c, d) == SlotAt(s, c, d);
    }
  }

  /** Changing only used flags keeps the invariant. */
  lemma OnlyUsedPreserves(s: RegistryState, s': RegistryState)
    requires Consistent(s) && OnlyUsedChanged(s, s')
    ensures Consistent(s')
  {
    OnlyUsedNames(s, s');
    OnlyUsedFiles(s, s');
    OnlyUsedUnique(s, s');
  }

  /** Marking a file used keeps the invariant and changes nothing else. */
  lemma MarkUsedPreserves(s: RegistryState, i: int)
    requires Consistent(s) && 0 <= i < |s.files|
    ensures Consistent(MarkUsed(s, i)) && MarkUsed(s, i).files[i].used && OnlyUsedChanged(s, MarkUsed(s, i))
  {
    var s' := MarkUsed(s, i);
    assert OnlyUsedChanged(s, s');
    OnlyUsedPreserves(s, s');
  }

  /** The registry with slot `k` of file `i` set to `v` and the file marked used. */
  function WithSlot(s: RegistryState, i: int, k: int, v: int): RegistryState
    requires 0 <= i < |s.files| && 0 <= k < |s.files[i].tileToDyntile|
  {
    var f := s.files[i];
    s.(files := s.files[i := f.(tileToDyntile := f.tileToDyntile[k := v], used := true)])
  }

  lemma WithSlotNames(s: RegistryState, i: int, k: int, v: int, next: int)
    requires NamesOk(s) && 0 <= i < |s.files| && 0 <= k < |s.files[i].tileToDyntile|
    ensures NamesOk(WithSlot(s, i, k, v).(next := next))
  {
    var s' := WithSlot(s, i, k, v).(next := next);
    assert forall j :: 0 <= j < |s.files| ==> s'.files[j].filename == s.files[j].filename && s'.files[j].idx == s.files[j].idx;
  }

  lemma WithSlotFiles(s: RegistryState, i: int, k: int, v: int, next: int)
    requires FilesOk(s) && 0 <= i < |s.files| && 0 <= k < |s.files[i].tileToDyntile|
    requires -1 <= v < next && s.next <= next
    ensures FilesOk(WithSlot(s, i, k, v).(next := next))
  {
    var s' := WithSlot(s, i, k, v).(next := next);
    forall j | 0 <= j < |s'.files|
      ensures FileOk(s'.files[j], next)
    {
      assert FileOk(s.files[j], s.next);
    }
  }

  lemma WithSlotUnique(s: RegistryState, i: int, k: int, v: int, next: int)
    requires FilesOk(s) && DynamicIdsUnique(s) && 0 <= i < |s.files| && 0 <= k < |s.files[i].tileToDyntile|
    requires v <= MAX_TILEINDEX || v >= s.next
    ensures DynamicIdsUnique(WithSlot(s, i, k, v).(next := next))
  {
    var s' := WithSlot(s, i, k, v).(next := next);
    forall a, b, c, d | IsSlot(s', a, b) && IsSlot(s', c, d) && SlotAt(s', a, b) > MAX_TILEINDEX && SlotAt(s', a, b) == SlotAt(s', c, d)
      ensures a == c && b == d
    {
      if a != i || b != k {
        assert SlotAt(s', a, b) == SlotAt(s, a, b);
        assert FileOk(s.files[a], s.next);
      }
      if c != i || d != k {
        assert SlotAt(s', c, d) == SlotAt(s, c, d);
        assert FileOk(s.files[c], s.next);
      }
    }
  }

  /**
   * Setting one slot to a static id, or to an id no slot holds yet (at or
   * past the counter), keeps the invariant.
   */
  lemma WithSlotPreserves(s: RegistryState, i: int, k: int, v: int, next: int)
    requires Consistent(s) && 0 <= i < |s.files| && 0 <= k < |s.files[i].tileToDyntile|
    requires -1 <= v < next && s.next <= next && (v <= MAX_TILEINDEX || v >= s.next)
    ensures Consistent(WithSlot(s, i, k, v).(next := next))
  {
    WithSlotNames(s, i, k, v, next);
    WithSlotFiles(s, i, k, v, next);
    WithSlotUnique(s, i, k, v, next);
  }

  /** A lookup assigns nothing: it keeps the invariant and every slot, and only finds ids already handed out. */
  lemma FindTilePreserves(s: RegistryState, name: string, idx: int)
    requires Consistent(s)
    ensures var (s', r) := FindTile(s, name, idx);
      Consistent(s') && OnlyUsedChanged(s, s') && -1 <= r < s.next &&
      (r >= 0 <==> name in s.byName && 0 <= idx < |s.files[s.byName[name]].tileToDyntile| &&
                   s.files[s.byName[name]].tileToDyntile[idx] >= 0)
  {
    if name in s.byName {
      var i := s.byName[name];
      MarkUsedPreserves(s, i);
      assert FileOk(s.files[i], s.next);
    }
  }

  // ---------------------------------------------------------------------
  // findOrAddDynamicTile

  /**
   * The global id of tile `tileId` of file `fileIdx`, handing out the next
   * id when the slot is unassigned; the file is marked used. A bad file
   * position, a number past the table and a negative number throw, in that
   * order of checking.
   */
  function AssignTile(s: RegistryState, fileIdx: int, tileId: int): Result<(RegistryState, int)> {
    if !(0 <= fileIdx < |s.files|) then Err(IndexOutOfBoundsException)
    else
      var f := s.files[fileIdx];
      if tileId >= |f.tileToDyntile| then Err(NumberFormatException)
      else if tileId < 0 then Err(ArrayIndexOutOfBoundsException)
      else if f.tileToDyntile[tileId] < 0 then
        Ok((WithSlot(s, fileIdx, tileId, s.next).(next := s.next + 1), s.next))
      else
        Ok((MarkUsed(s, fileIdx), f.tileToDyntile[tileId]))
  }

  /** The call succeeds exactly for an existing slot of an existing file. */
  lemma AssignTileSucceeds(s: RegistryState, fileIdx: int, tileId: int)
    ensures AssignTile(s, fileIdx, tileId).Ok? <==>
      0 <= fileIdx < |s.files| && 0 <= tileId < |s.files[fileIdx].tileToDyntile|
  {
  }

  /** An unassigned slot gets a fresh dynamic id no slot held before; nothing else changes. */
  lemma AssignTileFresh(s: RegistryState, fileIdx: int, tileId: int)
    requires Consistent(s) && 0 <= fileIdx < |s.files| && 0 <= tileId < |s.files[fileIdx].tileToDyntile|
    requires s.files[fileIdx].tileToDyntile[tileId] < 0
    ensures AssignTile(s, fileIdx, tileId).Ok?
    ensures var (s', id) := AssignTile(s, fileIdx, tileId).value;
      id == s.next && id > MAX_TILEINDEX && s'.next == s.next + 1 &&
      (forall i, k :: 0 <= i < |s.files| && 0 <= k < |s.files[i].tileToDyntile| ==> s.files[i].tileToDyntile[k] != id) &&
      |s'.files| == |s.files| &&
      (forall i, k :: 0 <= i < |s.files| && 0 <= k < |s.files[i].tileToDyntile| && (i != fileIdx || k != tileId) ==>
         s'.files[i].tileToDyntile[k] == s.files[i].tileToDyntile[k])
  {
    forall i, k | 0 <= i < |s.files| && 0 <= k < |s.files[i].tileToDyntile|
      ensures s.files[i].tileToDyntile[k] != s.next
    {
      assert FileOk(s.files[i], s.next);
    }
  }

  /** An assigned slot keeps its id and the counter does not move. */
  lemma AssignTileKept(s: RegistryState, fileIdx: int, tileId: int)
    requires 0 <= fileIdx < |s.files| && 0 <= tileId < |s.files[fileIdx].tileToDyntile|
    requires s.files[fileIdx].tileToDyntile[tileId] >= 0
    ensures AssignTile(s, fileIdx, tileId).Ok?
    ensures var (s', id) := AssignTile(s, fileIdx, tileId).value;
      id == s.files[fileIdx].tileToDyntile[tileId] && s'.next == s.next && |s'.files| == |s.files| &&
      forall i :: 0 <= i < |s.files| ==> s'.files[i].tileToDyntile == s.files[i].tileToDyntile
  {
  }

  /** Handing out an id keeps the invariant; the slot then holds the returned id. */
  lemma AssignTilePreserves(s: RegistryState, fileIdx: int, tileId: int)
    requires Consistent(s) && AssignTile(s, fileIdx, tileId).Ok?
    ensures var (s', id) := AssignTile(s, fileIdx, tileId).value;
      Consistent(s') && s'.byName == s.byName && |s'.files| == |s.files| &&
      s'.files[fileIdx].tileToDyntile[tileId] == id && id >= 0 && s'.files[fileIdx].used &&
      (forall i :: 0 <= i < |s.files| ==> s'.files[i].filename == s.files[i].filename)
  {
    var f := s.files[fileIdx];
    if f.tileToDyntile[tileId] < 0 {
      WithSlotPreserves(s, fileIdx, tileId, s.next, s.next + 1);
    } else {
      MarkUsedPreserves(s, fileIdx);
      assert FileOk(f, s.next);
    }
  }

  /** Asking for the same slot twice returns the same id and the second call changes nothing. */
  lemma AssignTileIdempotent(s: RegistryState, fileIdx: int, tileId: int)
    requires Consistent(s) && AssignTile(s, fileIdx, tileId).Ok?
    ensures var (s', id) := AssignTile(s, fileIdx, tileId).value;
      AssignTile(s', fileIdx, tileId) == Ok((s', id))
  {
    var (s', id) := AssignTile(s, fileIdx, tileId).value;
    var f' := s'.files[fileIdx];
    assert f'.tileToDyntile[tileId] == id && id >= 0;
    assert MarkUsed(s', fileIdx) == s' by {
      assert f'.(used := true) == f';
      assert s'.files[fileIdx := f'] == s'.files;
    }
  }

  /** After an id is handed out for a named file, looking the tile up finds it. */
  lemma AssignThenFind(s: RegistryState, name: string, tileId: int)
    requires Consistent(s) && name in s.byName && AssignTile(s, s.byName[name], tileId).Ok?
    ensures var (s', id) := AssignTile(s, s.byName[name], tileId).value;
      Consistent(s') && FindTile(s', name, tileId) == (s', id)
  {
    AssignTilePreserves(s, s.byName[name], tileId);
    AssignTileIdempotent(s, s.byName[name], tileId);
  }

  // ---------------------------------------------------------------------
  // parseTextureIndex

  /** A call's id with the modifier code put back at x1000000 (Java `int` arithmetic). */
  function WithModifier(res: Result<(RegistryState, int)>, funcid: int): Result<(RegistryState, int)> {
    match res
    case Ok((s, id)) => Ok((s, Wrap32(id + COLORMOD_MULT_INTERNAL * funcid)))
    case Err(e) => Err(e)
  }

  /**
   * The texture file and the number of a definition-file value "n" or
   * "n:attr": an attribute names the file instead of `src`. A missing
   * attribute and a bad number throw.
   */
  function TextureValue(fileToIndex: map<string, int>, src: int, val: string): Result<(int, int)> {
    var off := IndexOf(val, ':');
    if off > 0 then
      var txt := val[off + 1..];
      if txt !in fileToIndex then Err(NumberFormatException)
      else
        match ParseInt(val[..off])
        case None => Err(NumberFormatException)
        case Some(n) => Ok((fileToIndex[txt], n))
    else
      match ParseInt(val)
      case None => Err(NumberFormatException)
      case Some(n) => Ok((src, n))
  }

  /**
   * The internal id of number `n` of file `src`: the modifier code n/1000
   * moves to x1000000; the rest, when not negative and a file is known, is
   * mapped to a global id. A definition with no default image throws.
   */
  function MapTexture(s: RegistryState, src: int, n: int): Result<(RegistryState, int)> {
    var funcid := JDiv(n, COLORMOD_MULT_FILE);
    var base := n - COLORMOD_MULT_FILE * funcid;
    if src >= 0 && base >= 0 then WithModifier(AssignTile(s, src, base), funcid)
    else if src == TXTID_INVALID then Err(NumberFormatException)
    else Ok((s, Wrap32(base + COLORMOD_MULT_INTERNAL * funcid)))
  }

  /** `parseTextureIndex`: the internal texture id of a definition-file value. */
  function TextureIndex(s: RegistryState, fileToIndex: map<string, int>, src: int, val: string): Result<(RegistryState, int)> {
    match TextureValue(fileToIndex, src, val)
    case Err(e) => Err(e)
    case Ok((src', n)) => MapTexture(s, src', n)
  }

  /** A printed number reads back with the given source. */
  lemma TextureValueOfNumber(fileToIndex: map<string, int>, src: int, n: int)
    requires IsInt32(n)
    ensures TextureValue(fileToIndex, src, IntToString(n)) == Ok((src, n))
  {
    ParseIntOfToString(n);
  }

  /** "t:attr" reads as "t" against the file the attribute names, and throws for an unknown one. */
  lemma TextureValueAttribute(fileToIndex: map<string, int>, src: int, t: string, attr: string)
    requires |t| > 0 && ':' !in t
    ensures TextureValue(fileToIndex, src, t + ":" + attr) ==
      if attr in fileToIndex then TextureValue(fileToIndex, fileToIndex[attr], t) else Err(NumberFormatException)
  {
    var v := t + ":" + attr;
    IndexOfConcat(t, ':', attr);
    assert v[..|t|] == t;
    assert v[|t| + 1..] == attr;
  }

  /**
   * A plain number n is Java's n%1000 (mapped through the source file when
   * both are not negative) plus its modifier n/1000 moved to x1000000.
   */
  lemma TextureIndexOfNumber(s: RegistryState, fileToIndex: map<string, int>, src: int, n: int)
    requires IsInt32(n) && src != TXTID_INVALID
    ensures TextureIndex(s, fileToIndex, src, IntToString(n)) ==
      if src >= 0 && JRem(n, COLORMOD_MULT_FILE) >= 0
      then WithModifier(AssignTile(s, src, JRem(n, COLORMOD_MULT_FILE)), JDiv(n, COLORMOD_MULT_FILE))
      else Ok((s, Wrap32(JRem(n, COLORMOD_MULT_FILE) + COLORMOD_MULT_INTERNAL * JDiv(n, COLORMOD_MULT_FILE))))
  {
    TextureValueOfNumber(fileToIndex, src, n);
    JDivRem(n, COLORMOD_MULT_FILE);
  }

  /** "n:attr" is "n" read against the file the attribute names. */
  lemma TextureIndexAttribute(s: RegistryState, fileToIndex: map<string, int>, src: int, n: int, attr: string)
    requires attr in fileToIndex
    ensures TextureIndex(s, fileToIndex, src, IntToString(n) + ":" + attr) ==
      TextureIndex(s, fileToIndex, fileToIndex[attr], IntToString(n))
  {
    TextureValueAttribute(fileToIndex, src, IntToString(n), attr);
  }

  /** An attribute the definition does not know throws. */
  lemma TextureIndexUnknownAttribute(s: RegistryState, fileToIndex: map<string, int>, src: int, n: int, attr: string)
    requires attr !in fileToIndex
    ensures TextureIndex(s, fileToIndex, src, IntToString(n) + ":" + attr) == Err(NumberFormatException)
  {
    TextureValueAttribute(fileToIndex, src, IntToString(n), attr);
  }

  /** A value without an attribute, for a definition with no default image, always throws. */
  lemma TextureIndexNoDefault(s: RegistryState, fileToIndex: map<string, int>, val: string)
    requires ':' !in val
    ensures TextureIndex(s, fileToIndex, TXTID_INVALID, val).Err?
  {
  }

  /** Reading a texture value keeps the registry's invariant. */
  lemma TextureIndexPreserves(s: RegistryState, fileToIndex: map<string, int>, src: int, val: string)
    requires Consistent(s) && TextureIndex(s, fileToIndex, src, val).Ok?
    ensures Consistent(TextureIndex(s, fileToIndex, src, val).value.0)
  {
    var (src', n) := TextureValue(fileToIndex, src, val).value;
    var funcid := JDiv(n, COLORMOD_MULT_FILE);
    var base := n - COLORMOD_MULT_FILE * funcid;
    if src' >= 0 && base >= 0 {
      AssignTilePreserves(s, src', base);
    }
  }

  /**
   * The internal id splits back with Java's `/` and `%` by 1000000 into the
   * file value's modifier and tile, as `readColor` does, for every value up
   * to 2147999 (beyond it the modifier overflows the `int`).
   */
  lemma TextureCodeRoundTrip(n: int)
    requires 0 <= n <= 2147999
    ensures var v := JRem(n, COLORMOD_MULT_FILE) + COLORMOD_MULT_INTERNAL * JDiv(n, COLORMOD_MULT_FILE);
      IsInt32(v) && Wrap32(v) == v &&
      JDiv(v, COLORMOD_MULT_INTERNAL) == JDiv(n, COLORMOD_MULT_FILE) &&
      JRem(v, COLORMOD_MULT_INTERNAL) == JRem(n, COLORMOD_MULT_FILE)
  {
    var q, r := n / 1000, n % 1000;
    assert q <= 2147;
    var v := r + 1000000 * q;
    DivModUnique(v, 1000000, q, r);
  }

  /**
   * The remapped case of `parseTextureIndex`: when number `n` (not negative)
   * of file `src` has its tile `n % 1000` mapped to global id `t`, the
   * internal id is `t` plus the modifier `n / 1000` times 1000000, and it
   * splits back with Java's `/` and `%` by 1000000 into that modifier and
   * `t`, as `readColor` does, for every `t` below 1000000 whose sum is an `int`.
   */
  lemma MappedTextureCodeRoundTrip(s: RegistryState, src: int, n: int)
    requires Consistent(s) && src >= 0 && n >= 0
    requires AssignTile(s, src, JRem(n, COLORMOD_MULT_FILE)).Ok?
    ensures var t := AssignTile(s, src, JRem(n, COLORMOD_MULT_FILE)).value.1;
      var m := JDiv(n, COLORMOD_MULT_FILE);
      MapTexture(s, src, n).Ok? && 0 <= t &&
      (t < COLORMOD_MULT_INTERNAL && IsInt32(t + COLORMOD_MULT_INTERNAL * m) ==>
        var v := MapTexture(s, src, n).value.1;
        v == t + COLORMOD_MULT_INTERNAL * m &&
        JDiv(v, COLORMOD_MULT_INTERNAL) == m && JRem(v, COLORMOD_MULT_INTERNAL) == t)
  {
    var m := JDiv(n, COLORMOD_MULT_FILE);
    JDivRem(n, COLORMOD_MULT_FILE);
    assert n - COLORMOD_MULT_FILE * m == JRem(n, COLORMOD_MULT_FILE);
    var t := AssignTile(s, src, JRem(n, COLORMOD_MULT_FILE)).value.1;
    if t < COLORMOD_MULT_INTERNAL && IsInt32(t + COLORMOD_MULT_INTERNAL * m) {
      DivModUnique(t + COLORMOD_MULT_INTERNAL * m, COLORMOD_MULT_INTERNAL, m, t);
    }
  }

  // ---------------------------------------------------------------------
  // resetFiles

  /** The image file of a vanilla block texture. */
  function FileName(prefix: string, name: string): string {
    prefix + name + PNG
  }

  lemma FileNameInjective(prefix: string, a: string, b: string)
    requires FileName(prefix, a) == FileName(prefix, b)
    ensures a == b
  {
    var fa, fb := FileName(prefix, a), FileName(prefix, b);
    assert |a| == |b|;
    assert a == fa[|prefix|..|prefix| + |a|];
    assert b == fb[|prefix|..|prefix| + |b|];
  }

  /** A resource-pack file name is never a texture-pack file name. */
  lemma FileNamesDiffer(a: string, b: string)
    ensures FileName(RP_PREFIX, a) != FileName(BLOCK_PREFIX, b)
  {
    assert FileName(RP_PREFIX, a)[0] == 'a';
    assert FileName(BLOCK_PREFIX, b)[0] == 't';
  }

  /** All files registered during the reset are 1x1 grids. */
  ghost predicate OneSlotEach(s: RegistryState) {
    forall i :: 0 <= i < |s.files| ==> |s.files[i].tileToDyntile| == 1
  }

  /** Registering a 1x1 grid always succeeds and keeps every file at one slot. */
  lemma AddGridOne(s: RegistryState, fname: string)
    requires Consistent(s) && OneSlotEach(s)
    ensures AddFile(s, fname, None, 1, 1, GRID, []).Ok?
    ensures var (s1, idx) := AddFile(s, fname, None, 1, 1, GRID, []).value;
      Consistent(s1) && OneSlotEach(s1) && s1.next == s.next && fname in s1.byName && s1.byName[fname] == idx &&
      s1.files[..|s.files|] == s.files &&
      (forall n :: n in s.byName ==> n in s1.byName && s1.byName[n] == s.byName[n])
  {
    assert SlotCount(GRID, 1, 1, 0) == 1;
    AddFilePreserves(s, fname, None, 1, 1, GRID, []);
  }

  /** Register a vanilla image as a 1x1 grid and pin its one tile to static id `i`. */
  function Pin(s: RegistryState, fname: string, i: int): RegistryState
    requires Consistent(s) && OneSlotEach(s) && 0 <= i <= MAX_TILEINDEX
  {
    AddGridOne(s, fname);
    var (s1, idx) := AddFile(s, fname, None, 1, 1, GRID, []).value;
    WithSlot(s1, idx, 0, i)
  }

  /** Pinning keeps the invariant, hands out no dynamic id, and the file's tile is then `i`. */
  lemma PinPreserves(s: RegistryState, fname: string, i: int)
    requires Consistent(s) && OneSlotEach(s) && 0 <= i <= MAX_TILEINDEX
    ensures var r := Pin(s, fname, i);
      Consistent(r) && OneSlotEach(r) && r.next == s.next && FindTile(r, fname, 0).1 == i
  {
    AddGridOne(s, fname);
    var (s1, idx) := AddFile(s, fname, None, 1, 1, GRID, []).value;
    WithSlotPreserves(s1, idx, 0, i, s1.next);
    assert WithSlot(s1, idx, 0, i).(next := s1.next) == Pin(s, fname, i);
  }

  /** Pinning one image leaves the lookup of every other registered file alone. */
  lemma PinKeepsOthers(s: RegistryState, fname: string, i: int, other: string)
    requires Consistent(s) && OneSlotEach(s) && 0 <= i <= MAX_TILEINDEX
    requires other != fname && other in s.byName
    ensures Consistent(Pin(s, fname, i)) && other in Pin(s, fname, i).byName
    ensures FindTile(Pin(s, fname, i), other, 0).1 == FindTile(s, other, 0).1
  {
    PinPreserves(s, fname, i);
    AddGridOne(s, fname);
    var (s1, idx) := AddFile(s, fname, None, 1, 1, GRID, []).value;
    var j := s.byName[other];
    assert s1.byName[other] == j && j != idx;
    assert s1.files[j] == s.files[j];
    assert Pin(s, fname, i).files[j] == s1.files[j];
  }

  /** The registry after pinning `names[from..]`, entry j to id j. */
  function PinFrom(s: RegistryState, names: seq<Option<string>>, prefix: string, from: nat): (r: RegistryState)
    requires Consistent(s) && OneSlotEach(s) && from <= |names| <= MAX_TILEINDEX + 1
    ensures Consistent(r) && OneSlotEach(r) && r.next == s.next
    decreases |names| - from
  {
    if from == |names| then s
    else
      match names[from]
      case None => PinFrom(s, names, prefix, from + 1)
      case Some(n) =>
        PinPreserves(s, FileName(prefix, n), from);
        PinFrom(Pin(s, FileName(prefix, n), from), names, prefix, from + 1)
  }

  /** Pinning other names leaves a file's lookup alone. */
  lemma {:induction false} PinFromKeeps(s: RegistryState, names: seq<Option<string>>, prefix: string, from: nat, other: string)
    requires Consistent(s) && OneSlotEach(s) && from <= |names| <= MAX_TILEINDEX + 1 && other in s.byName
    requires forall j :: from <= j < |names| && names[j].Some? ==> FileName(prefix, names[j].value) != other
    ensures other in PinFrom(s, names, prefix, from).byName
    ensures FindTile(PinFrom(s, names, prefix, from), other, 0).1 == FindTile(s, other, 0).1
    decreases |names| - from
  {
    if from < |names| {
      match names[from]
      case None =>
        PinFromKeeps(s, names, prefix, from + 1, other);
      case Some(n) =>
        var fname := FileName(prefix, n);
        PinPreserves(s, fname, from);
        PinKeepsOthers(s, fname, from, other);
        PinFromKeeps(Pin(s, fname, from), names, prefix, from + 1, other);
    }
  }

  /** The last entry of a table with a given name decides that file's pinned id. */
  lemma {:induction false} PinFromLast(s: RegistryState, names: seq<Option<string>>, prefix: string, from: nat, i: nat, n: string)
    requires Consistent(s) && OneSlotEach(s) && from <= i < |names| <= MAX_TILEINDEX + 1
    requires names[i] == Some(n) && forall j :: i < j < |names| ==> names[j] != Some(n)
    ensures FileName(prefix, n) in PinFrom(s, names, prefix, from).byName
    ensures FindTile(PinFrom(s, names, prefix, from), FileName(prefix, n), 0).1 == i
    decreases i - from
  {
    var fname := FileName(prefix, n);
    if from < i {
      match names[from]
      case None =>
        PinFromLast(s, names, prefix, from + 1, i, n);
      case Some(m) =>
        PinPreserves(s, FileName(prefix, m), from);
        PinFromLast(Pin(s, FileName(prefix, m), from), names, prefix, from + 1, i, n);
    } else {
      PinPreserves(s, fname, i);
      var r := Pin(s, fname, i);
      forall j | i + 1 <= j < |names| && names[j].Some?
        ensures FileName(prefix, names[j].value) != fname
      {
        if FileName(prefix, names[j].value) == fname {
          FileNameInjective(prefix, names[j].value, n);
        }
      }
      PinFromKeeps(r, names, prefix, i + 1, fname);
    }
  }

  /**
   * The registry after `resetFiles`: emptied, then every resource-pack
   * image and after them every texture-pack image pinned to its position
   * in its table (a null entry is skipped).
   */
  function ResetState(rpNames: seq<Option<string>>, blockNames: seq<Option<string>>): (r: RegistryState)
    requires |rpNames| <= MAX_TILEINDEX + 1 && |blockNames| <= MAX_TILEINDEX + 1
    ensures Consistent(r) && r.next == MAX_TILEINDEX + 1
  {
    PinFrom(PinFrom(EMPTY, rpNames, RP_PREFIX, 0), blockNames, BLOCK_PREFIX, 0)
  }

  /**
   * After a reset, a resource-pack image is pinned to the last position its
   * name has in the table; the texture-pack pass does not touch it.
   */
  lemma ResetPinsResourcePack(rpNames: seq<Option<string>>, blockNames: seq<Option<string>>, i: nat, n: string)
    requires |rpNames| <= MAX_TILEINDEX + 1 && |blockNames| <= MAX_TILEINDEX + 1
    requires i < |rpNames| && rpNames[i] == Some(n) && forall j :: i < j < |rpNames| ==> rpNames[j] != Some(n)
    ensures FindTile(ResetState(rpNames, blockNames), FileName(RP_PREFIX, n), 0).1 == i
  {
    var s1 := PinFrom(EMPTY, rpNames, RP_PREFIX, 0);
    PinFromLast(EMPTY, rpNames, RP_PREFIX, 0, i, n);
    forall j | 0 <= j < |blockNames| && blockNames[j].Some?
      ensures FileName(BLOCK_PREFIX, blockNames[j].value) != FileName(RP_PREFIX, n)
    {
      FileNamesDiffer(n, blockNames[j].value);
    }
    PinFromKeeps(s1, blockNames, BLOCK_PREFIX, 0, FileName(RP_PREFIX, n));
  }

  /** After a reset, a texture-pack image is pinned to the last position its name has in the table. */
  lemma ResetPinsTexturePack(rpNames: seq<Option<string>>, blockNames: seq<Option<string>>, i: nat, n: string)
    requires |rpNames| <= MAX_TILEINDEX + 1 && |blockNames| <= MAX_TILEINDEX + 1
    requires i < |blockNames| && blockNames[i] == Some(n) && forall j :: i < j < |blockNames| ==> blockNames[j] != Some(n)
    ensures FindTile(ResetState(rpNames, blockNames), FileName(BLOCK_PREFIX, n), 0).1 == i
  {
    PinFromLast(PinFrom(EMPTY, rpNames, RP_PREFIX, 0), blockNames, BLOCK_PREFIX, 0, i, n);
  }

  // ---------------------------------------------------------------------
  // The registry as `TexturePack` holds it

  class AddonFiles {
    var addonfiles: seq<DynamicTileFile>
    var addonFilesByName: map<string, int>
    var nextDynamicTile: int
    /** Mods supplying their own texture files. */
    var loadedmods: set<string>

    function State(): RegistryState
      reads this
    {
      RegistryState(addonfiles, addonFilesByName, nextDynamicTile)
    }

    ghost predicate Valid()
      reads this
    {
      Consistent(State())
    }

    /** The registry as first loaded: empty, with dynamic ids starting after the static ones. */
    constructor ()
      ensures State() == EMPTY && loadedmods == {} && Valid()
    {
      addonfiles := [];
      addonFilesByName := map[];
      nextDynamicTile := MAX_TILEINDEX + 1;
      loadedmods := {};
    }

    /** `findDynamicTile` */
    method FindDynamicTile(fname: string, idx: int) returns (r: int)
      requires Valid()
      modifies this`addonfiles
      ensures (State(), r) == FindTile(old(State()), fname, idx)
      ensures Valid()
    {
      ghost var s := State();
      FindTilePreserves(s, fname, idx);
      r := -1;
      if fname in addonFilesByName {
        var i := addonFilesByName[fname];
        var f := addonfiles[i];
        if 0 <= idx < |f.tileToDyntile| && f.tileToDyntile[idx] >= 0 {
          addonfiles := addonfiles[i := f.(used := true)];
          r := f.tileToDyntile[idx];
        }
      }
    }

    /** `findOrAddDynamicTileFile` */
    method FindOrAddDynamicTileFile(fileName: string, modName: Option<string>, xdim: int, ydim: int,
                                    fmt: TileFileFormat, args: seq<string>) returns (r: Result<int>)
      requires Valid()
      modifies this`addonfiles, this`addonFilesByName
      ensures (State(), r) == Outcome(old(State()), AddFile(old(State()), fileName, modName, xdim, ydim, fmt, args))
      ensures Valid()
    {
      ghost var s := State();
      if fileName in addonFilesByName {
        r := Ok(addonFilesByName[fileName]);
        return;
      }
      var cust: seq<Option<CustomTileRec>> := [];
      if fmt == CUSTOM {
        cust := CustomRecs(args);
      }
      var n := SlotCount(fmt, xdim, ydim, |cust|);
      if n < 0 {
        r := Err(NegativeArraySizeException);
        return;
      }
      var table := new int[n];
      for k := 0 to n
        modifies table
        invariant table[..k] == seq(k, _ => -1)
      {
        table[k] := -1;
      }
      assert table[..] == table[..n];
      var f := DynamicTileFile(|addonfiles|, fileName, modName, xdim, ydim, table[..], fmt, cust, fmt == BIOME);
      addonfiles := addonfiles + [f];
      addonFilesByName := addonFilesByName[fileName := f.idx];
      r := Ok(f.idx);
      assert State() == Appended(s, f);
      AddFilePreserves(s, fileName, modName, xdim, ydim, fmt, args);
    }

    /** `findOrAddDynamicTile` */
    method FindOrAddDynamicTile(fileIdx: int, tileId: int) returns (r: Result<int>)
      requires Valid()
      modifies this`addonfiles, this`nextDynamicTile
      ensures (State(), r) == Outcome(old(State()), AssignTile(old(State()), fileIdx, tileId))
      ensures Valid()
    {
      ghost var s := State();
      if !(0 <= fileIdx < |addonfiles|) {
        return Err(IndexOutOfBoundsException);
      }
      var f := addonfiles[fileIdx];
      if tileId >= |f.tileToDyntile| {
        return Err(NumberFormatException);
      }
      if tileId < 0 {
        return Err(ArrayIndexOutOfBoundsException);
      }
      if f.tileToDyntile[tileId] < 0 {
        f := f.(tileToDyntile := f.tileToDyntile[tileId := nextDynamicTile]);
        nextDynamicTile := nextDynamicTile + 1;
      }
      f := f.(used := true);
      addonfiles := addonfiles[fileIdx := f];
      r := Ok(f.tileToDyntile[tileId]);
      AssignTilePreserves(s, fileIdx, tileId);
    }

    /** `parseTextureIndex` */
    method ParseTextureIndex(fileToIndex: map<string, int>, srcTxtId: int, val: string) returns (r: Result<int>)
      requires Valid()
      modifies this`addonfiles, this`nextDynamicTile
      ensures (State(), r) == Outcome(old(State()), TextureIndex(old(State()), fileToIndex, srcTxtId, val))
      ensures Valid()
    {
      var value := TextureValue(fileToIndex, srcTxtId, val);
      if value.Err? {
        return Err(value.error);
      }
      var (src, txtid) := value.value;
      r := MapTextureIndex(src, txtid);
    }

    /** The second half of `parseTextureIndex`: number `n` of file `src` to an internal id. */
    method MapTextureIndex(src: int, n: int) returns (r: Result<int>)
      requires Valid()
      modifies this`addonfiles, this`nextDynamicTile
      ensures (State(), r) == Outcome(old(State()), MapTexture(old(State()), src, n))
      ensures Valid()
    {
      var funcid := JDiv(n, COLORMOD_MULT_FILE);
      var txtid := n - COLORMOD_MULT_FILE * funcid;
      if src >= 0 && txtid >= 0 {
        var mapped := FindOrAddDynamicTile(src, txtid);
        if mapped.Err? {
          return Err(mapped.error);
        }
        txtid := mapped.value;
      } else if src == TXTID_INVALID {
        return Err(NumberFormatException);
      }
      r := Ok(Wrap32(txtid + COLORMOD_MULT_INTERNAL * funcid));
    }

    /**
     * `resetFiles`: empties the registry and the mod set, restarts the
     * counter and pins the vanilla images, resource-pack names first.
     * `rpNames` and `blockNames` stand for the two static name tables.
     */
    method ResetFiles(rpNames: seq<Option<string>>, blockNames: seq<Option<string>>)
      requires |rpNames| <= MAX_TILEINDEX + 1 && |blockNames| <= MAX_TILEINDEX + 1
      modifies this
      ensures State() == ResetState(rpNames, blockNames) && loadedmods == {} && Valid()
    {
      addonfiles := [];
      addonFilesByName := map[];
      loadedmods := {};
      nextDynamicTile := MAX_TILEINDEX + 1;
      PinNames(rpNames, RP_PREFIX);
      PinNames(blockNames, BLOCK_PREFIX);
    }

    /** One of `resetFiles`' two loops: pin every named image of a table to its position. */
    method PinNames(names: seq<Option<string>>, prefix: string)
      requires Valid() && OneSlotEach(State()) && |names| <= MAX_TILEINDEX + 1
      modifies this`addonfiles, this`addonFilesByName
      ensures Valid() && OneSlotEach(State())
      ensures State() == PinFrom(old(State()), names, prefix, 0)
    {
      var i := 0;
      while i < |names|
        invariant 0 <= i <= |names|
        invariant Valid() && OneSlotEach(State())
        invariant PinFrom(State(), names, prefix, i) == PinFrom(old(State()), names, prefix, 0)
      {
        if names[i].Some? {
          ghost var s := State();
          var fname := FileName(prefix, names[i].value);
          AddFilePreserves(s, fname, None, 1, 1, GRID, []);
          var res := FindOrAddDynamicTileFile(fname, None, 1, 1, GRID, []);
          var idx := res.value;
          var dtf := addonfiles[idx];
          addonfiles := addonfiles[idx := dtf.(tileToDyntile := dtf.tileToDyntile[0 := i], used := true)];
          PinPreserves(s, fname, i);
          assert State() == Pin(s, fname, i);
        }
        i := i + 1;
      }
    }
  }
}

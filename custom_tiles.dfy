/**
 * The arguments of dynmap's CUSTOM tile files: each "tileN=x:y/w:h[/tx:ty]"
 * argument of a texture definition says where tile N of the file lies in the
 * image and where it goes in the tile. `findOrAddDynamicTileFile` in
 * `TexturePack` reads them into a list indexed by N.
 */
module CustomTiles {
  import opened JavaLang

  /** The key prefix of a CUSTOM tile argument, "tileN=...". */
  const TILE_KEY: string := "tile"

  /** The layouts a tile file may have. */
  datatype TileFileFormat = GRID | CHEST | BIGCHEST | SIGN | SKIN | SHULKER | CUSTOM | TILESET | BIOME | BED

  /** Where one tile of a CUSTOM file lies in the image, and where it goes in the tile. */
  datatype CustomTileRec = CustomTileRec(srcx: int, srcy: int, width: int, height: int, targetx: int, targety: int)

  // ---------------------------------------------------------------------
  // The CUSTOM format's "tileN=x:y/w:h[/tx:ty]" arguments

  /** The two numbers of "a:b" (anything after a second ':' is ignored); None when either fails. */
  function ParsePair(s: string): Option<(int, int)> {
    var p := Split(s, {':'});
    if |p| < 2 || ParseInt(p[0]).None? || ParseInt(p[1]).None? then None
    else Some((ParseInt(p[0]).value, ParseInt(p[1]).value))
  }

  /**
   * The record of "x:y/w:h[/tx:ty]". A missing part, a missing number or a
   * bad number throws inside the source's `try`, and the record is dropped.
   */
  function ParseCoords(s: string): Option<CustomTileRec> {
    var coords := Split(s, {'/'});
    if |coords| < 2 then None
    else
      var topLeft := ParsePair(coords[0]);
      var size := ParsePair(coords[1]);
      var dest := if |coords| >= 3 then ParsePair(coords[2]) else Some((0, 0));
      if topLeft.None? || size.None? || dest.None? then None
      else
        Some(CustomTileRec(topLeft.value.0, topLeft.value.1, size.value.0, size.value.1, dest.value.0, dest.value.1))
  }

  /** The tile number and coordinate text of an argument "tileN=...", when it is one. */
  function TileArg(a: string): Option<(int, string)> {
    var v := Split(a, {'='});
    if |v| != 2 || !StartsWith(v[0], TILE_KEY) then None
    else
      var id := ParseInt(v[0][|TILE_KEY|..]);
      if id.None? then None else Some((id.value, v[1]))
  }

  /** `recs` padded with nulls up to length `n`. */
  function PadTo(recs: seq<Option<CustomTileRec>>, n: int): (r: seq<Option<CustomTileRec>>)
    ensures |r| == if n > |recs| then n else |recs|
    ensures forall k :: 0 <= k < |recs| ==> r[k] == recs[k]
    ensures forall k :: |recs| <= k < |r| ==> r[k] == None
  {
    if n <= |recs| then recs else recs + seq(n - |recs|, _ => None)
  }

  /**
   * One argument of the CUSTOM loop. The list grows to hold tile N before the
   * coordinates are read, so a bad coordinate still leaves the null entries;
   * a negative N makes `set` throw, which the same `try` swallows.
   */
  function CustomArgStep(recs: seq<Option<CustomTileRec>>, a: string): (r: seq<Option<CustomTileRec>>)
    ensures |r| >= |recs|
  {
    match TileArg(a)
    case None => recs
    case Some((id, coords)) =>
      var grown := PadTo(recs, id + 1);
      var rec := ParseCoords(coords);
      if id < 0 || rec.None? then grown else grown[id := rec]
  }

  /** The records the CUSTOM loop builds from `args`, starting from `recs`. */
  function CustomRecsFrom(recs: seq<Option<CustomTileRec>>, args: seq<string>): seq<Option<CustomTileRec>>
    decreases |args|
  {
    if |args| == 0 then recs else CustomRecsFrom(CustomArgStep(recs, args[0]), args[1..])
  }

  lemma CustomRecsFromAt(recs: seq<Option<CustomTileRec>>, args: seq<string>, i: int)
    requires 0 <= i < |args|
    ensures CustomRecsFrom(recs, args[i..]) == CustomRecsFrom(CustomArgStep(recs, args[i]), args[i + 1..])
  {
    assert args[i..][1..] == args[i + 1..];
  }

  /** The CUSTOM branch of `findOrAddDynamicTileFile`: a loop over the arguments. */
  method CustomRecs(args: seq<string>) returns (recs: seq<Option<CustomTileRec>>)
    ensures recs == CustomRecsFrom([], args)
  {
    recs := [];
    var i := 0;
    while i < |args|
      invariant 0 <= i <= |args|
      invariant CustomRecsFrom(recs, args[i..]) == CustomRecsFrom([], args)
    {
      CustomRecsFromAt(recs, args, i);
      recs := CustomArgStep(recs, args[i]);
      i := i + 1;
    }
  }

  /** Text of a number pair "a:b". */
  function PairText(a: int, b: int): string {
    IntToString(a) + ":" + IntToString(b)
  }

  /** Text of a record in its short form "x:y/w:h" (the target defaults to 0:0). */
  function CoordsText(rec: CustomTileRec): string {
    PairText(rec.srcx, rec.srcy) + "/" + PairText(rec.width, rec.height)
  }

  /** Text of a record in its long form "x:y/w:h/tx:ty". */
  function CoordsTextWithTarget(rec: CustomTileRec): string {
    CoordsText(rec) + "/" + PairText(rec.targetx, rec.targety)
  }

  predicate IsInt32Rec(rec: CustomTileRec) {
    IsInt32(rec.srcx) && IsInt32(rec.srcy) && IsInt32(rec.width) && IsInt32(rec.height) &&
    IsInt32(rec.targetx) && IsInt32(rec.targety)
  }

  /** A printed number holds only digits and '-'. */
  lemma NumberChars(n: int, c: char)
    requires c in IntToString(n)
    ensures IsDigit(c) || c == '-'
  {
  }

  /** A printed pair reads back as the pair. */
  lemma ParsePairOfText(a: int, b: int)
    requires IsInt32(a) && IsInt32(b)
    ensures ParsePair(PairText(a, b)) == Some((a, b))
    ensures '/' !in PairText(a, b) && '=' !in PairText(a, b) && |PairText(a, b)| > 0
  {
    var parts := [IntToString(a), IntToString(b)];
    JoinTwo(IntToString(a), IntToString(b), ':');
    forall k, c | 0 <= k < |parts| && c in parts[k]
      ensures c !in {':'}
    {
      NumberChars(if k == 0 then a else b, c);
    }
    SplitOfJoin(parts, ':', {':'});
    ParseIntOfToString(a);
    ParseIntOfToString(b);
    if '/' in PairText(a, b) || '=' in PairText(a, b) {
      var c :| c in PairText(a, b) && (c == '/' || c == '=');
      if c in IntToString(a) {
        NumberChars(a, c);
      } else {
        NumberChars(b, c);
      }
    }
  }

  /** Splitting "p/q" or "p/q/t" at '/' when no piece has one. */
  lemma SplitSlashes(parts: seq<string>)
    requires 2 <= |parts| <= 3
    requires forall k :: 0 <= k < |parts| ==> |parts[k]| > 0 && '/' !in parts[k]
    ensures Split(Join(parts, '/'), {'/'}) == parts
  {
    SplitOfJoin(parts, '/', {'/'});
  }

  /** Splitting "p/q/t" at '/' when no piece has one. */
  lemma SplitThree(p0: string, p1: string, p2: string)
    requires |p0| > 0 && |p1| > 0 && |p2| > 0 && '/' !in p0 && '/' !in p1 && '/' !in p2
    ensures Split(p0 + "/" + p1 + "/" + p2, {'/'}) == [p0, p1, p2]
  {
    JoinThree(p0, p1, p2, '/');
    SplitSlashes([p0, p1, p2]);
  }

  /** The short printed form of a record reads back as the record with a 0:0 target. */
  lemma ParseCoordsOfText(rec: CustomTileRec)
    requires IsInt32Rec(rec)
    ensures ParseCoords(CoordsText(rec)) == Some(rec.(targetx := 0, targety := 0))
  {
    var p0, p1 := PairText(rec.srcx, rec.srcy), PairText(rec.width, rec.height);
    ParsePairOfText(rec.srcx, rec.srcy);
    ParsePairOfText(rec.width, rec.height);
    JoinTwo(p0, p1, '/');
    SplitSlashes([p0, p1]);
    assert Split(CoordsText(rec), {'/'}) == [p0, p1];
  }

  /** A text that splits into three pairs at '/' reads as the record of those pairs. */
  lemma ParseCoordsOfPieces(s: string, p0: string, p1: string, p2: string, rec: CustomTileRec)
    requires Split(s, {'/'}) == [p0, p1, p2]
    requires ParsePair(p0) == Some((rec.srcx, rec.srcy)) && ParsePair(p1) == Some((rec.width, rec.height))
    requires ParsePair(p2) == Some((rec.targetx, rec.targety))
    ensures ParseCoords(s) == Some(rec)
  {
  }

  /** The long printed form of a record reads back as the record. */
  lemma ParseCoordsOfTextWithTarget(rec: CustomTileRec)
    requires IsInt32Rec(rec)
    ensures ParseCoords(CoordsTextWithTarget(rec)) == Some(rec)
  {
    var p0, p1, p2 := PairText(rec.srcx, rec.srcy), PairText(rec.width, rec.height), PairText(rec.targetx, rec.targety);
    ParsePairOfText(rec.srcx, rec.srcy);
    ParsePairOfText(rec.width, rec.height);
    ParsePairOfText(rec.targetx, rec.targety);
    SplitThree(p0, p1, p2);
    ParseCoordsOfPieces(CoordsTextWithTarget(rec), p0, p1, p2, rec);
  }

  /** The argument "tileN=<coords>" for tile N. */
  function TileArgText(id: int, coords: string): string {
    TILE_KEY + IntToString(id) + "=" + coords
  }

  /** "tileN=<coords>" is recognised as tile N with that coordinate text. */
  lemma TileArgOfText(id: int, coords: string)
    requires IsInt32(id) && |coords| > 0 && '=' !in coords
    ensures TileArg(TileArgText(id, coords)) == Some((id, coords))
  {
    var key := TILE_KEY + IntToString(id);
    forall c | c in key
      ensures c != '='
    {
      if c in IntToString(id) {
        NumberChars(id, c);
      }
    }
    JoinTwo(key, coords, '=');
    SplitOfJoin([key, coords], '=', {'='});
    assert key[..|TILE_KEY|] == TILE_KEY;
    assert key[|TILE_KEY|..] == IntToString(id);
    ParseIntOfToString(id);
  }

  /** A tile argument whose coordinates parse stores the record at its number. */
  lemma CustomArgStepStores(recs: seq<Option<CustomTileRec>>, a: string, id: nat, coords: string, rec: CustomTileRec)
    requires TileArg(a) == Some((id, coords)) && ParseCoords(coords) == Some(rec)
    ensures var r := CustomArgStep(recs, a);
      |r| == (if id < |recs| then |recs| else id + 1) && r[id] == Some(rec) &&
      (forall k :: 0 <= k < |r| && k != id ==> r[k] == if k < |recs| then recs[k] else None)
  {
  }

  /**
   * A well-formed "tileN=x:y/w:h/tx:ty" argument stores its record at N,
   * growing the list with nulls as needed and leaving the other entries alone.
   */
  lemma CustomArgStores(recs: seq<Option<CustomTileRec>>, id: nat, rec: CustomTileRec)
    requires IsInt32(id) && IsInt32Rec(rec)
    ensures var r := CustomArgStep(recs, TileArgText(id, CoordsTextWithTarget(rec)));
      |r| == (if id < |recs| then |recs| else id + 1) && r[id] == Some(rec) &&
      (forall k :: 0 <= k < |r| && k != id ==> r[k] == if k < |recs| then recs[k] else None)
  {
    var text := CoordsTextWithTarget(rec);
    ParsePairOfText(rec.srcx, rec.srcy);
    ParsePairOfText(rec.width, rec.height);
    ParsePairOfText(rec.targetx, rec.targety);
    assert '=' !in text;
    TileArgOfText(id, text);
    ParseCoordsOfTextWithTarget(rec);
    CustomArgStepStores(recs, TileArgText(id, text), id, text, rec);
  }

  /** An argument that is not "tileN=..." with a number N leaves the records alone. */
  lemma CustomArgIgnored(recs: seq<Option<CustomTileRec>>, a: string)
    requires |Split(a, {'='})| != 2
    ensures CustomArgStep(recs, a) == recs
  {
  }
}

/**
 * Tile addressing shared by the SQLite and PostgreSQL map storages: the URI
 * a `StorageTile` computes when it is created, `getTile(world, uri)`, which
 * parses such a URI back, `getZoomOutTile`, and `equals`/`hashCode`. The two
 * back ends carry textually identical copies of this logic.
 *
 * A URI reads `<prefix><variant>/<x>>5>_<y>>5>/[<z-run>_]<x>_<y>.<ext>`; the
 * z-run holds one 'z' per zoom level and is cut from a 16-character literal.
 */
module TileStorage {
  import opened JavaLang

  /** A map type as addressing sees it: prefix, image-variant suffixes, file extension. */
  datatype MapType = MapType(prefix: string, variantSuffixes: seq<string>, fileExt: string)

  /** A storage tile with the URI computed when it was created. */
  datatype StorageTile = StorageTile(mt: MapType, variantSuffix: string, x: int, y: int, zoom: int, uri: string)

  const ZOOM_RUN: string := "zzzzzzzzzzzzzzzz"

  function MapName(mt: MapType, variantSuffix: string): string {
    mt.prefix + variantSuffix
  }

  predicate NoSlash(s: string) { '/' !in s }

  /** Characters a tile file name is tokenised on. */
  const COORD_DELIMS: set<char> := {'_', '.'}

  /** Text `Integer.toString` produces holds no path or token separator. */
  lemma NumberTextPlain(n: int)
    ensures forall c :: c in IntToString(n) ==> c !in COORD_DELIMS && c != '/'
  {
  }

  /** The directory of 32 x 32 tiles: `(x >> 5) + "_" + (y >> 5)`; an arithmetic shift by 5 floors. */
  function TileDir(x: int, y: int): (r: string)
    ensures NoSlash(r)
  {
    NumberTextPlain(x / 32);
    NumberTextPlain(y / 32);
    IntToString(x / 32) + "_" + IntToString(y / 32)
  }

  function CoordName(x: int, y: int, ext: string): string {
    IntToString(x) + "_" + (IntToString(y) + "." + ext)
  }

  /**
   * The file part: for zoom > 0 the first `zoom` characters of the z-run and
   * '_' go first; `substring(0, zoom)` throws for zoom beyond the run's length.
   */
  function TileFile(x: int, y: int, zoom: int, ext: string): (r: Result<string>)
    ensures r.Err? <==> zoom > |ZOOM_RUN|
    ensures r.Err? ==> r.error == StringIndexOutOfBoundsException
  {
    if zoom <= 0 then Ok(CoordName(x, y, ext))
    else if zoom > |ZOOM_RUN| then Err(StringIndexOutOfBoundsException)
    else Ok(ZOOM_RUN[..zoom] + "_" + CoordName(x, y, ext))
  }

  /** The URI built in the `StorageTile` constructor. */
  function TileUri(mt: MapType, variantSuffix: string, x: int, y: int, zoom: int): (r: Result<string>)
    ensures r.Err? <==> zoom > |ZOOM_RUN|
    ensures r.Err? ==> r.error == StringIndexOutOfBoundsException
  {
    var file := TileFile(x, y, zoom, mt.fileExt);
    if file.Err? then Err(file.error)
    else Ok(MapName(mt, variantSuffix) + "/" + (TileDir(x, y) + "/" + file.value))
  }

  /** `new StorageTile(world, map, x, y, zoom, var)`: fails exactly when the URI cannot be built. */
  function NewTile(mt: MapType, variantSuffix: string, x: int, y: int, zoom: int): (r: Result<StorageTile>)
    ensures r.Err? <==> zoom > |ZOOM_RUN|
    ensures r.Err? ==> r.error == StringIndexOutOfBoundsException
    ensures r.Ok? ==> r.value.mt == mt && r.value.variantSuffix == variantSuffix
    ensures r.Ok? ==> r.value.x == x && r.value.y == y && r.value.zoom == zoom
  {
    var uri := TileUri(mt, variantSuffix, x, y, zoom);
    if uri.Err? then Err(uri.error)
    else Ok(StorageTile(mt, variantSuffix, x, y, zoom, uri.value))
  }

  /** The first variant suffix of one map type that names `mname`. */
  function FindSuffix(prefix: string, suffixes: seq<string>, mname: string): (r: Option<string>)
    ensures r.Some? ==> r.value in suffixes && prefix + r.value == mname
    ensures r.None? <==> forall j :: 0 <= j < |suffixes| ==> prefix + suffixes[j] != mname
  {
    if |suffixes| == 0 then None
    else if prefix + suffixes[0] == mname then Some(suffixes[0])
    else FindSuffix(prefix, suffixes[1..], mname)
  }

  /** The nested search of `getTile(world, uri)`: the first map type and variant, in order, named `mname`. */
  function FindVariant(maps: seq<MapType>, mname: string): (r: Option<(MapType, string)>)
    ensures r.Some? ==> r.value.0 in maps && r.value.1 in r.value.0.variantSuffixes
    ensures r.Some? ==> MapName(r.value.0, r.value.1) == mname
    ensures r.None? <==> forall i, j :: 0 <= i < |maps| && 0 <= j < |maps[i].variantSuffixes| ==>
                           MapName(maps[i], maps[i].variantSuffixes[j]) != mname
  {
    if |maps| == 0 then None
    else
      match FindSuffix(maps[0].prefix, maps[0].variantSuffixes, mname)
      case Some(v) => Some((maps[0], v))
      case None =>
        var rest := FindVariant(maps[1..], mname);
        assert forall i :: 1 <= i < |maps| ==> maps[i] == maps[1..][i - 1];
        rest
  }

  /**
   * Zoom, x and y read from a file name split on '_' and '.': fewer than three
   * tokens or a coordinate `parseInt` rejects gives no tile, and an empty first
   * token makes `charAt(0)` throw. A first token starting with 'z' is the zoom.
   */
  function ParseCoords(fname: string): (r: Result<Option<(int, int, int)>>)
    ensures r.Err? <==> |Split(fname, COORD_DELIMS)| >= 3 && Split(fname, COORD_DELIMS)[0] == ""
    ensures r.Err? ==> r.error == StringIndexOutOfBoundsException
    ensures r.Ok? && r.value.Some? ==> IsInt32(r.value.value.1) && IsInt32(r.value.value.2)
    ensures r.Ok? && r.value.Some? ==> r.value.value.0 >= 0
    ensures |Split(fname, COORD_DELIMS)| < 3 ==> r == Ok(None)
    ensures var c := Split(fname, COORD_DELIMS);
            |c| >= 3 && c[0] != "" ==>
              var zoomed := c[0][0] == 'z';
              var x := ParseInt(if zoomed then c[1] else c[0]);
              var y := ParseInt(if zoomed then c[2] else c[1]);
              (r == Ok(None) <==> x.None? || y.None?) &&
              (r.Ok? && r.value.Some? ==> r.value.value == (if zoomed then |c[0]| else 0, x.value, y.value))
  {
    var coord := Split(fname, COORD_DELIMS);
    if |coord| < 3 then Ok(None)
    else if |coord[0]| == 0 then Err(StringIndexOutOfBoundsException)
    else
      var zoomed := coord[0][0] == 'z';
      var zoom := if zoomed then |coord[0]| else 0;
      var x := ParseInt(if zoomed then coord[1] else coord[0]);
      var y := ParseInt(if zoomed then coord[2] else coord[1]);
      if x.None? || y.None? then Ok(None)
      else Ok(Some((zoom, x.value, y.value)))
  }

  /**
   * `getTile(world, uri)`: the first '/' segment selects the map and variant,
   * the last one holds the coordinates. Null becomes `None`; a too-long z-run
   * makes the tile constructor throw.
   */
  function ParseTileUri(maps: seq<MapType>, uri: string): (r: Result<Option<StorageTile>>)
    ensures |Split(uri, {'/'})| < 2 ==> r == Ok(None)
    ensures |Split(uri, {'/'})| >= 2 && FindVariant(maps, Split(uri, {'/'})[0]).None? ==> r == Ok(None)
    ensures r.Err? ==> r.error == StringIndexOutOfBoundsException
    ensures r.Ok? && r.value.Some? ==> MapName(r.value.value.mt, r.value.value.variantSuffix) == Split(uri, {'/'})[0]
    ensures r.Ok? && r.value.Some? ==> 0 <= r.value.value.zoom <= |ZOOM_RUN|
    ensures r.Ok? && r.value.Some? ==> IsInt32(r.value.value.x) && IsInt32(r.value.value.y)
    ensures var suri := Split(uri, {'/'});
            |suri| >= 2 && FindVariant(maps, suri[0]).Some? ==>
              var c := ParseCoords(suri[|suri| - 1]);
              (c.Err? ==> r == Err(c.error)) &&
              (c == Ok(None) ==> r == Ok(None)) &&
              (c.Ok? && c.value.Some? ==> (r.Err? <==> c.value.value.0 > |ZOOM_RUN|)) &&
              (r.Ok? && r.value.Some? ==>
                 c.Ok? && c.value.Some? && (r.value.value.zoom, r.value.value.x, r.value.value.y) == c.value.value)
  {
    var suri := Split(uri, {'/'});
    if |suri| < 2 then Ok(None)
    else
      match FindVariant(maps, suri[0])
      case None => Ok(None)
      case Some(found) =>
        match ParseCoords(suri[|suri| - 1])
        case Err(e) => Err(e)
        case Ok(None) => Ok(None)
        case Ok(Some(c)) =>
          var t := NewTile(found.0, found.1, c.1, c.2, c.0);
          if t.Err? then Err(t.error) else Ok(Some(t.value))
  }

  /** Extensions a URI can be parsed back with: non-empty, free of '/', '_' and '.'. */
  predicate PlainExt(ext: string) {
    ext != "" && '/' !in ext && forall c :: c in ext ==> c !in COORD_DELIMS
  }

  lemma DropNothing(ps: seq<string>)
    requires |ps| >= 1 && ps[|ps| - 1] != ""
    ensures DropTrailingEmpty(ps) == ps
  {
  }

  /** The coordinate part of a file name splits into x, y and the extension. */
  lemma CoordTokens(x: int, y: int, ext: string)
    requires PlainExt(ext)
    ensures Pieces(CoordName(x, y, ext), COORD_DELIMS) == [IntToString(x), IntToString(y), ext]
  {
    var xs, ys := IntToString(x), IntToString(y);
    NumberTextPlain(x);
    NumberTextPlain(y);
    PiecesOfPlain(ext, COORD_DELIMS);
    PiecesOfAppend(ys, '.', ext, COORD_DELIMS);
    PiecesOfAppend(xs, '_', ys + "." + ext, COORD_DELIMS);
  }

  /** The tokens of a built file name: the z-run when zoomed, then x, y and the extension. */
  lemma {:induction false} FileTokens(x: int, y: int, zoom: int, ext: string)
    requires 0 <= zoom <= |ZOOM_RUN| && PlainExt(ext)
    ensures Split(TileFile(x, y, zoom, ext).value, COORD_DELIMS) ==
      (if zoom > 0 then [ZOOM_RUN[..zoom]] else []) + [IntToString(x), IntToString(y), ext]
  {
    var coords := [IntToString(x), IntToString(y), ext];
    CoordTokens(x, y, ext);
    if zoom > 0 {
      var run := ZOOM_RUN[..zoom];
      assert forall c :: c in run ==> c == 'z';
      PiecesOfAppend(run, '_', CoordName(x, y, ext), COORD_DELIMS);
      DropNothing([run] + coords);
    } else {
      DropNothing(coords);
    }
  }

  /** A built file name parses back to its zoom, x and y. */
  lemma CoordsRoundTrip(x: int, y: int, zoom: int, ext: string)
    requires IsInt32(x) && IsInt32(y) && 0 <= zoom <= |ZOOM_RUN| && PlainExt(ext)
    ensures ParseCoords(TileFile(x, y, zoom, ext).value) == Ok(Some((zoom, x, y)))
  {
    FileTokens(x, y, zoom, ext);
    ParseIntOfToString(x);
    ParseIntOfToString(y);
    var xs := IntToString(x);
    assert xs[0] in xs;
    if zoom > 0 {
      assert ZOOM_RUN[..zoom][0] == 'z';
    }
  }

  /** Three '/'-free parts joined by '/', the last non-empty, split back into themselves. */
  lemma ThreeSegments(name: string, dir: string, file: string)
    requires NoSlash(name) && NoSlash(dir) && NoSlash(file) && file != ""
    ensures Split(name + "/" + (dir + "/" + file), {'/'}) == [name, dir, file]
  {
    PiecesOfPlain(file, {'/'});
    PiecesOfAppend(dir, '/', file, {'/'});
    PiecesOfAppend(name, '/', dir + "/" + file, {'/'});
    DropNothing([name, dir, file]);
  }

  /** A built file name is non-empty and free of '/'. */
  lemma FilePlain(x: int, y: int, zoom: int, ext: string)
    requires 0 <= zoom <= |ZOOM_RUN| && PlainExt(ext)
    ensures NoSlash(TileFile(x, y, zoom, ext).value) && TileFile(x, y, zoom, ext).value != ""
  {
    var file := TileFile(x, y, zoom, ext).value;
    NumberTextPlain(x);
    NumberTextPlain(y);
    if zoom > 0 {
      assert forall c :: c in ZOOM_RUN[..zoom] ==> c == 'z';
    }
    assert |file| >= |ext|;
  }

  /** A built URI has three '/' segments: map name, directory and file. */
  lemma UriSegments(mt: MapType, variantSuffix: string, x: int, y: int, zoom: int)
    requires NoSlash(MapName(mt, variantSuffix)) && 0 <= zoom <= |ZOOM_RUN| && PlainExt(mt.fileExt)
    ensures Split(TileUri(mt, variantSuffix, x, y, zoom).value, {'/'}) ==
      [MapName(mt, variantSuffix), TileDir(x, y), TileFile(x, y, zoom, mt.fileExt).value]
  {
    FilePlain(x, y, zoom, mt.fileExt);
    ThreeSegments(MapName(mt, variantSuffix), TileDir(x, y), TileFile(x, y, zoom, mt.fileExt).value);
  }

  /**
   * Round trip: for 0 <= zoom <= 16, a map name free of '/', a plain extension
   * and 32-bit coordinates, `getTile(world, uri)` on a built URI finds the
   * first map and variant with that name and the same x, y and zoom.
   */
  lemma ParseTileUriRoundTrip(maps: seq<MapType>, mt: MapType, variantSuffix: string, x: int, y: int, zoom: int)
    requires NoSlash(MapName(mt, variantSuffix)) && PlainExt(mt.fileExt)
    requires IsInt32(x) && IsInt32(y) && 0 <= zoom <= |ZOOM_RUN|
    requires FindVariant(maps, MapName(mt, variantSuffix)).Some?
    ensures var found := FindVariant(maps, MapName(mt, variantSuffix)).value;
            ParseTileUri(maps, TileUri(mt, variantSuffix, x, y, zoom).value) ==
              Ok(Some(NewTile(found.0, found.1, x, y, zoom).value))
  {
    UriSegments(mt, variantSuffix, x, y, zoom);
    CoordsRoundTrip(x, y, zoom, mt.fileExt);
  }

  /** When the map and variant are the first with their name, parsing rebuilds the very tile. */
  lemma ParseTileUriOfTile(maps: seq<MapType>, t: StorageTile)
    requires NewTile(t.mt, t.variantSuffix, t.x, t.y, t.zoom) == Ok(t)
    requires NoSlash(MapName(t.mt, t.variantSuffix)) && PlainExt(t.mt.fileExt)
    requires IsInt32(t.x) && IsInt32(t.y) && 0 <= t.zoom
    requires FindVariant(maps, MapName(t.mt, t.variantSuffix)) == Some((t.mt, t.variantSuffix))
    ensures ParseTileUri(maps, t.uri) == Ok(Some(t))
  {
    ParseTileUriRoundTrip(maps, t.mt, t.variantSuffix, t.x, t.y, t.zoom);
  }

  /** `equals`: two storage tiles are equal when their URIs are. */
  predicate TileEquals(a: StorageTile, b: StorageTile) {
    a.uri == b.uri
  }

  /** Java's `String.hashCode`: s[0]*31^(n-1) + ... + s[n-1] in `int` arithmetic. */
  function StringHash(s: string): (h: int)
    ensures IsInt32(h)
  {
    if |s| == 0 then 0 else Wrap32(31 * StringHash(s[..|s| - 1]) + s[|s| - 1] as int)
  }

  /** `hashCode`: the hash of the URI. */
  function TileHashCode(t: StorageTile): (h: int)
    ensures IsInt32(h)
  {
    StringHash(t.uri)
  }

  /**
   * Equality depends only on the URI, and for tiles whose URIs parse back it
   * is exactly "same map name, extension, x, y and zoom"; equal tiles hash alike.
   */
  lemma TileEqualsIffSameAddress(a: StorageTile, b: StorageTile)
    requires NewTile(a.mt, a.variantSuffix, a.x, a.y, a.zoom) == Ok(a)
    requires NewTile(b.mt, b.variantSuffix, b.x, b.y, b.zoom) == Ok(b)
    requires NoSlash(MapName(a.mt, a.variantSuffix)) && PlainExt(a.mt.fileExt) && IsInt32(a.x) && IsInt32(a.y) && 0 <= a.zoom
    requires NoSlash(MapName(b.mt, b.variantSuffix)) && PlainExt(b.mt.fileExt) && IsInt32(b.x) && IsInt32(b.y) && 0 <= b.zoom
    ensures TileEquals(a, b) <==>
      MapName(a.mt, a.variantSuffix) == MapName(b.mt, b.variantSuffix) && a.mt.fileExt == b.mt.fileExt &&
      a.x == b.x && a.y == b.y && a.zoom == b.zoom
    ensures TileEquals(a, b) ==> TileHashCode(a) == TileHashCode(b)
  {
    if TileEquals(a, b) {
      UriSegments(a.mt, a.variantSuffix, a.x, a.y, a.zoom);
      UriSegments(b.mt, b.variantSuffix, b.x, b.y, b.zoom);
      var fa := TileFile(a.x, a.y, a.zoom, a.mt.fileExt).value;
      var fb := TileFile(b.x, b.y, b.zoom, b.mt.fileExt).value;
      assert fa == fb;
      CoordsRoundTrip(a.x, a.y, a.zoom, a.mt.fileExt);
      CoordsRoundTrip(b.x, b.y, b.zoom, b.mt.fileExt);
      FileTokens(a.x, a.y, a.zoom, a.mt.fileExt);
      FileTokens(b.x, b.y, b.zoom, b.mt.fileExt);
    }
  }

  /** Rounding down to a multiple of a positive `m`, with Dafny's flooring division. */
  ghost function FloorTo(a: int, m: int): (r: int)
    requires m > 0
    ensures r % m == 0 && r <= a < r + m
  {
    DivModUnique(a / m * m, m, a / m, 0);
    a / m * m
  }

  /** Rounding up to a multiple of a positive `m`. */
  ghost function CeilTo(a: int, m: int): (r: int)
    requires m > 0
    ensures r % m == 0 && r - m < a <= r
  {
    var f := FloorTo(-a, m);
    DivModUnique(-f, m, -(f / m), 0);
    -f
  }

  /** A multiple of `s` is a multiple of `2s`, plus either nothing or one more `s`. */
  lemma HalveMultiple(a: int, s: int) returns (h: int, p: int)
    requires s > 0 && a % s == 0
    ensures (p == 0 || p == 1) && a == h * (2 * s) + p * s
  {
    var k := a / s;
    h, p := k / 2, k % 2;
    assert a == k * s;
    assert k == 2 * h + p;
    if p == 0 {
      assert a == (2 * h) * s;
    } else {
      assert a == (2 * h) * s + s;
    }
  }

  /** `a == h * m + r` with 0 <= r < m: the remainder is r and the floor is a - r. */
  lemma FloorOfSplit(a: int, m: int, h: int, r: int)
    requires m > 0 && 0 <= r < m && a == h * m + r
    ensures a % m == r && FloorTo(a, m) == a - r
  {
    DivModUnique(a, m, h, r);
  }

  /** The negation of a multiple of `m` is one too. */
  lemma NegatedMultiple(a: int, m: int)
    requires m > 0 && a % m == 0
    ensures (-a) % m == 0
  {
    DivModUnique(-a, m, -(a / m), 0);
  }

  /** For a non-negative multiple of `s`, subtracting the remainder by `2s` floors it. */
  lemma RoundDownNonNegative(a: int, s: int)
    requires s > 0 && a % s == 0 && a >= 0
    ensures a - a % (2 * s) == FloorTo(a, 2 * s)
  {
    var h, p := HalveMultiple(a, s);
    assert p * s == 0 || p * s == s;
    FloorOfSplit(a, 2 * s, h, p * s);
  }

  /** For a negative multiple of `s`, adding Java's (non-positive) remainder by `2s` floors it. */
  lemma RoundDownNegative(a: int, s: int)
    requires s > 0 && a % s == 0 && a < 0
    ensures a - (-a) % (2 * s) == FloorTo(a, 2 * s)
  {
    NegatedMultiple(a, s);
    var h, p := HalveMultiple(-a, s);
    if p == 0 {
      FloorOfSplit(-a, 2 * s, h, 0);
      FloorOfSplit(a, 2 * s, -h, 0);
    } else {
      FloorOfSplit(-a, 2 * s, h, s);
      FloorOfSplit(a, 2 * s, -h - 1, s);
    }
  }

  /** No multiple of `m` lies strictly between a lower multiple and the floor. */
  lemma FloorToAtLeast(a: int, m: int, c: int)
    requires m > 0 && c % m == 0 && c <= a
    ensures c <= FloorTo(a, m)
  {
    var f := FloorTo(a, m);
    var qc, qf := c / m, f / m;
    assert c == qc * m && f == qf * m;
    if qc > qf {
      MulAtLeast(qc - qf, m);
    }
  }

  /** The sign-split rounding `getZoomOutTile` applies to x and to -y. */
  function RoundToCell(a: int, m: int): int
    requires m != 0
  {
    if a >= 0 then Wrap32(a - JRemAny(a, m)) else Wrap32(a + JRemAny(a, m))
  }

  /**
   * `getZoomOutTile`: with step = 1 << zoom, x and -y are rounded toward the
   * cell of size 2*step, y is negated back, and the zoom goes up by one. A
   * shift count of 31 makes 2*step wrap to 0 and `%` throw.
   */
  function ZoomOutTile(t: StorageTile): (r: Result<StorageTile>)
    ensures r.Ok? ==> r.value.mt == t.mt && r.value.variantSuffix == t.variantSuffix
    ensures r.Ok? ==> r.value.zoom == Wrap32(t.zoom + 1)
    ensures r.Err? ==> r.error == ArithmeticException || r.error == StringIndexOutOfBoundsException
  {
    var step := ShiftOne(t.zoom);
    var cell := Wrap32(2 * step);
    if cell == 0 then Err(ArithmeticException)
    else
      var xx := RoundToCell(t.x, cell);
      var yy := RoundToCell(Wrap32(-t.y), cell);
      NewTile(t.mt, t.variantSuffix, xx, Wrap32(-yy), Wrap32(t.zoom + 1))
  }

  /** Rounding a 32-bit multiple of `s` to the cell 2s is the floor, which stays in range. */
  lemma RoundToCellFloors(a: int, s: int)
    requires s > 0 && IsInt32(a) && a % s == 0 && INT_MIN % (2 * s) == 0
    ensures RoundToCell(a, 2 * s) == FloorTo(a, 2 * s)
  {
    var m := 2 * s;
    if a >= 0 {
      RoundDownNonNegative(a, s);
      FloorToAtLeast(a, m, 0);
      assert JRemAny(a, m) == a % m;
      assert IsInt32(a - a % m);
    } else {
      RoundDownNegative(a, s);
      FloorToAtLeast(a, m, INT_MIN);
      assert JRemAny(a, m) == -((-a) % m);
      assert IsInt32(a - (-a) % m);
    }
  }

  /** A multiple of `m` is its own floor. */
  lemma FloorOfMultiple(a: int, m: int)
    requires m > 0 && a % m == 0
    ensures FloorTo(a, m) == a
  {
  }

  /** Rounding -y down and negating back rounds y up, modulo 2^32. */
  lemma RoundToCellCeils(y: int, s: int)
    requires s > 0 && IsInt32(y) && y % s == 0
    requires INT_MIN % s == 0 && INT_MIN % (2 * s) == 0
    ensures Wrap32(-RoundToCell(Wrap32(-y), 2 * s)) == Wrap32(CeilTo(y, 2 * s))
  {
    var m := 2 * s;
    assert CeilTo(y, m) == -FloorTo(-y, m);
    if y == INT_MIN {
      assert Wrap32(-y) == INT_MIN;
      RoundToCellFloors(INT_MIN, s);
      FloorOfMultiple(INT_MIN, m);
      assert RoundToCell(INT_MIN, m) == INT_MIN;
      NegatedMultiple(INT_MIN, m);
      FloorOfMultiple(-INT_MIN, m);
      assert CeilTo(y, m) == INT_MIN;
    } else {
      assert Wrap32(-y) == -y;
      NegatedMultiple(y, s);
      RoundToCellFloors(-y, s);
    }
  }

  /** Below zoom 30 the cell is `2 * step` with no wrap-around, and the zoom just goes up. */
  lemma ZoomOutCells(t: StorageTile, s: int)
    requires 0 <= t.zoom < 30 && s == Pow2(t.zoom) && 2 * s <= 0x4000_0000
    ensures ZoomOutTile(t).Ok? <==> t.zoom < |ZOOM_RUN|
    ensures ZoomOutTile(t).Ok? ==> ZoomOutTile(t).value.x == RoundToCell(t.x, 2 * s)
    ensures ZoomOutTile(t).Ok? ==> ZoomOutTile(t).value.y == Wrap32(-RoundToCell(Wrap32(-t.y), 2 * s))
    ensures ZoomOutTile(t).Ok? ==> ZoomOutTile(t).value.zoom == t.zoom + 1
  {
    assert ShiftOne(t.zoom) == s;
    assert Wrap32(2 * ShiftOne(t.zoom)) == 2 * s;
  }

  /** The rounding of `getZoomOutTile` for a step `s` that divides x, y and `Integer.MIN_VALUE` twice over. */
  lemma ZoomOutRoundsBy(t: StorageTile, s: int)
    requires 0 <= t.zoom < |ZOOM_RUN| && s == Pow2(t.zoom) && 2 * s <= 0x4000_0000
    requires IsInt32(t.x) && IsInt32(t.y) && t.x % s == 0 && t.y % s == 0
    requires INT_MIN % s == 0 && INT_MIN % (2 * s) == 0
    ensures ZoomOutTile(t).Ok? && ZoomOutTile(t).value.zoom == t.zoom + 1
    ensures ZoomOutTile(t).value.x == FloorTo(t.x, 2 * s)
    ensures ZoomOutTile(t).value.y == Wrap32(CeilTo(t.y, 2 * s))
  {
    ZoomOutCells(t, s);
    RoundToCellFloors(t.x, s);
    RoundToCellCeils(t.y, s);
  }

  /**
   * For 0 <= zoom < 16 and x, y multiples of step = 2^zoom, `getZoomOutTile`
   * rounds x down and y up to multiples of 2*step and increments zoom; only
   * y's rounding up can leave the `int` range, where it wraps.
   */
  lemma ZoomOutRounds(t: StorageTile)
    requires 0 <= t.zoom < |ZOOM_RUN|
    requires IsInt32(t.x) && IsInt32(t.y)
    requires t.x % Pow2(t.zoom) == 0 && t.y % Pow2(t.zoom) == 0
    ensures ZoomOutTile(t).Ok?
    ensures ZoomOutTile(t).value.zoom == t.zoom + 1
    ensures ZoomOutTile(t).value.x == FloorTo(t.x, 2 * Pow2(t.zoom))
    ensures ZoomOutTile(t).value.y == Wrap32(CeilTo(t.y, 2 * Pow2(t.zoom)))
  {
    var z := t.zoom;
    var s := Pow2(z);
    PowBound(z + 1);
    assert Pow2(z + 1) == 2 * s;
    IntMinMultiple(z);
    IntMinMultiple(z + 1);
    ZoomOutRoundsBy(t, s);
  }

  /** At the top edge of the `int` range the rounded-up y wraps to the bottom. */
  lemma ZoomOutTopEdgeWraps(t: StorageTile)
    requires t.zoom == 0 && t.y == INT_MAX && IsInt32(t.x)
    ensures ZoomOutTile(t).Ok? && ZoomOutTile(t).value.y == INT_MIN
  {
    ZoomOutRounds(t);
    assert CeilTo(INT_MAX, 2) == -INT_MIN;
  }
}

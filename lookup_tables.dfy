/**
 * The texture pack's small lookup tables: the block-state colouring map, the
 * keyed texture lists of texture maps, the material names given to tiles for
 * OBJ export, the file name of a custom colour map, and the handling of the
 * `faceN-M`, `patchN-M` and `layerN-M` keys of a `block:` line.
 */
module LookupTables {
  import opened JavaLang
  import Texel

  // ---------------------------------------------------------------------
  // ColorizingData: global block-state index -> colour image index

  /** The map with every entry whose value is `val` removed, and nothing else changed. */
  function Scrubbed(m: map<int, int>, val: int): (r: map<int, int>)
    ensures r.Keys <= m.Keys
    ensures forall k :: k in r ==> r[k] == m[k] && r[k] != val
    ensures forall k :: k in m && m[k] != val ==> k in r
  {
    map k | k in m && m[k] != val :: m[k]
  }

  /** Which colour image, if any, colours each block state. */
  class ColorizingData {
    var entries: map<int, int>

    constructor()
      ensures entries == map[]
    {
      entries := map[];
    }

    function GetBlkStateValue(stateIndex: int): Option<int>
      reads this
    {
      if stateIndex in entries then Some(entries[stateIndex]) else None
    }

    predicate HasBlkStateValue(stateIndex: int)
      reads this
    {
      stateIndex in entries
    }

    /** Sets the image for a state, or removes the state's entry when given none; the lookup then answers what was set. */
    method SetBlkStateValue(stateIndex: int, mapIdx: Option<int>)
      modifies this
      ensures mapIdx.None? ==> entries == old(entries) - {stateIndex}
      ensures mapIdx.Some? ==> entries == old(entries)[stateIndex := mapIdx.value]
      ensures GetBlkStateValue(stateIndex) == mapIdx
      ensures HasBlkStateValue(stateIndex) <==> mapIdx.Some?
    {
      if mapIdx.None? {
        entries := entries - {stateIndex};
      } else {
        entries := entries[stateIndex := mapIdx.value];
      }
    }

    /** Removes every state whose image is `val`. */
    method ScrubValues(val: int)
      modifies this
      ensures entries == Scrubbed(old(entries), val)
    {
      entries := map k | k in entries && entries[k] != val :: entries[k];
    }
  }

  /**
   * The end of loading a biome-shading image: when the image did not load,
   * no block state is left coloured by it.
   */
  method ForgetUnloadedImage(coloring: ColorizingData, idx: int, isLoaded: bool)
    modifies coloring
    ensures coloring.entries == if isLoaded then old(coloring.entries) else Scrubbed(old(coloring.entries), idx)
    ensures !isLoaded ==> forall s :: coloring.GetBlkStateValue(s) != Some(idx)
  {
    if !isLoaded {
      coloring.ScrubValues(idx);
    }
  }

  // ---------------------------------------------------------------------
  // Texture maps: keyed lists of texture ids, registered by id

  /** A texture list with an index from lookup key to list position. */
  class TextureMap {
    var keyToIndex: map<int, int>
    var textureIds: seq<int>

    /** Every key indexes a position of the list. */
    predicate Valid()
      reads this
    {
      forall k :: k in keyToIndex ==> 0 <= keyToIndex[k] < |textureIds|
    }

    constructor()
      ensures Valid() && keyToIndex == map[] && textureIds == []
    {
      keyToIndex := map[];
      textureIds := [];
    }

    /** Appends the texture and points the key at its position, which is returned. */
    method AddTextureByKey(key: int, textureid: int) returns (off: int)
      requires Valid()
      modifies this
      ensures Valid()
      ensures off == |old(textureIds)|
      ensures textureIds == old(textureIds) + [textureid]
      ensures keyToIndex == old(keyToIndex)[key := off]
      ensures textureIds[keyToIndex[key]] == textureid
    {
      off := |textureIds|;
      textureIds := textureIds + [textureid];
      keyToIndex := keyToIndex[key := off];
    }
  }

  /** The registry of texture maps by texture-pack id; each id owns its own map. */
  class TextureMaps {
    var byId: map<string, TextureMap>

    predicate Valid()
      reads this, byId.Values
    {
      (forall id :: id in byId ==> byId[id].Valid())
      && (forall a, b :: a in byId && b in byId && a != b ==> byId[a] != byId[b])
    }

    constructor()
      ensures Valid() && byId == map[]
    {
      byId := map[];
    }

    /** The list of map `id`, empty when there is no such map. */
    function TexturesOf(id: string): seq<int>
      reads this, byId.Values
    {
      if id in byId then byId[id].textureIds else []
    }

    /** The position of `key` in map `id`, or -1 when the map or the key is missing. */
    function GetTextureIndexFromTextureMap(id: string, key: int): (r: int)
      reads this, byId.Values
      ensures Valid() ==> (r == -1 <==> !(id in byId && key in byId[id].keyToIndex))
      ensures Valid() && r != -1 ==> 0 <= r < |TexturesOf(id)|
    {
      if id in byId && key in byId[id].keyToIndex then byId[id].keyToIndex[key] else -1
    }

    /** The length of map `id`'s list, or -1 when there is no such map. */
    function GetTextureMapLength(id: string): (r: int)
      reads this, byId.Values
      ensures r >= -1 && (r == -1 <==> id !in byId)
      ensures r != -1 ==> r == |TexturesOf(id)|
    {
      if id in byId then |byId[id].textureIds| else -1
    }

    /**
     * Adds a texture under `key` to map `id`, creating the map when missing:
     * the key then finds the texture's position, the list grows by one, and
     * every other map is untouched.
     */
    method AddTextureByKey(id: string, key: int, textureid: int) returns (off: int)
      requires Valid()
      modifies this, byId.Values
      ensures Valid()
      ensures byId.Keys == old(byId.Keys) + {id}
      ensures id in old(byId) ==> byId == old(byId)
      ensures id !in old(byId) ==> fresh(byId[id])
      ensures off == |old(TexturesOf(id))|
      ensures TexturesOf(id) == old(TexturesOf(id)) + [textureid]
      ensures GetTextureIndexFromTextureMap(id, key) == off && GetTextureMapLength(id) == off + 1
      ensures forall other :: other in old(byId) && other != id ==>
        byId[other] == old(byId[other]) && byId[other].textureIds == old(byId[other].textureIds)
        && byId[other].keyToIndex == old(byId[other].keyToIndex)
    {
      var tm: TextureMap;
      if id in byId {
        tm := byId[id];
      } else {
        tm := new TextureMap();
        byId := byId[id := tm];
      }
      off := tm.AddTextureByKey(key, textureid);
    }
  }

  // ---------------------------------------------------------------------
  // Material ids of tiles

  /** Each tile's material name names that tile back, and each name names a tile that has it. */
  predicate Inverse(byTile: map<int, string>, byMat: map<string, int>) {
    (forall t :: t in byTile ==> byTile[t] in byMat && byMat[byTile[t]] == t)
    && (forall s :: s in byMat ==> byMat[s] in byTile && byTile[byMat[s]] == s)
  }

  /** Under the inverse invariant no two tiles share a material name. */
  lemma NamesDistinct(byTile: map<int, string>, byMat: map<string, int>, t1: int, t2: int)
    requires Inverse(byTile, byMat) && t1 in byTile && t2 in byTile && t1 != t2
    ensures byTile[t1] != byTile[t2]
  {
  }

  /** The `c`-th name tried for `baseid`: the name itself, then `baseid_2`, `baseid_3`, ... */
  function Candidate(baseid: string, c: nat): string {
    if c <= 1 then baseid else baseid + "_" + NatToString(c)
  }

  /** The first `c` names tried. */
  function Tried(baseid: string, c: nat): set<string> {
    if c == 0 then {} else Tried(baseid, c - 1) + {Candidate(baseid, c)}
  }

  /** Two different tries are two different names. */
  lemma CandidatesDiffer(baseid: string, c1: nat, c2: nat)
    requires 1 <= c1 < c2
    ensures Candidate(baseid, c1) != Candidate(baseid, c2)
  {
    var n2 := Candidate(baseid, c2);
    assert n2[..|baseid| + 1] == baseid + "_";
    if c1 >= 2 {
      var n1 := Candidate(baseid, c1);
      if n1 == n2 {
        assert n1[|baseid| + 1..] == NatToString(c1);
        assert n2[|baseid| + 1..] == NatToString(c2);
        NatToStringInjective(c1, c2);
      }
    }
  }

  /** The next name tried has not been tried before. */
  lemma {:induction false} CandidateNew(baseid: string, c: nat)
    ensures Candidate(baseid, c + 1) !in Tried(baseid, c)
  {
    if c > 0 {
      CandidateNew(baseid, c - 1);
      CandidatesDiffer(baseid, c, c + 1);
      if Candidate(baseid, c + 1) in Tried(baseid, c - 1) {
        TriedBelow(baseid, c - 1, Candidate(baseid, c + 1));
        var c1 :| 1 <= c1 <= c - 1 && Candidate(baseid, c1) == Candidate(baseid, c + 1);
        CandidatesDiffer(baseid, c1, c + 1);
      }
    }
  }

  /** Every tried name is one of the first `c` candidates. */
  lemma {:induction false} TriedBelow(baseid: string, c: nat, s: string)
    requires s in Tried(baseid, c)
    ensures exists c1 :: 1 <= c1 <= c && Candidate(baseid, c1) == s
  {
    if s != Candidate(baseid, c) {
      TriedBelow(baseid, c - 1, s);
    }
  }

  /**
   * The name search from the `c`-th candidate on, over the name-to-tile map:
   * the first candidate not yet taken, or None when the search reaches a
   * candidate already naming `tileid`.
   */
  function Settle(byMat: map<string, int>, baseid: string, tileid: int, c: nat): (r: Option<string>)
    requires c >= 1 && Tried(baseid, c - 1) <= byMat.Keys
    ensures r.Some? ==> r.value !in byMat && exists k :: k >= c && r.value == Candidate(baseid, k)
    ensures r.None? ==> tileid in byMat.Values
    decreases byMat.Keys - Tried(baseid, c - 1)
  {
    var s := Candidate(baseid, c);
    if s !in byMat then Some(s)
    else if byMat[s] == tileid then None
    else
      CandidateNew(baseid, c - 1);
      Settle(byMat, baseid, tileid, c + 1)
  }

  /** The path elements that make the name: the last one when there are fewer than five, else elements 4 onwards joined with '_'. */
  function NameElements(tok: seq<string>): (r: string)
    requires |tok| >= 1
    requires forall k :: 0 <= k < |tok| ==> '/' !in tok[k]
    ensures '/' !in r
  {
    if |tok| < 5 then tok[|tok| - 1]
    else
      JoinAvoids(tok[4..], '_', '/');
      Join(tok[4..], '_')
  }

  /** The name without its last extension, when the last '.' is not its first character. */
  function DropExtension(s: string): (r: string)
    ensures |r| <= |s| && r == s[..|r|]
  {
    var off := LastIndexOf(s, '.');
    if off > 0 then s[..off] else s
  }

  /**
   * The name `setMatIDForTileID` derives from a file path: the chosen path
   * elements with blanks turned into '_' and the last extension dropped. A
   * path of nothing but '/' has no elements and the lookup of the last one
   * throws.
   */
  function MaterialName(matid: string): (r: Result<string>)
    ensures r.Err? <==> matid != "" && forall i :: 0 <= i < |matid| ==> matid[i] == '/'
    ensures r.Ok? ==> '/' !in r.value && ' ' !in r.value
  {
    var tok := Split(matid, {'/'});
    SplitEmptyIff(matid, {'/'});
    if |tok| == 0 then Err(ArrayIndexOutOfBoundsException)
    else
      var s := ReplaceChar(NameElements(tok), ' ', '_');
      var d := DropExtension(s);
      assert forall i :: 0 <= i < |d| ==> d[i] == s[i];
      Ok(d)
  }

  lemma {:induction false} JoinAvoids(parts: seq<string>, sep: char, c: char)
    requires c != sep
    requires forall k :: 0 <= k < |parts| ==> c !in parts[k]
    ensures |parts| >= 1 ==> c !in Join(parts, sep)
    decreases |parts|
  {
    if |parts| > 1 {
      JoinAvoids(parts[1..], sep, c);
    }
  }

  lemma {:induction false} PiecesAllEmpty(s: string, delims: set<char>)
    ensures (forall k :: 0 <= k < |Pieces(s, delims)| ==> Pieces(s, delims)[k] == "")
            <==> (forall i :: 0 <= i < |s| ==> s[i] in delims)
    decreases |s|
  {
    if |s| > 0 {
      PiecesAllEmpty(s[1..], delims);
      var p := Pieces(s[1..], delims);
      assert forall i :: 1 <= i < |s| ==> s[i] == s[1..][i - 1];
      if s[0] in delims {
        var ps := Pieces(s, delims);
        assert ps == [""] + p;
        assert (forall k :: 0 <= k < |ps| ==> ps[k] == "") <==> (forall k :: 0 <= k < |p| ==> p[k] == "") by {
          assert forall k :: 1 <= k < |ps| ==> ps[k] == p[k - 1];
          assert forall k :: 0 <= k < |p| ==> p[k] == ps[k + 1];
        }
      } else {
        assert Pieces(s, delims)[0] == [s[0]] + p[0];
      }
    }
  }

  /** `split` yields nothing exactly for a non-empty string of delimiters only. */
  lemma SplitEmptyIff(s: string, delims: set<char>)
    ensures |Split(s, delims)| == 0 <==> s != "" && forall i :: 0 <= i < |s| ==> s[i] in delims
  {
    if s != "" {
      PiecesAllEmpty(s, delims);
      var ps := Pieces(s, delims);
      var r := DropTrailingEmpty(ps);
      assert Split(s, delims) == r;
      if |r| > 0 {
        assert ps[|r| - 1] == r[|r| - 1] != "";
        assert !(forall k :: 0 <= k < |ps| ==> ps[k] == "");
      } else {
        assert forall k :: 0 <= k < |ps| ==> ps[k] == "";
      }
    }
  }

  /** Tile ids and material names in both directions. */
  class MaterialIds {
    var matIDByTileID: map<int, string>
    var tileIDByMatID: map<string, int>

    predicate Valid()
      reads this
    {
      Inverse(matIDByTileID, tileIDByMatID)
    }

    constructor()
      ensures Valid() && matIDByTileID == map[] && tileIDByMatID == map[]
    {
      matIDByTileID := map[];
      tileIDByMatID := map[];
    }

    /**
     * The suffix loop: the first free candidate for `baseid` becomes the
     * tile's name. Its other exit, a candidate already naming this tile,
     * cannot be reached while the maps are inverse and the tile is unnamed.
     */
    method Claim(baseid: string, tileid: int) returns (name: string)
      requires Valid() && tileid !in matIDByTileID
      modifies this
      ensures Valid()
      ensures Settle(old(tileIDByMatID), baseid, tileid, 1) == Some(name)
      ensures matIDByTileID == old(matIDByTileID)[tileid := name]
      ensures tileIDByMatID == old(tileIDByMatID)[name := tileid]
    {
      var s := baseid;
      var cnt := 2;
      while true
        invariant cnt >= 2 && s == Candidate(baseid, cnt - 1)
        invariant Tried(baseid, cnt - 2) <= tileIDByMatID.Keys
        invariant Settle(tileIDByMatID, baseid, tileid, cnt - 1) == Settle(tileIDByMatID, baseid, tileid, 1)
        invariant matIDByTileID == old(matIDByTileID) && tileIDByMatID == old(tileIDByMatID)
        decreases tileIDByMatID.Keys - Tried(baseid, cnt - 2)
      {
        if s !in tileIDByMatID {
          tileIDByMatID := tileIDByMatID[s := tileid];
          matIDByTileID := matIDByTileID[tileid := s];
          return s;
        } else if tileIDByMatID[s] == tileid {
          assert false;
        }
        CandidateNew(baseid, cnt - 2);
        s := baseid + "_" + NatToString(cnt);
        cnt := cnt + 1;
      }
    }

    /**
     * Names a tile after its file, unless it already has a name; the maps
     * stay inverse, so distinct tiles keep distinct names.
     */
    method SetMatIDForTileID(matid: string, tileid: int) returns (r: Result<()>)
      requires Valid()
      modifies this
      ensures Valid()
      ensures tileid in old(matIDByTileID) ==> r == Ok(()) && matIDByTileID == old(matIDByTileID) && tileIDByMatID == old(tileIDByMatID)
      ensures tileid !in old(matIDByTileID) && MaterialName(matid).Err? ==>
        r == Err(MaterialName(matid).error) && matIDByTileID == old(matIDByTileID) && tileIDByMatID == old(tileIDByMatID)
      ensures tileid !in old(matIDByTileID) && MaterialName(matid).Ok? ==>
        r == Ok(()) && tileid in matIDByTileID
        && Settle(old(tileIDByMatID), MaterialName(matid).value, tileid, 1) == Some(matIDByTileID[tileid])
        && matIDByTileID == old(matIDByTileID)[tileid := matIDByTileID[tileid]]
        && tileIDByMatID == old(tileIDByMatID)[matIDByTileID[tileid] := tileid]
    {
      if tileid in matIDByTileID {
        return Ok(());
      }
      var base := MaterialName(matid);
      if base.Err? {
        return Err(base.error);
      }
      var _ := Claim(base.value, tileid);
      r := Ok(());
    }

    /**
     * The tile's material name, naming an unnamed tile `txt<id>`, or the
     * first free `txt<id>_N` when another tile already has that name, so
     * the maps stay inverse.
     */
    method GetMatIDForTileID(txtid: int) returns (id: string)
      requires Valid()
      modifies this
      ensures Valid()
      ensures txtid in old(matIDByTileID) ==>
        id == old(matIDByTileID[txtid]) && matIDByTileID == old(matIDByTileID) && tileIDByMatID == old(tileIDByMatID)
      ensures txtid !in old(matIDByTileID) ==>
        Settle(old(tileIDByMatID), "txt" + IntToString(txtid), txtid, 1) == Some(id)
        && matIDByTileID == old(matIDByTileID)[txtid := id]
        && tileIDByMatID == old(tileIDByMatID)[id := txtid]
    {
      if txtid in matIDByTileID {
        return matIDByTileID[txtid];
      }
      id := Claim("txt" + IntToString(txtid), txtid);
    }
  }

  /** `getMatIDForTileID` as written: an unnamed tile is named `txt<id>` whether or not another tile has that name. */
  function GetMatIDAsWritten(byTile: map<int, string>, byMat: map<string, int>, txtid: int): (r: (map<int, string>, map<string, int>, string))
    ensures txtid in r.0 && r.0[txtid] == r.2
    ensures txtid !in byTile ==> r.2 == "txt" + IntToString(txtid) && r.1 == byMat[r.2 := txtid]
  {
    if txtid in byTile then (byTile, byMat, byTile[txtid])
    else
      var id := "txt" + IntToString(txtid);
      (byTile[txtid := id], byMat[id := txtid], id)
  }

  /** A tile loaded from file `txt5.png` is named `txt5` when that name is free. */
  lemma Txt5FileName()
    ensures MaterialName("txt5.png") == Ok("txt5")
    ensures Settle(map[], "txt5", 9, 1) == Some("txt5")
  {
    var f := "txt5.png";
    PlainFileName(f, "txt5", "png");
  }

  /** A file name `stem.ext` with no '/', blank or '.' in either part names the material `stem`. */
  lemma PlainFileName(f: string, stem: string, ext: string)
    requires f == stem + "." + ext && |stem| >= 1
    requires '/' !in f && ' ' !in f && '.' !in stem && '.' !in ext
    ensures MaterialName(f) == Ok(stem)
  {
    SplitOne(f);
    ReplaceAbsent(f, ' ', '_');
    assert NameElements([f]) == f;
    LastDot(f, stem, ext);
  }

  lemma SplitOne(f: string)
    requires '/' !in f && |f| >= 1
    ensures Split(f, {'/'}) == [f]
  {
    assert forall c :: c in f ==> c !in {'/'};
    SplitOfJoin([f], '/', {'/'});
  }

  lemma ReplaceAbsent(f: string, a: char, b: char)
    requires a !in f
    ensures ReplaceChar(f, a, b) == f
  {
    var s := ReplaceChar(f, a, b);
    assert forall i :: 0 <= i < |f| ==> s[i] == f[i];
  }

  lemma LastDot(f: string, stem: string, ext: string)
    requires f == stem + "." + ext && |stem| >= 1 && '.' !in ext
    ensures DropExtension(f) == stem
  {
    var k := LastIndexOf(f, '.');
    assert f[|stem|] == '.';
    assert f[|stem| + 1..] == ext;
    assert k == |stem|;
    assert f[..k] == stem;
  }

  /**
   * With tile 9 named `txt5` (from file `txt5.png`), asking as written for
   * the name of tile 5 gives tile 5 the same name and re-points the name at
   * tile 5, so tile 9's name no longer leads back to it.
   */
  lemma MatIdCollision()
    ensures Inverse(map[9 := "txt5"], map["txt5" := 9])
    ensures var r := GetMatIDAsWritten(map[9 := "txt5"], map["txt5" := 9], 5);
      r.0[5] == r.0[9] && r.1[r.0[9]] != 9 && !Inverse(r.0, r.1)
  {
    assert IntToString(5) == "5";
    var r := GetMatIDAsWritten(map[9 := "txt5"], map["txt5" := 9], 5);
    assert r.2 == "txt5";
    assert r.1["txt5"] == 5;
  }

  /** The search names tile 5 `txt5_2` in the same situation. */
  lemma MatIdSearchAvoidsCollision()
    ensures Settle(map["txt5" := 9], "txt5", 5, 1) == Some("txt5_2")
  {
    assert NatToString(2) == "2";
    assert Candidate("txt5", 2) == "txt5_2";
    assert Tried("txt5", 1) == {"txt5"};
  }

  // ---------------------------------------------------------------------
  // Custom colour map file names

  const PALETTE_BLOCK_KEY: string := "palette.block."

  /** Drops the leading characters up to the space. */
  function TrimStart(s: string): (r: string)
    ensures |r| <= |s| && r == s[|s| - |r|..]
    ensures r == "" || r[0] > ' '
  {
    if |s| > 0 && s[0] <= ' ' then TrimStart(s[1..]) else s
  }

  /** Drops the trailing characters up to the space. */
  function TrimEnd(s: string): (r: string)
    ensures |r| <= |s| && r == s[..|r|]
    ensures r == "" || r[|r| - 1] > ' '
  {
    if |s| > 0 && s[|s| - 1] <= ' ' then TrimEnd(s[..|s| - 1]) else s
  }

  /** `String.trim`: drops every leading and trailing character up to the space. */
  function Trim(s: string): (r: string)
    ensures |r| <= |s|
    ensures r == "" || (r[0] > ' ' && r[|r| - 1] > ' ')
  {
    TrimEnd(TrimStart(s))
  }

  /** A string whose ends are past the space is its own trim. */
  lemma TrimPlain(s: string)
    requires |s| >= 1 && s[0] > ' ' && s[|s| - 1] > ' '
    ensures Trim(s) == s
  {
    assert TrimStart(s) == s;
  }

  /**
   * The trimmed file name of a colour map: one leading '/' dropped, then a
   * leading '~' standing for `assets/minecraft/mcpatcher`. Reading the first
   * character of an empty name throws.
   */
  function NormalizeColorMapName(f: string): (r: Result<string>)
    ensures r.Err? <==> f == "" || f == "/"
    ensures r.Ok? ==> |r.value| >= 1 && r.value[0] != '~'
  {
    if |f| == 0 then Err(StringIndexOutOfBoundsException)
    else
      var f1 := if f[0] == '/' then f[1..] else f;
      if |f1| == 0 then Err(StringIndexOutOfBoundsException)
      else Ok(if f1[0] == '~' then "assets/minecraft/mcpatcher" + f1[1..] else f1)
  }

  /**
   * The colour-map file named by a `palette.block.<file>` property, or None
   * for a property without that prefix: the remainder, trimmed and
   * normalised.
   */
  function CustomColorFileName(pname: string): (r: Result<Option<string>>)
    ensures r == Ok(None) <==> !StartsWith(pname, PALETTE_BLOCK_KEY)
    ensures r.Err? <==> (StartsWith(pname, PALETTE_BLOCK_KEY)
                         && var t := Trim(pname[|PALETTE_BLOCK_KEY|..]); t == "" || t == "/")
  {
    if !StartsWith(pname, PALETTE_BLOCK_KEY) then Ok(None)
    else
      match NormalizeColorMapName(Trim(pname[|PALETTE_BLOCK_KEY|..]))
      case Err(e) => Err(e)
      case Ok(f) => Ok(Some(f))
  }

  /** The property key followed by a name that needs no trimming yields that name, normalised. */
  lemma KeyedName(u: string)
    requires |u| >= 1 && u[0] > ' ' && u[|u| - 1] > ' ' && u != "/"
    ensures CustomColorFileName(PALETTE_BLOCK_KEY + u) == Ok(Some(NormalizeColorMapName(u).value))
  {
    assert StartsWith(PALETTE_BLOCK_KEY + u, PALETTE_BLOCK_KEY);
    assert (PALETTE_BLOCK_KEY + u)[|PALETTE_BLOCK_KEY|..] == u;
    TrimPlain(u);
  }

  /**
   * A plain file name comes through unchanged, after a '/' too, and a name
   * after '~' lands in the mcpatcher directory.
   */
  lemma NormalizedNames(t: string)
    requires |t| >= 1 && t[0] != '/' && t[0] != '~'
    ensures NormalizeColorMapName(t) == Ok(t)
    ensures NormalizeColorMapName("/" + t) == Ok(t)
    ensures NormalizeColorMapName("~" + t) == Ok("assets/minecraft/mcpatcher" + t)
  {
    assert ("/" + t)[1..] == t;
    assert ("~" + t)[1..] == t;
  }

  // ---------------------------------------------------------------------
  // Face, patch and layer keys of a `block:` line

  const TILEINDEX_BLANK: int := -1

  /** The face each `faceN` key number names: top, bottom, the two Z faces, the two X faces. */
  const FACE_KEY_ORDER: seq<Texel.BlockStep> :=
    [Texel.Y_PLUS, Texel.Y_MINUS, Texel.Z_PLUS, Texel.Z_MINUS, Texel.X_PLUS, Texel.X_MINUS]

  /** `faceToOrd[i]`: the face-table slot of key number `i`. */
  function FaceOrd(i: int): (o: nat)
    requires 0 <= i < 6
    ensures o < 6
  {
    Texel.Ordinal(FACE_KEY_ORDER[i])
  }

  /** The key number of face-table slot `o`: the key numbers name each slot exactly once. */
  function FaceKeyOf(o: int): (i: int)
    requires 0 <= o < 6
    ensures 0 <= i < 6 && FaceOrd(i) == o
    ensures forall j :: 0 <= j < 6 && FaceOrd(j) == o ==> j == i
  {
    if o == 0 then 4 else if o == 1 then 0 else if o == 2 then 2
    else if o == 3 then 5 else if o == 4 then 1 else 3
  }

  /**
   * `N` or `N-M` after the key's name: one number stands for the range
   * `N..N`. A piece that is not a number throws, and so does a range with
   * nothing but '-'. As '-' separates, no number read is negative.
   */
  function KeyRange(spec: string): (r: Result<(int, int)>)
    ensures r.Ok? ==> 0 <= r.value.0 && 0 <= r.value.1 && IsInt32(r.value.0) && IsInt32(r.value.1)
  {
    var ids := Split(spec, {'-'});
    if |ids| == 0 then Err(ArrayIndexOutOfBoundsException)
    else
      UnsignedParse(ids[0]);
      match ParseInt(ids[0])
      case None => Err(NumberFormatException)
      case Some(a) =>
        if |ids| > 1 then
          UnsignedParse(ids[1]);
          match ParseInt(ids[1])
          case None => Err(NumberFormatException)
          case Some(b) => Ok((a, b))
        else Ok((a, a))
  }

  lemma UnsignedParse(s: string)
    requires '-' !in s
    ensures ParseInt(s).Some? ==> ParseInt(s).value >= 0
  {
    if |s| > 0 {
      assert s[0] in s;
    }
  }

  /** The ranges a writer would print read back as written. */
  lemma KeyRangeOfPrinted(a: nat, b: nat)
    requires IsInt32(a) && IsInt32(b)
    ensures KeyRange(NatToString(a)) == Ok((a, a))
    ensures KeyRange(NatToString(a) + "-" + NatToString(b)) == Ok((a, b))
  {
    var sa, sb := NatToString(a), NatToString(b);
    assert forall c :: c in sa ==> c !in {'-'} by {
      forall c | c in sa ensures c !in {'-'} {
        var i :| 0 <= i < |sa| && sa[i] == c;
        assert IsDigit(sa[i]);
      }
    }
    assert forall c :: c in sb ==> c !in {'-'} by {
      forall c | c in sb ensures c !in {'-'} {
        var i :| 0 <= i < |sb| && sb[i] == c;
        assert IsDigit(sb[i]);
      }
    }
    SplitOfJoin([sa], '-', {'-'});
    SplitOfJoin([sa, sb], '-', {'-'});
    JoinTwo(sa, sb, '-');
    ParseIntOfToString(a);
    ParseIntOfToString(b);
  }

  /** What a key does to the block's definition: applied, or the range was invalid and the file is abandoned. */
  datatype KeyOutcome = Applied | InvalidRange

  /** The face table after `faceN-M` sets the faces of key numbers `a..b` (those below 6) to `t`. */
  function FacesSet(fs: seq<int>, a: int, b: int, t: int): (r: seq<int>)
    requires |fs| >= 6
    ensures |r| == |fs|
  {
    seq(|fs|, k requires 0 <= k < |fs| => if k < 6 && a <= FaceKeyOf(k) <= b then t else fs[k])
  }

  /**
   * The `faceN-M` key: a negative or reversed range abandons the file;
   * otherwise the texture id (already parsed, or the exception parsing it
   * threw) goes to the faces of key numbers N to M, stopping at 5.
   */
  method ApplyFaceKey(faces: array<int>, key: string, txtId: Result<int>) returns (r: Result<KeyOutcome>)
    requires faces.Length >= 6 && StartsWith(key, "face")
    modifies faces
    ensures match KeyRange(key[4..])
      case Err(e) => r == Err(e) && faces[..] == old(faces[..])
      case Ok(ab) =>
        if ab.0 < 0 || ab.1 < ab.0 then r == Ok(InvalidRange) && faces[..] == old(faces[..])
        else if txtId.Err? then r == Err(txtId.error) && faces[..] == old(faces[..])
        else r == Ok(Applied) && faces[..] == FacesSet(old(faces[..]), ab.0, ab.1, txtId.value)
  {
    var range := KeyRange(key[4..]);
    if range.Err? {
      return Err(range.error);
    }
    var (fid0, fid1) := range.value;
    if fid0 < 0 || fid1 < fid0 {
      return Ok(InvalidRange);
    }
    if txtId.Err? {
      return Err(txtId.error);
    }
    var i := fid0;
    while i <= fid1 && i < 6
      invariant fid0 <= i && (i <= 6 || i == fid0)
      invariant forall k :: 0 <= k < faces.Length ==>
        faces[k] == if k < 6 && fid0 <= FaceKeyOf(k) < i && FaceKeyOf(k) <= fid1 then txtId.value else old(faces[k])
      decreases 6 - i
    {
      faces[FaceOrd(i)] := txtId.value;
      i := i + 1;
    }
    r := Ok(Applied);
  }

  /** The table with the entries from `lo` below `hi` set to `x`. */
  function RangeSet(ls: seq<int>, lo: int, hi: int, x: int): (r: seq<int>)
    ensures |r| == |ls|
  {
    seq(|ls|, k requires 0 <= k < |ls| => if lo <= k < hi then x else ls[k])
  }

  /** The face table grown to `b + 1` entries, the new ones blank, when it is not longer already. */
  function Grown(fs: seq<int>, b: int): (r: seq<int>)
    ensures |r| == if |fs| <= b then b + 1 else |fs|
    ensures r[..|fs|] == fs
    ensures forall k :: |fs| <= k < |r| ==> r[k] == TILEINDEX_BLANK
  {
    if |fs| <= b then fs + seq(b + 1 - |fs|, _ => TILEINDEX_BLANK) else fs
  }

  /** A fresh copy of the table with blank entries appended up to length `n`. */
  method Grow(faces: array<int>, n: int) returns (g: array<int>)
    requires faces.Length < n
    ensures fresh(g) && g[..] == Grown(faces[..], n - 1)
  {
    g := new int[n](k requires 0 <= k < n reads faces => if k < faces.Length then faces[k] else TILEINDEX_BLANK);
    assert g[..] == Grown(faces[..], n - 1) by {
      forall k | 0 <= k < n
        ensures g[k] == Grown(faces[..], n - 1)[k]
      {
        if k < faces.Length {
          assert Grown(faces[..], n - 1)[..faces.Length][k] == faces[k];
        }
      }
    }
  }

  /** Sets entries `lo` to `hi - 1` to `x`. */
  method Fill(a: array<int>, lo: int, hi: int, x: int)
    requires 0 <= lo && hi <= a.Length
    modifies a
    ensures a[..] == RangeSet(old(a[..]), lo, hi, x)
  {
    var i := lo;
    while i < hi
      invariant lo <= i && (i <= hi || i == lo)
      invariant a[..] == RangeSet(old(a[..]), lo, i, x)
    {
      a[i] := x;
      i := i + 1;
    }
  }

  /**
   * The `patchN-M` key: a negative or reversed range abandons the file;
   * otherwise the table grows to M+1 entries, filled with blank, when it is
   * not longer already (a size past the `int` range throws), and then the
   * texture id goes to patches N to M. The returned table is the grown one.
   */
  method ApplyPatchKey(faces: array<int>, key: string, txtId: Result<int>) returns (r: Result<KeyOutcome>, grown: array<int>)
    requires StartsWith(key, "patch")
    modifies faces
    ensures grown == faces || fresh(grown)
    ensures match KeyRange(key[5..])
      case Err(e) => r == Err(e) && grown == faces && faces[..] == old(faces[..])
      case Ok(ab) =>
        if ab.0 < 0 || ab.1 < ab.0 then r == Ok(InvalidRange) && grown == faces && faces[..] == old(faces[..])
        else if faces.Length <= ab.1 && ab.1 + 1 > INT_MAX then r == Err(NegativeArraySizeException) && faces[..] == old(faces[..])
        else if txtId.Err? then r == Err(txtId.error) && grown[..] == Grown(old(faces[..]), ab.1)
        else r == Ok(Applied) && grown[..] == RangeSet(Grown(old(faces[..]), ab.1), ab.0, ab.1 + 1, txtId.value)
  {
    grown := faces;
    var range := KeyRange(key[5..]);
    if range.Err? {
      return Err(range.error), grown;
    }
    var (patchId0, patchId1) := range.value;
    if patchId0 < 0 || patchId1 < patchId0 {
      return Ok(InvalidRange), grown;
    }
    if faces.Length <= patchId1 {
      if patchId1 + 1 > INT_MAX {
        return Err(NegativeArraySizeException), grown;
      }
      grown := Grow(faces, patchId1 + 1);
    }
    if txtId.Err? {
      return Err(txtId.error), grown;
    }
    Fill(grown, patchId0, patchId1 + 1, txtId.value);
    r := Ok(Applied);
  }

  /** After a valid `patchN-M`, patches N..M have the texture, the old entries outside keep theirs and new ones are blank. */
  lemma PatchKeyEffect(fs: seq<int>, a: int, b: int, t: int, k: int)
    requires 0 <= a <= b
    requires 0 <= k < |RangeSet(Grown(fs, b), a, b + 1, t)|
    ensures var r := RangeSet(Grown(fs, b), a, b + 1, t);
      r[k] == if a <= k <= b then t else if k < |fs| then fs[k] else TILEINDEX_BLANK
  {
    var g := Grown(fs, b);
    if k < |fs| {
      assert g[..|fs|][k] == fs[k];
    }
  }

  /** `(byte) x`: the low eight bits of `x` as a signed value. */
  function ToByte(x: int): (b: int)
    ensures -128 <= b < 128 && (x - b) % 256 == 0
    ensures -128 <= x < 128 ==> b == x
  {
    (x + 128) % 256 - 128
  }

  /** A fresh layer table for a face table of `n` entries: no face has a layer below it. */
  method NewLayers(n: nat) returns (layers: array<int>)
    ensures fresh(layers) && layers.Length == n
    ensures forall k :: 0 <= k < n ==> layers[k] == -1
  {
    layers := new int[n](_ => -1);
  }

  /**
   * The `layerN-M=V` key: faces N to M get layer link `(byte) V`. The writes
   * run upwards and stop with an index exception at the first index outside
   * the table, so a range starting below 0 writes nothing and one running
   * past the end writes up to the end.
   */
  method ApplyLayerKey(layers: array<int>, key: string, value: string) returns (r: Result<()>)
    requires StartsWith(key, "layer")
    modifies layers
    ensures match KeyRange(key[5..])
      case Err(e) => r == Err(e) && layers[..] == old(layers[..])
      case Ok(ab) =>
        match ParseInt(value)
        case None => r == Err(NumberFormatException) && layers[..] == old(layers[..])
        case Some(v) =>
          if ab.0 > ab.1 then r == Ok(()) && layers[..] == old(layers[..])
          else if ab.1 >= layers.Length then
            r == Err(ArrayIndexOutOfBoundsException) && layers[..] == RangeSet(old(layers[..]), ab.0, layers.Length, ToByte(v))
          else r == Ok(()) && layers[..] == RangeSet(old(layers[..]), ab.0, ab.1 + 1, ToByte(v))
  {
    var range := KeyRange(key[5..]);
    if range.Err? {
      return Err(range.error);
    }
    var (id1, id2) := range.value;
    var parsed := ParseInt(value);
    if parsed.None? {
      return Err(NumberFormatException);
    }
    var val := ToByte(parsed.value);
    var i := id1;
    while i <= id2
      invariant id1 <= i <= id2 + 1 || (i == id1 && id1 > id2)
      invariant i <= layers.Length || i == id1
      invariant layers[..] == RangeSet(old(layers[..]), id1, i, val)
      decreases id2 - i
    {
      if i >= layers.Length {
        return Err(ArrayIndexOutOfBoundsException);
      }
      layers[i] := val;
      i := i + 1;
    }
    r := Ok(());
  }
}

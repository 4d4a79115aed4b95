/**
 * The per-pixel texture lookup of `readColor`: from a block's face table and
 * the point a ray hit, find the texture id, decode its colour-modifier op, map
 * the sub-block coordinate to texture coordinates (u, v), apply the op's
 * coordinate transform or short-circuit to transparent, read the pixel, and
 * decide which colour multiplier is blended in; then walk the block's layer
 * chain while the result stays transparent.
 *
 * World lookups (neighbouring blocks, biome colour smoothing) arrive as
 * fields of `Scene` and `Shading`; the colour blend itself is not computed,
 * only which multiplier is blended.
 */
module Texel {
  import opened JavaLang
  import opened TileBuffers
  import TileRegistry

  const COLORMOD_GRASSTONED: int := 1
  const COLORMOD_FOLIAGETONED: int := 2
  const COLORMOD_WATERTONED: int := 3
  const COLORMOD_ROT90: int := 4
  const COLORMOD_ROT180: int := 5
  const COLORMOD_ROT270: int := 6
  const COLORMOD_FLIPHORIZ: int := 7
  const COLORMOD_SHIFTDOWNHALF: int := 8
  const COLORMOD_SHIFTDOWNHALFANDFLIPHORIZ: int := 9
  const COLORMOD_INCLINEDTORCH: int := 10
  const COLORMOD_GRASSSIDE: int := 11
  const COLORMOD_CLEARINSIDE: int := 12
  const COLORMOD_PINETONED: int := 13
  const COLORMOD_BIRCHTONED: int := 14
  const COLORMOD_LILYTONED: int := 15
  const COLORMOD_MULTTONED: int := 17
  const COLORMOD_GRASSTONED270: int := 18
  const COLORMOD_FOLIAGETONED270: int := 19
  const COLORMOD_WATERTONED270: int := 20
  const COLORMOD_MULTTONED_CLEARINSIDE: int := 21
  const COLORMOD_FOLIAGEMULTTONED: int := 22

  const TILEINDEX_GRASS: int := 0
  const TILEINDEX_GRASSMASK: int := 38
  const TILEINDEX_SNOW: int := 66
  const TILEINDEX_SNOWSIDE: int := 68

  // ---------------------------------------------------------------------
  // Faces and texture coordinates

  /** The face of the block the ray passed through last. */
  datatype BlockStep = X_PLUS | Y_PLUS | Z_PLUS | X_MINUS | Y_MINUS | Z_MINUS

  /** `BlockStep.ordinal()`, the index of the face in a block's face table. */
  function Ordinal(s: BlockStep): (r: nat)
    ensures r < 6
  {
    match s
    case X_PLUS => 0
    case Y_PLUS => 1
    case Z_PLUS => 2
    case X_MINUS => 3
    case Y_MINUS => 4
    case Z_MINUS => 5
  }

  /** The two sub-block coordinates that vary across a face: (y, z) on X faces, (x, z) on Y faces, (x, y) on Z faces. */
  function InPlane(step: BlockStep, x: int, y: int, z: int): (int, int) {
    match step
    case X_PLUS => (y, z)
    case X_MINUS => (y, z)
    case Y_PLUS => (x, z)
    case Y_MINUS => (x, z)
    case Z_PLUS => (x, y)
    case Z_MINUS => (x, y)
  }

  /** Texture coordinates back to the in-plane sub-block coordinates. */
  function FaceCoords(step: BlockStep, stdrot: bool, n: int, u: int, v: int): (int, int) {
    match step
    case X_MINUS => (n - v - 1, n - u - 1)
    case X_PLUS => (n - v - 1, u)
    case Z_MINUS => (u, n - v - 1)
    case Z_PLUS => (n - u - 1, n - v - 1)
    case Y_MINUS => if stdrot then (u, v) else (v, n - u - 1)
    case Y_PLUS => if stdrot then (n - u - 1, v) else (v, u)
  }

  predicate InTile(n: int, uv: (int, int)) {
    0 <= uv.0 < n && 0 <= uv.1 < n
  }

  /**
   * The per-face table of (u, v) for sub-block (x, y, z), with the `stdrot`
   * variant on the two Y faces: each face maps the tile's sub-blocks into the
   * tile, and the in-plane coordinates can be read back from (u, v), so the
   * map is one-to-one on each face.
   */
  function FaceUV(step: BlockStep, stdrot: bool, n: int, x: int, y: int, z: int): (uv: (int, int))
    ensures 0 <= x < n && 0 <= y < n && 0 <= z < n ==> InTile(n, uv)
    ensures FaceCoords(step, stdrot, n, uv.0, uv.1) == InPlane(step, x, y, z)
  {
    match step
    case X_MINUS => (n - z - 1, n - y - 1)
    case X_PLUS => (z, n - y - 1)
    case Z_MINUS => (x, n - y - 1)
    case Z_PLUS => (n - x - 1, n - y - 1)
    case Y_MINUS => if stdrot then (x, z) else (n - z - 1, x)
    case Y_PLUS => if stdrot then (n - x - 1, z) else (z, x)
  }

  /** Where the ray hit: the face, a patch index (negative when none), the sub-block coordinate and the floored patch U/V times the scale. */
  datatype Probe = Probe(step: BlockStep, patchId: int, x: int, y: int, z: int, patchU: int, patchV: int)

  /** (u, v) before any op: from the face table, or from the patch coordinates with V flipped. */
  function ProbeUV(p: Probe, stdrot: bool, n: int): (int, int) {
    if p.patchId < 0 then FaceUV(p.step, stdrot, n, p.x, p.y, p.z) else (p.patchU, n - p.patchV - 1)
  }

  // ---------------------------------------------------------------------
  // Coordinate transforms of the ops

  function Rot90(n: int, uv: (int, int)): (int, int) { (n - uv.1 - 1, uv.0) }

  function Rot180(n: int, uv: (int, int)): (int, int) { (n - uv.0 - 1, n - uv.1 - 1) }

  function Rot270(n: int, uv: (int, int)): (int, int) { (uv.1, n - uv.0 - 1) }

  function FlipHoriz(n: int, uv: (int, int)): (int, int) { (n - uv.0 - 1, uv.1) }

  /**
   * The rotations form the cyclic group of order four and the flip is an
   * involution; with ROT270 undoing ROT90 and ROT180 undoing itself, each of
   * them is a bijection of the plane, and each keeps the tile in the tile.
   */
  lemma TransformsAreBijections(n: int, uv: (int, int))
    ensures Rot90(n, Rot90(n, uv)) == Rot180(n, uv)
    ensures Rot90(n, Rot180(n, uv)) == Rot270(n, uv)
    ensures Rot90(n, Rot90(n, Rot90(n, Rot90(n, uv)))) == uv
    ensures Rot90(n, Rot270(n, uv)) == uv && Rot270(n, Rot90(n, uv)) == uv
    ensures Rot180(n, Rot180(n, uv)) == uv
    ensures FlipHoriz(n, FlipHoriz(n, uv)) == uv
    ensures InTile(n, uv) ==> InTile(n, Rot90(n, uv)) && InTile(n, Rot180(n, uv)) && InTile(n, Rot270(n, uv)) && InTile(n, FlipHoriz(n, uv))
  {
    var once := Rot90(n, uv);
    var twice := Rot90(n, once);
    assert twice == Rot180(n, uv);
    assert Rot90(n, twice) == Rot270(n, uv);
  }

  /** The inclined torch's horizontal clamp into the middle two columns. */
  function TorchU(n: int, u: int): int {
    var u1 := if u < n / 2 then n / 2 - 1 else u;
    if u1 > n / 2 then n / 2 else u1
  }

  /** The lily pad's rotation for its orientation 0..3 (3 leaves it alone). */
  function LilyTurn(n: int, uv: (int, int), orientation: int): (int, int) {
    if orientation == 0 then Rot90(n, uv)
    else if orientation == 1 then Rot180(n, uv)
    else if orientation == 2 then Rot270(n, uv)
    else uv
  }

  /** A Java `long` as its 64 bits. */
  function Bits64(v: int): bv64 {
    (v % TWO64) as bv64
  }

  /**
   * The lily pad's orientation from its world position, as Minecraft's
   * renderer computes it: an `int` product, two `long` XORs, a `long`
   * polynomial, then bits 16 and 17.
   */
  function LilyOrientation(x: int, y: int, z: int): (r: int)
    ensures 0 <= r < 4
  {
    var l1 := (Bits64(Wrap32(x * 0x2fc20f)) ^ Bits64(z * 0x6ebfff5) ^ Bits64(y)) as int;
    (l1 * l1 * 0x285b825 + l1 * 11) % TWO64 / 0x10000 % 4
  }

  /**
   * The coordinate transform of op `op`, or None where the op makes the texel
   * transparent: the lower half for the shift-down ops, the bottom quarter
   * for the inclined torch.
   */
  function TransformUV(op: int, n: nat, uv: (int, int), orientation: int): (r: Option<(int, int)>)
    ensures r.None? <==> ((op == COLORMOD_SHIFTDOWNHALF || op == COLORMOD_SHIFTDOWNHALFANDFLIPHORIZ) && uv.1 < n / 2)
                         || (op == COLORMOD_INCLINEDTORCH && uv.1 >= 3 * n / 4)
  {
    if op == COLORMOD_ROT90 then Some(Rot90(n, uv))
    else if op == COLORMOD_ROT180 then Some(Rot180(n, uv))
    else if op == COLORMOD_ROT270 || op == COLORMOD_GRASSTONED270 || op == COLORMOD_FOLIAGETONED270 || op == COLORMOD_WATERTONED270 then
      Some(Rot270(n, uv))
    else if op == COLORMOD_FLIPHORIZ then Some(FlipHoriz(n, uv))
    else if op == COLORMOD_SHIFTDOWNHALF then
      if uv.1 < n / 2 then None else Some((uv.0, uv.1 - n / 2))
    else if op == COLORMOD_SHIFTDOWNHALFANDFLIPHORIZ then
      if uv.1 < n / 2 then None else Some((n - uv.0 - 1, uv.1 - n / 2))
    else if op == COLORMOD_INCLINEDTORCH then
      if uv.1 >= 3 * n / 4 then None else Some((TorchU(n, uv.0), uv.1 + n / 4))
    else if op == COLORMOD_LILYTONED then Some(LilyTurn(n, uv, orientation))
    else Some(uv)
  }

  /** Every op maps a point of the tile to a point of the tile; the torch lands in the middle two columns. */
  lemma TransformInTile(op: int, n: nat, uv: (int, int), orientation: int)
    requires InTile(n, uv)
    ensures var r := TransformUV(op, n, uv, orientation); r.Some? ==> InTile(n, r.value)
    ensures op == COLORMOD_INCLINEDTORCH && uv.1 < 3 * n / 4 ==>
      var t := TransformUV(op, n, uv, orientation).value; t.0 == n / 2 - 1 || t.0 == n / 2
  {
    TransformsAreBijections(n, uv);
    if op == COLORMOD_INCLINEDTORCH && uv.1 < 3 * n / 4 {
      assert 3 * n / 4 + n / 4 <= n;
    }
  }

  // ---------------------------------------------------------------------
  // Clear-inside and grass-side ops

  /** What the world says about the block and its neighbours. */
  datatype Scene = Scene(
    matchesLastHit: bool,       // the block has the same base state as the last surface hit
    waterFilled: bool,          // the block is water-filled
    lastHitWaterFilled: bool,   // the last surface hit is water-filled
    onFace: bool,               // the hit is on a face of the block
    isWater: bool,              // the block is water
    betterGrass: bool,          // better-grass rendering is on
    snowBeside: bool,           // the block the ray came from is snow
    grassBelowBeside: bool,     // the block below that one is grass
    snowAbove: bool,            // the block above is snow
    wx: int, wy: int, wz: int)  // the block's world position

  /**
   * The clear-inside ops: transparent (None) exactly when the last surface
   * hit has the same base state, or both are water-filled and the hit is on
   * a face; otherwise water is toned as water and the multiplier variant
   * continues as MULTTONED.
   */
  function ClearInside(op: int, sc: Scene): (r: Option<int>)
    ensures r.None? <==> sc.matchesLastHit || (sc.waterFilled && sc.lastHitWaterFilled && sc.onFace)
    ensures r.Some? && sc.isWater ==> r.value == COLORMOD_WATERTONED
    ensures r.Some? && !sc.isWater ==> r.value == (if op == COLORMOD_MULTTONED_CLEARINSIDE then COLORMOD_MULTTONED else op)
  {
    if sc.matchesLastHit || (sc.waterFilled && sc.lastHitWaterFilled && sc.onFace) then None
    else if sc.isWater then Some(COLORMOD_WATERTONED)
    else if op == COLORMOD_MULTTONED_CLEARINSIDE then Some(COLORMOD_MULTTONED)
    else Some(op)
  }

  /** The tile a texture id names: its pixels, or the blank tile when there are none. */
  function Texture(tiles: Tiles, blank: seq<int>, id: nat): seq<int> {
    TileAt(tiles, blank, id)
  }

  /** The pixel at (u, v), when its flat index `v*n + u` is inside the buffer. */
  function Pixel(texture: seq<int>, n: int, uv: (int, int)): Option<int> {
    var i := uv.1 * n + uv.0;
    if 0 <= i < |texture| then Some(texture[i]) else None
  }

  /**
   * The grass-side op: under snow the snow tile (the full one when better
   * grass sees snow beside), beside grass with better grass the grass tile
   * toned as grass, else the grass mask toned as grass where the mask has
   * alpha at (u, v) and the block's own tile untoned where it has not. The
   * mask read is unguarded, so an index past the mask throws.
   */
  function GrassSide(sc: Scene, tiles: Tiles, blank: seq<int>, n: int, uv: (int, int), texture: seq<int>): (r: Result<(seq<int>, int)>)
    ensures r.Err? <==> !sc.snowAbove && !(sc.betterGrass && sc.grassBelowBeside) && Pixel(Texture(tiles, blank, TILEINDEX_GRASSMASK), n, uv).None?
  {
    if sc.snowAbove then
      Ok((Texture(tiles, blank, if sc.betterGrass && sc.snowBeside then TILEINDEX_SNOW else TILEINDEX_SNOWSIDE), 0))
    else if sc.betterGrass && sc.grassBelowBeside then
      Ok((Texture(tiles, blank, TILEINDEX_GRASS), COLORMOD_GRASSTONED))
    else
      var mask := Texture(tiles, blank, TILEINDEX_GRASSMASK);
      match Pixel(mask, n, uv)
      case None => Err(ArrayIndexOutOfBoundsException)
      case Some(alpha) =>
        if HasAlpha(alpha) then Ok((mask, COLORMOD_GRASSTONED)) else Ok((texture, COLORMOD_GRASSSIDE))
  }

  // ---------------------------------------------------------------------
  // Colour multipliers

  /**
   * The multipliers the biome and block lookups yield: the smoothed lookups
   * used under biome shading, each image's trivial colour otherwise, the
   * fixed birch, pine and lily colours, and the block's own multiplier.
   */
  datatype Shading = Shading(
    doBiomeShading: bool,
    grassSmooth: int, grassTrivial: int,
    foliageSmooth: int, foliageTrivial: int,
    waterImage: bool, waterSmooth: int, waterTrivial: int, waterDefault: int,
    birchImage: bool, birchSmooth: int, pineImage: bool, pineSmooth: int,
    birch: int, pine: int, lily: int, blockMult: int)

  /** The block's custom colouring: none, an entry whose image did not load, or the multiplier its image yields. */
  datatype Custom = NoCustom | CustomWithoutImage | CustomMult(mult: int)

  /** `c & 0xFF000000` for a 32-bit value, as a Java `int`. */
  function AlphaBits(c: int): int {
    c - c % LOW24
  }

  /** `((f & 0xFEFEFE) + b) / 2` in Java `int` arithmetic. */
  function HalfBlend(f: int, b: int): int {
    var masked := (((f % LOW24) as bv24) & 0xFEFEFE) as int;
    JDiv(Wrap32(masked + b), 2)
  }

  /** The foliage multiplier: smoothed under biome shading, the foliage image's trivial colour otherwise. */
  function Foliage(sh: Shading): int {
    if sh.doBiomeShading then sh.foliageSmooth else sh.foliageTrivial
  }

  /**
   * The multiplier and the alpha the tone switch picks for `op` (-1 for no
   * multiplier, alpha 0xFF000000 unless MULTTONED's multiplier carries its
   * own alpha).
   */
  function ToneMult(op: int, sh: Shading): (r: (int, int))
    ensures r.1 == ALPHA_MASK || (op == COLORMOD_MULTTONED && HasAlpha(sh.blockMult) && r == (sh.blockMult, AlphaBits(sh.blockMult)))
  {
    if op == COLORMOD_GRASSTONED || op == COLORMOD_GRASSTONED270 then
      (if sh.doBiomeShading then sh.grassSmooth else sh.grassTrivial, ALPHA_MASK)
    else if op == COLORMOD_FOLIAGETONED || op == COLORMOD_FOLIAGETONED270 then
      (Foliage(sh), ALPHA_MASK)
    else if op == COLORMOD_FOLIAGEMULTTONED then
      (HalfBlend(Foliage(sh), sh.blockMult), ALPHA_MASK)
    else if op == COLORMOD_WATERTONED || op == COLORMOD_WATERTONED270 then
      (if sh.waterImage then (if sh.doBiomeShading then sh.waterSmooth else sh.waterTrivial)
       else if sh.doBiomeShading then sh.waterDefault else -1, ALPHA_MASK)
    else if op == COLORMOD_BIRCHTONED then
      (if sh.doBiomeShading && sh.birchImage then sh.birchSmooth else sh.birch, ALPHA_MASK)
    else if op == COLORMOD_PINETONED then
      (if sh.doBiomeShading && sh.pineImage then sh.pineSmooth else sh.pine, ALPHA_MASK)
    else if op == COLORMOD_LILYTONED then
      (sh.lily, ALPHA_MASK)
    else if op == COLORMOD_MULTTONED then
      (sh.blockMult, if HasAlpha(sh.blockMult) then AlphaBits(sh.blockMult) else ALPHA_MASK)
    else
      (-1, ALPHA_MASK)
  }

  /**
   * The multiplier blended into the texel, if any: the custom colouring's
   * when the block has a loaded one (and it is not -1), otherwise the tone's
   * when it is neither -1 nor 0, with alpha 0xFF unless MULTTONED's
   * multiplier brings its own.
   */
  function Blend(op: int, sh: Shading, custom: Custom): (r: Option<int>)
  {
    if custom.CustomMult? then
      if custom.mult != -1 then Some(WithFullAlpha(custom.mult)) else None
    else
      var (cm, alpha) := ToneMult(op, sh);
      if cm != -1 && cm != 0 then Some(if alpha == ALPHA_MASK then WithFullAlpha(cm) else cm) else None
  }

  /**
   * The blend gate: a custom multiplier is blended iff it is not -1, a tone
   * iff it is neither -1 nor 0; ops without a tone blend nothing; and what is
   * blended is opaque unless it is MULTTONED's multiplier with its own alpha.
   */
  lemma BlendGate(op: int, sh: Shading, custom: Custom)
    ensures custom.CustomMult? ==> (Blend(op, sh, custom).Some? <==> custom.mult != -1)
    ensures !custom.CustomMult? ==> (Blend(op, sh, custom).Some? <==> ToneMult(op, sh).0 != -1 && ToneMult(op, sh).0 != 0)
    ensures (!custom.CustomMult? && op in {0, COLORMOD_ROT90, COLORMOD_ROT180, COLORMOD_ROT270, COLORMOD_FLIPHORIZ,
               COLORMOD_SHIFTDOWNHALF, COLORMOD_SHIFTDOWNHALFANDFLIPHORIZ, COLORMOD_INCLINEDTORCH, COLORMOD_GRASSSIDE})
      ==> Blend(op, sh, custom).None?
    ensures var b := Blend(op, sh, custom);
      b.Some? ==> IsSolid(b.value) || (!custom.CustomMult? && op == COLORMOD_MULTTONED && b.value == sh.blockMult)
  {
    var (cm, alpha) := ToneMult(op, sh);
    if !custom.CustomMult? && cm != -1 && cm != 0 && alpha != ALPHA_MASK {
      assert op == COLORMOD_MULTTONED;
    }
  }

  // ---------------------------------------------------------------------
  // One texel

  /** What one lookup does to the result colour: make it transparent, leave it, or set a texel (with the multiplier to blend in). */
  datatype Sample = Clear | Keep | Texel(argb: int, blend: Option<int>)

  function Clamp(n: int, c: int): int {
    if c < 0 then 0 else if c >= n then n - 1 else c
  }

  /** The plain path's read: at (u, v), else at (u, v) clamped into the tile, else nothing. */
  function SampleClamped(texture: seq<int>, n: int, uv: (int, int)): Sample {
    match Pixel(texture, n, uv)
    case Some(a) => Texel(a, None)
    case None =>
      match Pixel(texture, n, (Clamp(n, uv.0), Clamp(n, uv.1)))
      case Some(a) => Texel(a, None)
      case None => Keep
  }

  /** The modified path's read: at (u, v), else 0. */
  function PixelOrZero(texture: seq<int>, n: int, uv: (int, int)): int {
    match Pixel(texture, n, uv)
    case Some(a) => a
    case None => 0
  }

  /**
   * The private `readColor`: the texel for texture id `textid`. A negative
   * id is transparent; an id below 1000000 on a block without custom
   * colouring is read directly with clamping; otherwise the op is decoded,
   * clear-inside and the coordinate transforms may make it transparent, and
   * the pixel is read with the multiplier the op selects. The only error is
   * the grass mask read.
   */
  function ReadTexel(tiles: Tiles, blank: seq<int>, n: nat, p: Probe, textid: int, stdrot: bool,
                     sc: Scene, sh: Shading, custom: Custom): (r: Result<Sample>)
    ensures textid < 0 ==> r == Ok(Clear)
    ensures r.Err? ==> textid / TileRegistry.COLORMOD_MULT_INTERNAL == COLORMOD_GRASSSIDE
  {
    if textid < 0 then Ok(Clear)
    else if textid < TileRegistry.COLORMOD_MULT_INTERNAL && custom.NoCustom? then
      Ok(SampleClamped(Texture(tiles, blank, textid), n, ProbeUV(p, stdrot, n)))
    else
      var op0, id := textid / TileRegistry.COLORMOD_MULT_INTERNAL, textid % TileRegistry.COLORMOD_MULT_INTERNAL;
      var op1 := if op0 == COLORMOD_CLEARINSIDE || op0 == COLORMOD_MULTTONED_CLEARINSIDE then ClearInside(op0, sc) else Some(op0);
      if op1.None? then Ok(Clear)
      else
        var op := op1.value;
        var texture := Texture(tiles, blank, id);
        var uv := ProbeUV(p, stdrot, n);
        if op == COLORMOD_GRASSSIDE then
          match GrassSide(sc, tiles, blank, n, uv, texture)
          case Err(e) => Err(e)
          case Ok(picked) => Ok(Texel(PixelOrZero(picked.0, n, uv), Blend(picked.1, sh, custom)))
        else
          match TransformUV(op, n, uv, LilyOrientation(sc.wx, sc.wy, sc.wz))
          case None => Ok(Clear)
          case Some(uv2) => Ok(Texel(PixelOrZero(texture, n, uv2), Blend(op, sh, custom)))
  }

  lemma TileIndex(n: int, uv: (int, int))
    requires InTile(n, uv)
    ensures 0 <= uv.1 * n + uv.0 < n * n
  {
    assert 0 <= uv.1 * n;
    assert (uv.1 + 1) * n <= n * n by {
      assert n * n - (uv.1 + 1) * n == (n - uv.1 - 1) * n;
    }
  }

  /**
   * A point inside a full-size tile is read where it is: the plain path
   * needs no clamping and always finds a texel, and the op path never falls
   * back to 0.
   */
  lemma ReadInTile(texture: seq<int>, n: nat, uv: (int, int))
    requires InTile(n, uv) && |texture| == n * n
    ensures 0 <= uv.1 * n + uv.0 < |texture|
    ensures SampleClamped(texture, n, uv) == Texel(texture[uv.1 * n + uv.0], None)
    ensures PixelOrZero(texture, n, uv) == texture[uv.1 * n + uv.0]
  {
    TileIndex(n, uv);
  }

  /** Outside the tile the plain path still finds a texel in a full-size tile, at the clamped point. */
  lemma ClampedReadFinds(texture: seq<int>, n: nat, uv: (int, int))
    requires n > 0 && |texture| == n * n
    ensures SampleClamped(texture, n, uv).Texel?
  {
    var c := (Clamp(n, uv.0), Clamp(n, uv.1));
    TileIndex(n, c);
  }

  // ---------------------------------------------------------------------
  // Layers

  /** The state `readColor`'s result colour is transparent in: no alpha bits. */
  predicate Transparent(argb: int) {
    !HasAlpha(argb)
  }

  /** The result colour after a lookup: transparent is 0, and a texel's colour is taken before blending. */
  function Apply(prev: int, s: Sample): int {
    match s
    case Clear => 0
    case Keep => prev
    case Texel(a, _) => a
  }

  /** A block's texture map: the face table, the optional layer links (negative ends a chain), and `stdrot`. */
  datatype BlockTextures = BlockTextures(faces: seq<int>, layers: Option<seq<int>>, stdrot: bool)

  /** Everything a lookup reads besides the block's own texture map. */
  datatype Env = Env(tiles: Tiles, blank: seq<int>, n: nat, probe: Probe, scene: Scene, shading: Shading, custom: Custom)

  /** The result colour after looking up face `i` over `prev`; an index past the face table throws. */
  function FaceColour(env: Env, bt: BlockTextures, i: int, prev: int): Result<int> {
    if !(0 <= i < |bt.faces|) then Err(ArrayIndexOutOfBoundsException)
    else match ReadTexel(env.tiles, env.blank, env.n, env.probe, bt.faces[i], bt.stdrot, env.scene, env.shading, env.custom)
      case Err(e) => Err(e)
      case Ok(s) => Ok(Apply(prev, s))
  }

  /** Following links from face `i` reaches a negative link, or an index past the links, within `k` steps: the chain has no cycle. */
  predicate ChainStops(layers: seq<int>, i: int, k: nat)
    decreases k
  {
    k > 0 && (!(0 <= i < |layers|) || layers[i] < 0 || ChainStops(layers, layers[i], k - 1))
  }

  /**
   * The layer loop from face `i` with colour `c`: while `c` is transparent and
   * the link from `i` is not negative, follow it and look that face up. The
   * result is the last face and colour, and the walk only stops on an opaque
   * colour or a negative link.
   */
  function LayerWalk(env: Env, bt: BlockTextures, layers: seq<int>, i: int, c: int, k: nat): (r: Result<(int, int)>)
    requires ChainStops(layers, i, k)
    ensures r.Ok? ==> !Transparent(r.value.1) || (0 <= r.value.0 < |layers| && layers[r.value.0] < 0)
    ensures r.Ok? && !Transparent(c) ==> r.value == (i, c)
    decreases k
  {
    if !Transparent(c) then Ok((i, c))
    else if !(0 <= i < |layers|) then Err(ArrayIndexOutOfBoundsException)
    else if layers[i] < 0 then Ok((i, c))
    else match FaceColour(env, bt, layers[i], c)
      case Err(e) => Err(e)
      case Ok(c2) => LayerWalk(env, bt, layers, layers[i], c2, k - 1)
  }

  /** The face a lookup starts from: the patch index when there is one, the face's ordinal otherwise. */
  function StartFace(p: Probe): int {
    if p.patchId >= 0 then p.patchId else Ordinal(p.step)
  }

  /** The public `readColor`: the start face, then the layer walk when the block has layers. */
  function ReadColor(env: Env, bt: BlockTextures, prev: int, k: nat): (r: Result<int>)
    requires bt.layers.Some? ==> ChainStops(bt.layers.value, StartFace(env.probe), k)
  {
    var i := StartFace(env.probe);
    match FaceColour(env, bt, i, prev)
    case Err(e) => Err(e)
    case Ok(c) =>
      if bt.layers.None? then Ok(c)
      else match LayerWalk(env, bt, bt.layers.value, i, c, k)
        case Err(e) => Err(e)
        case Ok(last) => Ok(last.1)
  }

  /** A lookup that ends transparent on a layered block ended on a face whose link is negative. */
  lemma LayeredEndsOpaqueOrAtChainEnd(env: Env, bt: BlockTextures, prev: int, k: nat)
    requires bt.layers.Some? && ChainStops(bt.layers.value, StartFace(env.probe), k)
    ensures var r := ReadColor(env, bt, prev, k);
      r.Ok? && Transparent(r.value) ==> exists j :: 0 <= j < |bt.layers.value| && bt.layers.value[j] < 0
  {
    var i := StartFace(env.probe);
    var fc := FaceColour(env, bt, i, prev);
    if fc.Ok? {
      var w := LayerWalk(env, bt, bt.layers.value, i, fc.value, k);
      if w.Ok? && Transparent(w.value.1) {
        assert bt.layers.value[w.value.0] < 0;
      }
    }
  }

  /** The public `readColor` with its loop over the layer links. */
  method ReadColorLayered(env: Env, bt: BlockTextures, prev: int, ghost k: nat) returns (r: Result<int>)
    requires bt.layers.Some? ==> ChainStops(bt.layers.value, StartFace(env.probe), k)
    ensures r == ReadColor(env, bt, prev, k)
  {
    var faceIndex := StartFace(env.probe);
    var first := FaceColour(env, bt, faceIndex, prev);
    if first.Err? {
      return Err(first.error);
    }
    var rslt := first.value;
    if bt.layers.None? {
      return Ok(rslt);
    }
    var layers := bt.layers.value;
    ghost var fuel := k;
    while Transparent(rslt)
      invariant ChainStops(layers, faceIndex, fuel)
      invariant LayerWalk(env, bt, layers, faceIndex, rslt, fuel) == LayerWalk(env, bt, layers, StartFace(env.probe), first.value, k)
      decreases fuel
    {
      if !(0 <= faceIndex < |layers|) {
        return Err(ArrayIndexOutOfBoundsException);
      }
      if layers[faceIndex] < 0 {
        break;
      }
      var next := FaceColour(env, bt, layers[faceIndex], rslt);
      if next.Err? {
        return Err(next.error);
      }
      faceIndex, rslt := layers[faceIndex], next.value;
      fuel := fuel - 1;
    }
    r := Ok(rslt);
  }
}

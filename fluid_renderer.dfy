/**
 * `FluidStateRenderer`: the integer side of dynmap's vanilla fluid renderer.
 * Each of the four top corners of a fluid block gets a height in ninths of a
 * block, computed as a rounded weighted mean over the blocks sharing that
 * corner; the four heights key a cache of meshes, and a missing mesh is built
 * from a bottom patch, up to four side patches and a top surface split along
 * its lowest edge.
 *
 * Block states are values carrying the three facts the renderer asks of them
 * (base state, state index, solidity). Patch geometry is kept in ninths and
 * whole block units; the conversion to `double` is not modelled.
 */
module FluidRenderer {
  import opened JavaLang

  /** The parts of a block state the renderer reads. */
  datatype BlockState = BlockState(baseState: int, stateIndex: nat, solid: bool)

  /** `matchingBaseState`: both states belong to the same block. */
  predicate Matching(a: BlockState, b: BlockState) {
    a.baseState == b.baseState
  }

  /** `getAirHeight`: the air above the fluid surface, in ninths. */
  function AirHeight(bs: BlockState): (h: int)
    ensures 1 <= h <= 8
    ensures h == 1 <==> bs.stateIndex == 0 || bs.stateIndex > 7
  {
    if bs.stateIndex > 7 then 1 else bs.stateIndex + 1
  }

  /**
   * `getIntKey`: four heights packed into 4-bit fields, the first lowest.
   * Java's `<<` and `+` on `int` are congruent modulo 2^32 to the exact sum,
   * hence the single wrap.
   */
  function IntKey(h11: int, hn11: int, h1n1: int, hn1n1: int): int {
    Wrap32(h11 + hn11 * 16 + h1n1 * 256 + hn1n1 * 4096)
  }

  /** Heights that fit one 4-bit field. */
  predicate Nibble(h: int) { 0 <= h < 16 }

  /** The four fields of a key, lowest first: the inverse of `IntKey`. */
  function KeyFields(k: int): (r: (int, int, int, int))
    ensures 0 <= k ==> Nibble(r.0) && Nibble(r.1) && Nibble(r.2) && Nibble(r.3)
  {
    (k % 16, (k / 16) % 16, (k / 16 / 16) % 16, (k / 16 / 16 / 16) % 16)
  }

  /** For 4-bit heights, unpacking a key gives back the heights. */
  lemma KeyFieldsOfIntKey(a: int, b: int, c: int, d: int)
    requires Nibble(a) && Nibble(b) && Nibble(c) && Nibble(d)
    ensures 0 <= IntKey(a, b, c, d) < 0x1_0000
    ensures KeyFields(IntKey(a, b, c, d)) == (a, b, c, d)
  {
    var k1 := b + c * 16 + d * 256;
    var k2 := c + d * 16;
    DivModUnique(a + 16 * k1, 16, k1, a);
    DivModUnique(k1, 16, k2, b);
    DivModUnique(k2, 16, d, c);
    DivModUnique(d, 16, 0, d);
  }

  /** `getIntKey` is injective on 4-bit heights: distinct corner heights never share a cache slot. */
  lemma IntKeyInjective(a: int, b: int, c: int, d: int, a': int, b': int, c': int, d': int)
    requires Nibble(a) && Nibble(b) && Nibble(c) && Nibble(d)
    requires Nibble(a') && Nibble(b') && Nibble(c') && Nibble(d')
    ensures IntKey(a, b, c, d) == IntKey(a', b', c', d') <==> (a, b, c, d) == (a', b', c', d')
  {
    KeyFieldsOfIntKey(a, b, c, d);
    KeyFieldsOfIntKey(a', b', c', d');
  }

  /** A height with its weight: a full source (air height 1) weighs 11, any other level 1. */
  function Weighted(h: int): (r: (int, int))
    requires 1 <= h <= 8
    ensures r.1 >= 1 && r.1 <= r.0 <= 8 * r.1
    ensures h == 1 ==> r == (11, 11)
    ensures h != 1 ==> r == (h, 1)
  {
    if h == 1 then (11 * h, 11) else (h, 1)
  }

  /**
   * What a neighbour `b` adds to the mean around `b0`: its own weighted
   * height when it is the same fluid, a 9 when it is open, nothing when solid.
   */
  function Contribution(b: BlockState, b0: BlockState): (r: (int, int))
    ensures r.1 >= 0 && r.1 <= r.0 <= 9 * r.1
    ensures Matching(b, b0) ==> r == Weighted(AirHeight(b))
    ensures !Matching(b, b0) && !b.solid ==> r == (9, 1)
    ensures !Matching(b, b0) && b.solid ==> r == (0, 0)
  {
    if Matching(b, b0) then Weighted(AirHeight(b))
    else if !b.solid then (9, 1)
    else (0, 0)
  }

  /** The accumulated sum and count of `getCornerHeight`: the block itself, then its three neighbours. */
  function Totals(b0: BlockState, b1: BlockState, b2: BlockState, b3: BlockState): (t: (int, int))
    ensures t.1 >= 1 && t.1 <= t.0 <= 9 * t.1
  {
    var s := Weighted(AirHeight(b0));
    var c1 := Contribution(b1, b0);
    var c2 := Contribution(b2, b0);
    var c3 := Contribution(b3, b0);
    (s.0 + c1.0 + c2.0 + c3.0, s.1 + c1.1 + c2.1 + c3.1)
  }

  /** Some block above the corner is the same fluid. */
  predicate CoveredAbove(b0: BlockState, u0: BlockState, u1: BlockState, u2: BlockState, u3: BlockState) {
    Matching(b0, u0) || Matching(b0, u1) || Matching(b0, u2) || Matching(b0, u3)
  }

  /** `(accum + cnt/2) / cnt` with the bounds the totals allow: the mean rounded half up. */
  lemma RoundedMean(accum: int, cnt: int)
    requires cnt >= 1 && cnt <= accum <= 9 * cnt
    ensures var m := (accum + cnt / 2) / cnt;
      1 <= m <= 9 && m * cnt <= accum + cnt / 2 < (m + 1) * cnt
  {
    var n := accum + cnt / 2;
    var m := n / cnt;
    assert n == m * cnt + n % cnt && 0 <= n % cnt < cnt;
    if m < 1 {
      MulAtLeast(-m, cnt);
    }
    if m > 9 {
      MulAtLeast(m - 10, cnt);
    }
  }

  /**
   * `getCornerHeight`: 9 when the fluid continues above the corner; otherwise
   * 9 minus the weighted mean of the air heights, rounded to nearest, which
   * lies in 0..8.
   */
  function CornerHeight(b0: BlockState, b1: BlockState, b2: BlockState, b3: BlockState,
                        u0: BlockState, u1: BlockState, u2: BlockState, u3: BlockState): (r: int)
    ensures 0 <= r <= 9
    ensures r == 9 <==> CoveredAbove(b0, u0, u1, u2, u3)
    ensures !CoveredAbove(b0, u0, u1, u2, u3) ==>
      var t := Totals(b0, b1, b2, b3);
      (9 - r) * t.1 <= t.0 + t.1 / 2 < (10 - r) * t.1
  {
    if CoveredAbove(b0, u0, u1, u2, u3) then 9
    else
      var t := Totals(b0, b1, b2, b3);
      RoundedMean(t.0, t.1);
      9 - (t.0 + t.1 / 2) / t.1
  }

  /** The four corner heights, named by their x and z offsets (`n1` is -1). */
  datatype Corners = Corners(h11: int, hn11: int, h1n1: int, hn1n1: int)

  /** The height at the corner with block-local coordinates x, z in {0, 1}. */
  function CornerAt(c: Corners, x: int, z: int): int {
    if x == 1 && z == 1 then c.h11
    else if x == 0 && z == 1 then c.hn11
    else if x == 1 && z == 0 then c.h1n1
    else c.hn1n1
  }

  /** The edges of the top face, in the order `getRenderPatchList` prefers them on a tie. */
  datatype Edge = XPlus | ZPlus | XMinus | ZMinus

  function Rank(e: Edge): nat {
    match e
    case XPlus => 0
    case ZPlus => 1
    case XMinus => 2
    case ZMinus => 3
  }

  /** The sum of the two corner heights along an edge. */
  function EdgeSum(c: Corners, e: Edge): int {
    match e
    case XPlus => c.h1n1 + c.h11
    case ZPlus => c.h11 + c.hn11
    case XMinus => c.hn1n1 + c.hn11
    case ZMinus => c.hn1n1 + c.h1n1
  }

  /** The edge the top surface is split along: a lowest one, the first in rank among equals. */
  function LowestEdge(c: Corners): (e: Edge)
    ensures forall e' :: EdgeSum(c, e) <= EdgeSum(c, e')
    ensures forall e' :: Rank(e') < Rank(e) ==> EdgeSum(c, e') > EdgeSum(c, e)
  {
    var xm := EdgeSum(c, XMinus);
    var xp := EdgeSum(c, XPlus);
    var zm := EdgeSum(c, ZMinus);
    var zp := EdgeSum(c, ZPlus);
    if xp <= xm && xp <= zm && xp <= zp then XPlus
    else if zp <= zm && zp <= xm && zp <= xp then ZPlus
    else if xm <= xp && xm <= zm && xm <= zp then XMinus
    else ZMinus
  }

  /** A patch corner: x and z in block units, y in ninths. */
  datatype Point = Point(x: int, y: int, z: int)

  /** Which part of the quad a top patch covers. */
  datatype TopShape = Whole | LowerTriangle | UpperTriangle

  /** The patches a fluid mesh is made of (texture and visibility are fixed per kind). */
  datatype Patch =
    | Bottom
    | Side(x0: int, z0: int, x1: int, z1: int, h0: int, h1: int)
    | Top(origin: Point, u: Point, v: Point, shape: TopShape)

  /** `addSide`: a flowing side face from (x0, z0) to (x1, z1), unless both ends are at height 0. */
  function AddSide(x0: int, z0: int, x1: int, z1: int, h0: int, h1: int): (r: seq<Patch>)
    ensures |r| == 0 <==> h0 == 0 && h1 == 0
    ensures |r| <= 1
    ensures |r| == 1 ==> r[0] == Side(x0, z0, x1, z1, h0, h1)
  {
    if h0 == 0 && h1 == 0 then [] else [Side(x0, z0, x1, z1, h0, h1)]
  }

  /**
   * `addTop`: the top surface anchored on the edge (x0,z0)-(x1,z1) with heights
   * h0, h1, the third corner across from (x0, z0) at h2 and the fourth at h3.
   * One patch when the four corners are coplanar, two triangles otherwise.
   */
  function AddTop(x0: int, z0: int, x1: int, z1: int, h0: int, h1: int, h2: int, h3: int): (r: seq<Patch>)
    ensures 1 <= |r| <= 2
    ensures |r| == 1 <==> h0 + h3 == h1 + h2
    ensures forall i :: 0 <= i < |r| ==> r[i].Top? && r[i].u == Point(x1, h1, z1)
    ensures r[0].origin == Point(x0, h0, z0)
    ensures |r| == 2 ==>
      r[0].shape == LowerTriangle && r[1].shape == UpperTriangle && r[1].origin == Point(x0, h1 + h2 - h3, z0)
  {
    var upper := h1 + h2 - h3;
    var v := if x0 == x1 then Point(1 - x0, h2, z0) else Point(x0, h2, 1 - z0);
    if upper == h0 then
      [Top(Point(x0, h0, z0), Point(x1, h1, z1), v, Whole)]
    else
      [Top(Point(x0, h0, z0), Point(x1, h1, z1), v, LowerTriangle),
       Top(Point(x0, upper, z0), Point(x1, h1, z1), v, UpperTriangle)]
  }

  /** The four sides, in the order X-, X+, Z-, Z+. */
  function Sides(c: Corners): seq<Patch> {
    AddSide(0, 0, 0, 1, c.hn1n1, c.hn11) + AddSide(1, 1, 1, 0, c.h11, c.h1n1) +
    AddSide(1, 0, 0, 0, c.h1n1, c.hn1n1) + AddSide(0, 1, 1, 1, c.hn11, c.h11)
  }

  /** The top surface, split along the lowest edge. */
  function TopSurface(c: Corners): seq<Patch> {
    match LowestEdge(c)
    case XPlus => AddTop(1, 1, 1, 0, c.h11, c.h1n1, c.hn11, c.hn1n1)
    case ZPlus => AddTop(0, 1, 1, 1, c.hn11, c.h11, c.hn1n1, c.h1n1)
    case XMinus => AddTop(0, 0, 0, 1, c.hn1n1, c.hn11, c.h1n1, c.h11)
    case ZMinus => AddTop(1, 0, 0, 0, c.h1n1, c.hn1n1, c.h11, c.hn11)
  }

  /** A mesh built in `getRenderPatchList`: bottom, sides, then top. */
  function BuildMesh(c: Corners): seq<Patch> {
    [Bottom] + Sides(c) + TopSurface(c)
  }

  /** The corners of the block face (x, z in {0,1}) an edge runs along. */
  predicate OnEdge(e: Edge, x: int, z: int) {
    match e
    case XPlus => x == 1 && 0 <= z <= 1
    case ZPlus => z == 1 && 0 <= x <= 1
    case XMinus => x == 0 && 0 <= z <= 1
    case ZMinus => z == 0 && 0 <= x <= 1
  }

  /** A point sits on a block corner at that corner's height. */
  predicate AtCorner(c: Corners, p: Point) {
    0 <= p.x <= 1 && 0 <= p.z <= 1 && p.y == CornerAt(c, p.x, p.z)
  }

  /**
   * The top surface starts on the lowest edge, both ends at their corner
   * heights; every corner it uses other than the raised origin of an upper
   * triangle is a corner of the block at its own height.
   */
  lemma TopSurfaceOnLowestEdge(c: Corners)
    ensures var t := TopSurface(c);
      1 <= |t| <= 2 && t[0].Top? &&
      OnEdge(LowestEdge(c), t[0].origin.x, t[0].origin.z) &&
      OnEdge(LowestEdge(c), t[0].u.x, t[0].u.z) &&
      t[0].origin != t[0].u &&
      forall i :: 0 <= i < |t| ==>
        t[i].Top? && AtCorner(c, t[i].u) && AtCorner(c, t[i].v) && (t[i].shape != UpperTriangle ==> AtCorner(c, t[i].origin))
  {
  }

  /** A side face runs along the block edge between two corners, at their heights. */
  lemma SidesFollowCorners(c: Corners)
    ensures var s := Sides(c);
      |s| <= 4 &&
      forall i :: 0 <= i < |s| ==>
        s[i].Side? && AtCorner(c, Point(s[i].x0, s[i].h0, s[i].z0)) && AtCorner(c, Point(s[i].x1, s[i].h1, s[i].z1))
  {
  }

  /** A built mesh has its bottom, at most four sides and one or two top patches. */
  lemma BuildMeshSize(c: Corners)
    ensures 2 <= |BuildMesh(c)| <= 7
    ensures BuildMesh(c)[0] == Bottom
    ensures c == Corners(0, 0, 0, 0) ==> |BuildMesh(c)| == 2
  {
  }

  /** A cached mesh: a flat box `height` ninths tall (built by `addBox`), or a built patch list. */
  datatype Mesh = FlatBox(height: int) | Built(patches: seq<Patch>)

  /** `initializeRenderer`'s loop after `n` rounds: round i stores the flat box of height 9-i. */
  function FlatFill(cache: map<int, Mesh>, n: nat): (r: map<int, Mesh>)
    requires n <= 10
    ensures cache.Keys <= r.Keys
  {
    if n == 0 then cache
    else
      var h := 9 - (n - 1);
      FlatFill(cache, n - 1)[IntKey(h, h, h, h) := FlatBox(h)]
  }

  /**
   * After the ten rounds, four equal corner heights h in 0..9 find the flat box
   * of height h, and every other key keeps what it had.
   */
  lemma {:induction false} FlatFillLookup(cache: map<int, Mesh>, n: nat, k: int)
    requires n <= 10
    ensures forall h :: 10 - n <= h <= 9 && k == IntKey(h, h, h, h) ==>
      k in FlatFill(cache, n) && FlatFill(cache, n)[k] == FlatBox(h)
    ensures (forall h :: 10 - n <= h <= 9 ==> k != IntKey(h, h, h, h)) ==>
      (k in FlatFill(cache, n) <==> k in cache) &&
      (k in cache ==> FlatFill(cache, n)[k] == cache[k])
  {
    if n > 0 {
      FlatFillLookup(cache, n - 1, k);
      var top := 9 - (n - 1);
      forall h | 10 - n <= h <= 9 && k == IntKey(h, h, h, h)
        ensures h == top || k != IntKey(top, top, top, top)
      {
        IntKeyInjective(h, h, h, h, top, top, top, top);
      }
    }
  }

  /** The seventeen neighbouring fluid states `getRenderPatchList` reads, by offset. */
  type Neighbourhood = (int, int, int) -> BlockState

  /** The four corner heights of `getRenderPatchList`. */
  function CornersOf(at: Neighbourhood): Corners {
    Corners(
      CornerHeight(at(0, 0, 0), at(0, 0, 1), at(1, 0, 0), at(1, 0, 1), at(0, 1, 0), at(1, 1, 0), at(0, 1, 1), at(1, 1, 1)),
      CornerHeight(at(0, 0, 0), at(0, 0, 1), at(-1, 0, 0), at(-1, 0, 1), at(0, 1, 0), at(-1, 1, 0), at(0, 1, 1), at(-1, 1, 1)),
      CornerHeight(at(0, 0, 0), at(0, 0, -1), at(1, 0, 0), at(1, 0, -1), at(0, 1, 0), at(1, 1, 0), at(0, 1, -1), at(1, 1, -1)),
      CornerHeight(at(0, 0, 0), at(0, 0, -1), at(-1, 0, 0), at(-1, 0, -1), at(0, 1, 0), at(-1, 1, 0), at(0, 1, -1), at(-1, 1, -1)))
  }

  /**
   * The shortcut for fluid above reads the same cache slot the general path
   * would: with the block above matching, all four corners are at height 9.
   */
  lemma ShortcutAgrees(at: Neighbourhood)
    requires Matching(at(0, 1, 0), at(0, 0, 0))
    ensures CornersOf(at) == Corners(9, 9, 9, 9)
  {
  }

  /** The renderer's mesh cache, keyed by `getIntKey` of the corner heights. */
  class FluidStateRenderer {
    var meshcache: map<int, Mesh>

    constructor ()
      ensures meshcache == map[]
    {
      meshcache := map[];
    }

    /** `getCachedModel`. */
    function GetCachedModel(h11: int, hn11: int, h1n1: int, hn1n1: int): (r: Option<Mesh>)
      reads this
      ensures r.Some? <==> IntKey(h11, hn11, h1n1, hn1n1) in meshcache
      ensures r.Some? ==> r.value == meshcache[IntKey(h11, hn11, h1n1, hn1n1)]
    {
      var k := IntKey(h11, hn11, h1n1, hn1n1);
      if k in meshcache then Some(meshcache[k]) else None
    }

    /** `putCachedModel`. */
    method PutCachedModel(h11: int, hn11: int, h1n1: int, hn1n1: int, model: Mesh)
      modifies this
      ensures meshcache == old(meshcache)[IntKey(h11, hn11, h1n1, hn1n1) := model]
    {
      meshcache := meshcache[IntKey(h11, hn11, h1n1, hn1n1) := model];
    }

    /**
     * `initializeRenderer`: when the base renderer accepts its parameters,
     * stores the flat box of height h under the key (h, h, h, h) for h in 0..9.
     */
    method InitializeRenderer(baseAccepts: bool) returns (ok: bool)
      modifies this
      ensures ok == baseAccepts
      ensures ok ==> meshcache == FlatFill(old(meshcache), 10)
      ensures !ok ==> meshcache == old(meshcache)
    {
      if !baseAccepts {
        return false;
      }
      var i := 0;
      while i < 10
        invariant 0 <= i <= 10
        invariant meshcache == FlatFill(old(meshcache), i)
      {
        PutCachedModel(9 - i, 9 - i, 9 - i, 9 - i, FlatBox(9 - i));
        i := i + 1;
      }
      ok := true;
    }

    /**
     * `getRenderPatchList`: the cached mesh for the four corner heights (or the
     * full-height one when the fluid continues above), building and caching it
     * when it is missing. Only the full-height shortcut can come back empty.
     */
    method GetRenderPatchList(at: Neighbourhood) returns (mesh: Option<Mesh>)
      modifies this
      ensures Matching(at(0, 1, 0), at(0, 0, 0)) ==>
        mesh == old(GetCachedModel(9, 9, 9, 9)) && meshcache == old(meshcache)
      ensures !Matching(at(0, 1, 0), at(0, 0, 0)) ==>
        var c := CornersOf(at);
        var k := IntKey(c.h11, c.hn11, c.h1n1, c.hn1n1);
        if k in old(meshcache) then mesh == Some(old(meshcache)[k]) && meshcache == old(meshcache)
        else mesh == Some(Built(BuildMesh(c))) && meshcache == old(meshcache)[k := Built(BuildMesh(c))]
    {
      if Matching(at(0, 1, 0), at(0, 0, 0)) {
        return GetCachedModel(9, 9, 9, 9);
      }
      var c := CornersOf(at);
      mesh := GetCachedModel(c.h11, c.hn11, c.h1n1, c.hn1n1);
      if mesh.None? {
        var list := BuildModel(c);
        mesh := Some(Built(list));
        PutCachedModel(c.h11, c.hn11, c.h1n1, c.hn1n1, Built(list));
      }
    }
  }

  /** The model-building branch of `getRenderPatchList`: bottom, the four sides, the top along the lowest edge. */
  method BuildModel(c: Corners) returns (list: seq<Patch>)
    ensures list == BuildMesh(c)
  {
    list := [Bottom];
    list := list + AddSide(0, 0, 0, 1, c.hn1n1, c.hn11);
    list := list + AddSide(1, 1, 1, 0, c.h11, c.h1n1);
    list := list + AddSide(1, 0, 0, 0, c.h1n1, c.hn1n1);
    list := list + AddSide(0, 1, 1, 1, c.hn11, c.h11);
    assert list == [Bottom] + Sides(c);
    var xm := c.hn1n1 + c.hn11;
    var xp := c.h1n1 + c.h11;
    var zm := c.hn1n1 + c.h1n1;
    var zp := c.h11 + c.hn11;
    if xp <= xm && xp <= zm && xp <= zp {
      assert LowestEdge(c) == XPlus;
      list := list + AddTop(1, 1, 1, 0, c.h11, c.h1n1, c.hn11, c.hn1n1);
    } else if zp <= zm && zp <= xm && zp <= xp {
      assert LowestEdge(c) == ZPlus;
      list := list + AddTop(0, 1, 1, 1, c.hn11, c.h11, c.hn1n1, c.h1n1);
    } else if xm <= xp && xm <= zm && xm <= zp {
      assert LowestEdge(c) == XMinus;
      list := list + AddTop(0, 0, 0, 1, c.hn1n1, c.hn11, c.h1n1, c.h11);
    } else {
      assert LowestEdge(c) == ZMinus;
      list := list + AddTop(1, 0, 0, 0, c.h1n1, c.hn1n1, c.h11, c.hn11);
    }
  }

  /** After `initializeRenderer`, the full-height shortcut finds the 9/9 flat box. */
  lemma FullHeightAfterInit(cache: map<int, Mesh>)
    ensures GetFlat(FlatFill(cache, 10), 9) == Some(FlatBox(9))
    ensures GetFlat(FlatFill(cache, 10), 0) == Some(FlatBox(0))
  {
    FlatFillLookup(cache, 10, IntKey(9, 9, 9, 9));
    FlatFillLookup(cache, 10, IntKey(0, 0, 0, 0));
  }

  /** The cache entry for four equal corner heights. */
  function GetFlat(cache: map<int, Mesh>, h: int): Option<Mesh> {
    if IntKey(h, h, h, h) in cache then Some(cache[IntKey(h, h, h, h)]) else None
  }

  /**
   * A put followed by a get with the same 4-bit heights returns the stored
   * mesh, and a get with other 4-bit heights sees what was there before.
   */
  lemma PutThenGet(cache: map<int, Mesh>, a: int, b: int, c: int, d: int, m: Mesh,
                   a': int, b': int, c': int, d': int)
    requires Nibble(a) && Nibble(b) && Nibble(c) && Nibble(d)
    requires Nibble(a') && Nibble(b') && Nibble(c') && Nibble(d')
    ensures var after := cache[IntKey(a, b, c, d) := m];
      var k' := IntKey(a', b', c', d');
      if (a, b, c, d) == (a', b', c', d') then k' in after && after[k'] == m
      else (k' in after <==> k' in cache) && (k' in cache ==> after[k'] == cache[k'])
  {
    IntKeyInjective(a, b, c, d, a', b', c', d');
  }
}

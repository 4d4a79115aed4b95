/**
 * The tiles `loadTerrain` builds from other tiles once the pack is loaded: the
 * piston extension and the extended piston side (quarter-tile strips copied
 * transposed), the crossed glass-pane top, the end-portal frame with the eye
 * overlaid, and the pure white tile. Every tile is `n*n` pixels, row-major,
 * `n` being the pack's native scale.
 */
module DerivedTiles {
  import opened JavaLang
  import opened TileBuffers

  /** `0xFFFFFFFF` read as a Java `int`. */
  const OPAQUE_WHITE: int := -1

  /** Cell (r, c) of an `n`-wide tile is index `n*r + c`, which decodes back to (r, c) and lies in the tile. */
  lemma Cell(n: int, r: int, c: int)
    requires n > 0 && 0 <= r < n && 0 <= c < n
    ensures (n * r + c) / n == r && (n * r + c) % n == c
    ensures 0 <= n * r + c < n * n
  {
    DivModUnique(n * r + c, n, r, c);
    MulMono(r + 1, n, n);
    assert n * r + n == (r + 1) * n;
  }

  /** Every index of an `n*n` tile decodes to a row and column below `n`. */
  lemma Decode(n: int, k: int)
    requires n > 0 && 0 <= k < n * n
    ensures 0 <= k / n < n && 0 <= k % n < n && k == n * (k / n) + k % n
  {
    if k / n >= n {
      MulMono(n, k / n, n);
    }
  }

  // ---------------------------------------------------------------------
  // A block of a tile copied transposed: the piston textures

  /** An `I`-row, `J`-column block at (sr, sc) of the source, transposed, lands at (dr, dc) inside an `n`-wide tile. */
  predicate BlockFits(n: int, sr: int, sc: int, dr: int, dc: int, I: int, J: int) {
    n > 0 && 0 <= sr && 0 <= sc && 0 <= dr && 0 <= dc && 0 <= I && 0 <= J
    && sr + I <= n && sc + J <= n && dr + J <= n && dc + I <= n
  }

  /** Whether target index `k` is one the block writes. */
  predicate InBlock(n: int, dr: int, dc: int, I: int, J: int, k: int)
    requires n > 0
  {
    dr <= k / n < dr + J && dc <= k % n < dc + I
  }

  /** The source index copied to target index `k`: target cell (dr+j, dc+i) takes source cell (sr+i, sc+j). */
  function BlockSource(n: int, sr: int, sc: int, dr: int, dc: int, I: int, J: int, k: int): (s: int)
    requires BlockFits(n, sr, sc, dr, dc, I, J) && InBlock(n, dr, dc, I, J, k)
    ensures 0 <= s < n * n
  {
    Cell(n, sr + k % n - dc, sc + k / n - dr);
    n * (sr + k % n - dc) + sc + k / n - dr
  }

  /** The tile after the block is copied transposed onto `d`. */
  function Transposed(d: seq<int>, src: seq<int>, n: int, sr: int, sc: int, dr: int, dc: int, I: int, J: int): (r: seq<int>)
    requires BlockFits(n, sr, sc, dr, dc, I, J) && |d| == n * n && |src| == n * n
    ensures |r| == n * n
  {
    seq(n * n, k requires 0 <= k < n * n =>
      if InBlock(n, dr, dc, I, J, k) then src[BlockSource(n, sr, sc, dr, dc, I, J, k)] else d[k])
  }

  /** Target cell (dr+j, dc+i) holds source cell (sr+i, sc+j). */
  lemma TransposedCell(d: seq<int>, src: seq<int>, n: int, sr: int, sc: int, dr: int, dc: int, I: int, J: int, i: int, j: int)
    requires BlockFits(n, sr, sc, dr, dc, I, J) && |d| == n * n && |src| == n * n
    requires 0 <= i < I && 0 <= j < J
    ensures 0 <= n * (dr + j) + dc + i < n * n && 0 <= n * (sr + i) + sc + j < n * n
    ensures Transposed(d, src, n, sr, sc, dr, dc, I, J)[n * (dr + j) + dc + i] == src[n * (sr + i) + sc + j]
  {
    Cell(n, dr + j, dc + i);
    Cell(n, sr + i, sc + j);
  }

  /** The two nested loops writing the block, outer over source rows `i`, inner over source columns `j`. */
  method TransposeBlock(n: int, src: seq<int>, sr: int, sc: int, dr: int, dc: int, I: int, J: int, buf: array<int>)
    requires BlockFits(n, sr, sc, dr, dc, I, J) && buf.Length == n * n && |src| == n * n
    modifies buf
    ensures buf[..] == Transposed(old(buf[..]), src, n, sr, sc, dr, dc, I, J)
  {
    ghost var d := buf[..];
    ghost var t := Transposed(d, src, n, sr, sc, dr, dc, I, J);
    for i := 0 to I
      invariant forall k :: 0 <= k < n * n ==>
        buf[k] == if InBlock(n, dr, dc, I, J, k) && k % n - dc < i then t[k] else d[k]
    {
      for j := 0 to J
        invariant forall k :: 0 <= k < n * n ==>
          buf[k] == if InBlock(n, dr, dc, I, J, k) && (k % n - dc < i || (k % n - dc == i && k / n - dr < j)) then t[k] else d[k]
      {
        Cell(n, dr + j, dc + i);
        Cell(n, sr + i, sc + j);
        var w := n * (dr + j) + dc + i;
        buf[w] := src[n * (sr + i) + sc + j];
        forall k | 0 <= k < n * n
          ensures buf[k] == if InBlock(n, dr, dc, I, J, k) && (k % n - dc < i || (k % n - dc == i && k / n - dr < j + 1)) then t[k] else d[k]
        {
          Decode(n, k);
        }
      }
    }
    assert buf[..] == t;
  }

  /** A fresh `n*n` buffer holding `len` pixels of `src` copied at `at`, zero elsewhere (`allocateNewARGBBuffer` and `System.arraycopy`). */
  function Prefilled(n: int, src: seq<int>, at: int, len: int): (r: seq<int>)
    requires 0 <= at && 0 <= len && at + len <= n * n && |src| == n * n
    ensures |r| == n * n
  {
    seq(n * n, k requires 0 <= k < n * n => if at <= k < at + len then src[k] else 0)
  }

  /**
   * The piston extension: the top quarter of the piston side, then the
   * piston side's top `n/4` rows laid transposed as `n/4` columns from
   * column `3n/8`, from row `n/4` down.
   */
  function PistonExtension(n: int, side: seq<int>): (r: seq<int>)
    requires n > 0 && |side| == n * n
    ensures |r| == n * n
  {
    Transposed(Prefilled(n, side, 0, n * n / 4), side, n, 0, 0, n / 4, 3 * n / 8, n / 4, 3 * n / 4)
  }

  /**
   * The extended piston side: its bottom three quarters kept, and the
   * right-hand quarter of its top `n/4` rows laid transposed at column `3n/8`
   * of the top rows.
   */
  function PistonSideExtended(n: int, side: seq<int>): (r: seq<int>)
    requires n > 0 && |side| == n * n
    ensures |r| == n * n
  {
    Transposed(Prefilled(n, side, n * n / 4, 3 * n * n / 4), side, n, 0, 3 * n / 4, 0, 3 * n / 8, n / 4, n - 3 * n / 4)
  }

  /** The piston block's sizes fit the tile for every positive scale. */
  lemma PistonBlocksFit(n: int)
    requires n > 0
    ensures BlockFits(n, 0, 0, n / 4, 3 * n / 8, n / 4, 3 * n / 4)
    ensures BlockFits(n, 0, 3 * n / 4, 0, 3 * n / 8, n / 4, n - 3 * n / 4)
    ensures n * n / 4 + 3 * n * n / 4 <= n * n
  {
  }

  /** Piston extension cell (n/4 + j, 3n/8 + i) is piston side cell (i, j). */
  lemma PistonExtensionCell(n: int, side: seq<int>, i: int, j: int)
    requires n > 0 && |side| == n * n
    requires 0 <= i < n / 4 && 0 <= j < 3 * n / 4
    ensures 0 <= n * (n / 4 + j) + 3 * n / 8 + i < n * n && 0 <= n * i + j < n * n
    ensures PistonExtension(n, side)[n * (n / 4 + j) + 3 * n / 8 + i] == side[n * i + j]
  {
    PistonBlocksFit(n);
    TransposedCell(Prefilled(n, side, 0, n * n / 4), side, n, 0, 0, n / 4, 3 * n / 8, n / 4, 3 * n / 4, i, j);
    assert n * (0 + i) + 0 + j == n * i + j;
  }

  /** Outside the transposed block, the top quarter of the piston extension is the piston side's and the rest is zero. */
  lemma PistonExtensionElsewhere(n: int, side: seq<int>, k: int)
    requires n > 0 && |side| == n * n && 0 <= k < n * n
    requires !InBlock(n, n / 4, 3 * n / 8, n / 4, 3 * n / 4, k)
    ensures PistonExtension(n, side)[k] == if k < n * n / 4 then side[k] else 0
  {
    PistonBlocksFit(n);
  }

  /** Extended piston side cell (j - 3n/4, 3n/8 + i) is piston side cell (i, j), for the right-hand columns j. */
  lemma PistonSideExtendedCell(n: int, side: seq<int>, i: int, j: int)
    requires n > 0 && |side| == n * n
    requires 0 <= i < n / 4 && 3 * n / 4 <= j < n
    ensures 0 <= n * (j - 3 * n / 4) + 3 * n / 8 + i < n * n && 0 <= n * i + j < n * n
    ensures PistonSideExtended(n, side)[n * (j - 3 * n / 4) + 3 * n / 8 + i] == side[n * i + j]
  {
    PistonBlocksFit(n);
    TransposedCell(Prefilled(n, side, n * n / 4, 3 * n * n / 4), side, n, 0, 3 * n / 4, 0, 3 * n / 8, n / 4, n - 3 * n / 4, i, j - 3 * n / 4);
    assert n * (0 + (j - 3 * n / 4)) == n * (j - 3 * n / 4);
    assert n * (0 + i) + 3 * n / 4 + (j - 3 * n / 4) == n * i + j;
  }

  /** Building the piston extension tile (tile 261, from the piston side, tile 108). */
  method BuildPistonExtension(n: int, side: seq<int>) returns (buf: array<int>)
    requires n > 0 && |side| == n * n
    ensures fresh(buf) && buf[..] == PistonExtension(n, side)
  {
    PistonBlocksFit(n);
    buf := new int[n * n](_ => 0);
    forall k | 0 <= k < n * n / 4 {
      buf[k] := side[k];
    }
    assert buf[..] == Prefilled(n, side, 0, n * n / 4);
    TransposeBlock(n, side, 0, 0, n / 4, 3 * n / 8, n / 4, 3 * n / 4, buf);
  }

  /** Building the extended piston side tile (tile 262, from tile 108). */
  method BuildPistonSideExtended(n: int, side: seq<int>) returns (buf: array<int>)
    requires n > 0 && |side| == n * n
    ensures fresh(buf) && buf[..] == PistonSideExtended(n, side)
  {
    PistonBlocksFit(n);
    buf := new int[n * n](_ => 0);
    forall k | n * n / 4 <= k < n * n / 4 + 3 * n * n / 4 {
      buf[k] := side[k];
    }
    assert buf[..] == Prefilled(n, side, n * n / 4, 3 * n * n / 4);
    TransposeBlock(n, side, 0, 3 * n / 4, 0, 3 * n / 8, n / 4, n - 3 * n / 4, buf);
  }

  // ---------------------------------------------------------------------
  // The glass pane top crossed with its own transpose, in place

  /** Rows `7n/16` up to `9n/16`: the pane's middle band. */
  predicate InBand(n: int, x: int) { n * 7 / 16 <= x < n * 9 / 16 }

  /**
   * The crossed pane top. Each band row `r` is overwritten, column by column,
   * with column `r`. Because the copy is in place, a band cell left of the
   * diagonal reads a cell its own row already rewrote, and so keeps its value.
   */
  function PaneCrossed(n: int, t: seq<int>): (r: seq<int>)
    requires n > 0 && |t| == n * n
    ensures |r| == n * n
  {
    seq(n * n, k requires 0 <= k < n * n =>
      Decode(n, k);
      if InBand(n, k / n) && !(InBand(n, k % n) && k % n < k / n) then
        (Cell(n, k % n, k / n); t[n * (k % n) + k / n])
      else t[k])
  }

  /**
   * Band row `r`, column `c`, holds the pane top's cell (c, r), except left of
   * the diagonal inside the band square, where it keeps its own; rows outside
   * the band are unchanged.
   */
  lemma PaneCrossedCell(n: int, t: seq<int>, r: int, c: int)
    requires n > 0 && |t| == n * n && 0 <= r < n && 0 <= c < n
    ensures 0 <= n * r + c < n * n && 0 <= n * c + r < n * n
    ensures PaneCrossed(n, t)[n * r + c] == if InBand(n, r) && !(InBand(n, c) && c < r) then t[n * c + r] else t[n * r + c]
  {
    Cell(n, r, c);
    Cell(n, c, r);
  }

  /** Building the crossed pane top (tile 263, from the pane top, tile 148): copy it, then the in-place band loop. */
  method BuildPaneCrossed(n: int, paneTop: seq<int>) returns (buf: array<int>)
    requires n > 0 && |paneTop| == n * n
    ensures fresh(buf) && buf[..] == PaneCrossed(n, paneTop)
  {
    buf := new int[n * n](_ => 0);
    forall k | 0 <= k < n * n {
      buf[k] := paneTop[k];
    }
    ghost var t := PaneCrossed(n, paneTop);
    assert n * 9 / 16 <= n;
    for i := n * 7 / 16 to n * 9 / 16
      invariant forall k :: 0 <= k < n * n ==>
        buf[k] == if n * 7 / 16 <= k / n < i then t[k] else paneTop[k]
    {
      for j := 0 to n
        invariant forall k :: 0 <= k < n * n ==>
          buf[k] == if n * 7 / 16 <= k / n < i || (k / n == i && k % n < j) then t[k] else paneTop[k]
      {
        Cell(n, i, j);
        Cell(n, j, i);
        buf[n * i + j] := buf[n * j + i];
        forall k | 0 <= k < n * n
          ensures buf[k] == if n * 7 / 16 <= k / n < i || (k / n == i && k % n < j + 1) then t[k] else paneTop[k]
        {
          Decode(n, k);
        }
      }
    }
    assert buf[..] == t;
  }

  // ---------------------------------------------------------------------
  // The end-portal frame with the eye, and the white tile

  /** The frame with the eye tile's centre square, rows and columns `n/4` up to `3n/4`, laid over it. */
  function FrameWithEye(n: int, frame: seq<int>, eye: seq<int>): (r: seq<int>)
    requires n > 0 && |frame| == n * n && |eye| == n * n
    ensures |r| == n * n
  {
    EyeRect(n);
    Rows(frame, eye, n / 4 * n + n / 4, n * (n / 4) + n / 4, n, n, n * 3 / 4 - n / 4, n * 3 / 4 - n / 4, false)
  }

  /** The centre square is a rectangle that fits both tiles. */
  lemma EyeRect(n: int)
    requires n > 0
    ensures var q, w := n / 4, n * 3 / 4 - n / 4;
      0 <= w && q + w <= n && (q + w) * n <= n * n
      && RowsFit(n * n, q * n + q, n, w, w) && RowsFit(n * n, n * q + q, n, w, w)
  {
    var q, w := n / 4, n * 3 / 4 - n / 4;
    MulMono(q + w, n, n);
    RectRows(n * n, n, q, q, n * n, n, q, q, w, w);
  }

  /** Cell (r, c) of the framed eye is the eye's inside the centre square. */
  lemma FrameWithEyeCentre(n: int, frame: seq<int>, eye: seq<int>, r: int, c: int)
    requires n > 0 && |frame| == n * n && |eye| == n * n
    requires n / 4 <= r < n * 3 / 4 && n / 4 <= c < n * 3 / 4
    ensures 0 <= n * r + c < n * n
    ensures FrameWithEye(n, frame, eye)[n * r + c] == eye[n * r + c]
  {
    EyeRect(n);
    var q, w := n / 4, n * 3 / 4 - n / 4;
    var i, j := r - q, c - q;
    CopiedRectangle(frame, eye, n, q, q, n, q, q, w, w, i, j);
    assert n * (q + i) + q + j == n * r + c;
    assert (i + q) * n + q + j == n * r + c;
  }

  /** Building the frame-with-eye tile (tile 264): copy the frame (tile 158), then overlay the centre square of the eye (tile 174). */
  method BuildFrameWithEye(n: int, frame: seq<int>, eye: seq<int>) returns (buf: array<int>)
    requires n > 0 && |frame| == n * n && |eye| == n * n
    ensures fresh(buf) && buf[..] == FrameWithEye(n, frame, eye)
  {
    EyeRect(n);
    buf := new int[n * n](k requires 0 <= k < n * n => frame[k]);
    assert buf[..] == frame;
    var q, w := n / 4, n * 3 / 4 - n / 4;
    RowsOutcomeFits(frame, eye, q * n + q, n * q + q, n, n, w, w, false);
    var r := CopyRows(eye, n, q, q, q, q, w, w, buf, n, false);
  }

  /** The white tile (tile 267): every pixel opaque white. */
  method BuildWhite(n: int) returns (buf: array<int>)
    requires n >= 0
    ensures fresh(buf) && buf.Length == n * n
    ensures forall k :: 0 <= k < buf.Length ==> buf[k] == OPAQUE_WHITE && IsSolid(buf[k])
  {
    buf := new int[n * n](_ => 0);
    forall k | 0 <= k < n * n {
      buf[k] := OPAQUE_WHITE;
    }
  }
}

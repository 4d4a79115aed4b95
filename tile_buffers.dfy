/**
 * The tile table of a `TexturePack` and the pixel-buffer operations that fill
 * it: growing and reading the table, copying and overlaying rectangles of a
 * loaded image, and forcing alpha to 0x00 or 0xFF in mask tiles. A pixel is a
 * Java `int` holding ARGB, alpha in the top byte.
 */
module TileBuffers {
  import opened JavaLang

  /** 2^24: a 32-bit ARGB value splits into alpha * 2^24 + the colour bits. */
  const LOW24: int := 0x100_0000

  /** `0xFF000000` read as a Java `int`. */
  const ALPHA_MASK: int := -0x100_0000

  /**
   * `(c & 0xFF000000) != 0` for a 32-bit value: its alpha byte is nonzero
   * exactly when it is negative or at least 2^24.
   */
  predicate HasAlpha(c: int) { c < 0 || c >= LOW24 }

  /** `((c >> 24) & 0xFF) == 0xFF` for a 32-bit value: the alpha byte is all ones. */
  predicate IsSolid(c: int) { ALPHA_MASK <= c < 0 }

  /** `c | 0xFF000000`: the colour bits kept, the alpha byte set to 0xFF. */
  function WithFullAlpha(c: int): (r: int)
    ensures IsSolid(r) && HasAlpha(r)
    ensures r % LOW24 == c % LOW24
  {
    c % LOW24 - LOW24
  }

  /** A value whose alpha byte is already 0xFF is its own `c | 0xFF000000`. */
  lemma WithFullAlphaOfSolid(c: int)
    requires IsSolid(c)
    ensures WithFullAlpha(c) == c
  {
    DivModUnique(c, LOW24, -1, c + LOW24);
  }

  /** One pixel of `makeAlphaPure`: any nonzero alpha becomes 0xFF. */
  function PureAlpha(c: int): (r: int)
    ensures HasAlpha(r) == HasAlpha(c)
    ensures r % LOW24 == c % LOW24
    ensures !HasAlpha(c) ==> r == c
  {
    if HasAlpha(c) then WithFullAlpha(c) else c
  }

  /** After `makeAlphaPure` every pixel's alpha is 0x00 or 0xFF, and doing it again changes nothing. */
  lemma PureAlphaIsPure(c: int)
    ensures !HasAlpha(PureAlpha(c)) || IsSolid(PureAlpha(c))
    ensures PureAlpha(PureAlpha(c)) == PureAlpha(c)
  {
    if HasAlpha(c) {
      WithFullAlphaOfSolid(WithFullAlpha(c));
    }
  }

  /** `makeAlphaPure`: every pixel with nonzero alpha gets alpha 0xFF, in place. */
  method MakeAlphaPure(argb: array<int>)
    modifies argb
    ensures forall i :: 0 <= i < argb.Length ==> argb[i] == PureAlpha(old(argb[i]))
  {
    for i := 0 to argb.Length
      invariant forall k :: 0 <= k < i ==> argb[k] == PureAlpha(old(argb[k]))
      invariant forall k :: i <= k < argb.Length ==> argb[k] == old(argb[k])
    {
      if HasAlpha(argb[i]) {
        argb[i] := WithFullAlpha(argb[i]);
      }
    }
  }

  // ---------------------------------------------------------------------
  // The tile table `tileARGB`: a growable array of tile buffers, null where unset

  type Tiles = seq<Option<seq<int>>>

  /** `Arrays.copyOf(tiles, len)`: cut to `len` entries or padded with nulls. */
  function Resized(tiles: Tiles, len: nat): (r: Tiles)
    ensures |r| == len
    ensures forall k :: 0 <= k < len && k < |tiles| ==> r[k] == tiles[k]
    ensures forall k :: |tiles| <= k < len ==> r[k] == None
  {
    if len <= |tiles| then tiles[..len] else tiles + seq(len - |tiles|, _ => None)
  }

  /** `tileARGB[idx] = buf`, which throws when `idx` lies outside the table. */
  function StoreAt(tiles: Tiles, idx: int, buf: seq<int>): (r: (Tiles, Result<()>))
    ensures r.1.Ok? <==> 0 <= idx < |tiles|
    ensures r.1.Err? ==> r.0 == tiles && r.1.error == ArrayIndexOutOfBoundsException
    ensures r.1.Ok? ==> r.0 == tiles[idx := Some(buf)]
  {
    if 0 <= idx < |tiles| then (tiles[idx := Some(buf)], Ok(())) else (tiles, Err(ArrayIndexOutOfBoundsException))
  }

  /** The length `setTileARGB` grows the table to, `3*idx/2` in `int` arithmetic. */
  function GrowthAsWritten(idx: int): int {
    JDiv(Wrap32(3 * idx), 2)
  }

  /** `setTileARGB` as written: the grown table is one entry short of `idx` when `idx` is 0 or 1. */
  function SetTileAsWritten(tiles: Tiles, idx: int, buf: seq<int>): (r: (Tiles, Result<()>))
    requires IsInt32(idx)
    ensures r.1.Ok? <==> 0 <= idx && (idx < |tiles| || idx < GrowthAsWritten(idx))
    ensures r.1.Err? ==> r.1.error == (if idx >= |tiles| && GrowthAsWritten(idx) < 0 then NegativeArraySizeException else ArrayIndexOutOfBoundsException)
    ensures r.1.Ok? ==> idx < |r.0| && r.0[idx] == Some(buf)
    ensures forall k :: 0 <= k < |r.0| && k != idx ==> r.0[k] == if k < |tiles| then tiles[k] else None
  {
    if idx >= |tiles| then
      var len := GrowthAsWritten(idx);
      if len < 0 then (tiles, Err(NegativeArraySizeException))
      else StoreAt(Resized(tiles, len), idx, buf)
    else StoreAt(tiles, idx, buf)
  }

  /** On an empty table, `setTileARGB(0, buf)` grows it to length 0 and the store throws. */
  lemma SetTileAsWrittenFailsAtZero(buf: seq<int>)
    ensures SetTileAsWritten([], 0, buf).1 == Err(ArrayIndexOutOfBoundsException)
  {
    assert GrowthAsWritten(0) == 0;
  }

  /** The length the table is grown to when `idx` is past its end: always room for `idx`. */
  function Growth(idx: int): (r: int)
    requires IsInt32(idx)
    ensures 0 <= idx <= 715827882 ==> r > idx
    ensures 2 <= idx ==> r == GrowthAsWritten(idx)
  {
    if idx < 2 then idx + 1 else GrowthAsWritten(idx)
  }

  /** `setTileARGB`, with the table grown far enough to hold `idx`. */
  function SetTile(tiles: Tiles, idx: int, buf: seq<int>): (Tiles, Result<()>)
    requires IsInt32(idx)
  {
    if idx >= |tiles| then
      var len := Growth(idx);
      if len < 0 then (tiles, Err(NegativeArraySizeException))
      else StoreAt(Resized(tiles, len), idx, buf)
    else StoreAt(tiles, idx, buf)
  }

  /** From index 2 on, the corrected growth is the written one. */
  lemma SetTileAgrees(tiles: Tiles, idx: int, buf: seq<int>)
    requires IsInt32(idx) && (idx >= 2 || idx < |tiles|)
    ensures SetTile(tiles, idx, buf) == SetTileAsWritten(tiles, idx, buf)
  {
  }

  /** `getTileARGB` as a value: the entry at `idx`, or the blank tile when it is unset or past the end. */
  function TileAt(tiles: Tiles, blank: seq<int>, idx: nat): seq<int> {
    if idx < |tiles| && tiles[idx].Some? then tiles[idx].value else blank
  }

  /**
   * Storing at any index from 0 up to where `3*idx` still fits an `int` succeeds,
   * makes `getTileARGB(idx)` return the buffer, and leaves every other tile as it read before.
   */
  lemma SetThenGet(tiles: Tiles, blank: seq<int>, idx: int, buf: seq<int>)
    requires 0 <= idx <= 715827882
    ensures SetTile(tiles, idx, buf).1 == Ok(())
    ensures TileAt(SetTile(tiles, idx, buf).0, blank, idx) == buf
    ensures forall j: nat :: j != idx ==> TileAt(SetTile(tiles, idx, buf).0, blank, j) == TileAt(tiles, blank, j)
  {
  }

  /** `getTileARGB`: reads the entry, replacing a null one by the blank tile in the table. */
  function GetTile(tiles: Tiles, blank: seq<int>, idx: int): (Tiles, Result<seq<int>>) {
    if idx < |tiles| then
      if idx < 0 then (tiles, Err(ArrayIndexOutOfBoundsException))
      else if tiles[idx].None? then (tiles[idx := Some(blank)], Ok(blank))
      else (tiles, Ok(tiles[idx].value))
    else (tiles, Ok(blank))
  }

  /** Reading a tile returns what TileAt says and changes no tile's value. */
  lemma GetTileReads(tiles: Tiles, blank: seq<int>, idx: int)
    ensures idx >= 0 <==> GetTile(tiles, blank, idx).1.Ok?
    ensures idx >= 0 ==> GetTile(tiles, blank, idx).1.value == TileAt(tiles, blank, idx)
    ensures |GetTile(tiles, blank, idx).0| == |tiles|
    ensures forall j: nat :: TileAt(GetTile(tiles, blank, idx).0, blank, j) == TileAt(tiles, blank, j)
  {
  }

  /** The pack's tile table. */
  class TileTable {
    var tiles: Tiles
    /** The shared all-zero tile returned for unset entries. */
    const blank: seq<int>

    /** A table of `count` unset entries; the blank tile holds `scale*scale` zero pixels. */
    constructor (count: nat, scale: nat)
      ensures tiles == seq(count, _ => None)
      ensures blank == seq(scale * scale, _ => 0)
    {
      tiles := seq(count, _ => None);
      blank := seq(scale * scale, _ => 0);
    }

    /** `getTileARGBCount` */
    function Count(): (r: int)
      reads this
      ensures r == |tiles|
    {
      |tiles|
    }

    /** `setTileARGB` */
    method SetTileARGB(idx: int, buf: seq<int>) returns (r: Result<()>)
      requires IsInt32(idx)
      modifies this`tiles
      ensures (tiles, r) == SetTile(old(tiles), idx, buf)
    {
      if idx >= |tiles| {
        var len := Growth(idx);
        if len < 0 {
          return Err(NegativeArraySizeException);
        }
        tiles := Resized(tiles, len);
      }
      if 0 <= idx < |tiles| {
        tiles := tiles[idx := Some(buf)];
        r := Ok(());
      } else {
        r := Err(ArrayIndexOutOfBoundsException);
      }
    }

    /** `getTileARGB` */
    method GetTileARGB(idx: int) returns (r: Result<seq<int>>)
      modifies this`tiles
      ensures (tiles, r) == GetTile(old(tiles), blank, idx)
    {
      r := Ok(blank);
      if idx < |tiles| {
        if idx < 0 {
          return Err(ArrayIndexOutOfBoundsException);
        }
        match tiles[idx]
        case None =>
          tiles := tiles[idx := Some(blank)];
        case Some(t) =>
          r := Ok(t);
      }
    }
  }

  // ---------------------------------------------------------------------
  // Rectangles of a loaded image copied into a tile buffer, row by row

  /** Each of `rows` spans of `w` cells, the first at `start` and each `stride` past the last, lies in a buffer of `len`. */
  predicate RowsFit(len: int, start: int, stride: int, w: int, rows: nat)
    decreases rows
  {
    rows == 0 || (0 <= start && 0 <= w && start + w <= len && RowsFit(len, start + stride, stride, w, rows - 1))
  }

  /** Where row `r` of a run of rows `stride` apart from `base` starts: `base + r*stride`. */
  function RowStart(base: int, stride: int, r: nat): int {
    if r == 0 then base else RowStart(base, stride, r - 1) + stride
  }

  lemma {:induction false} RowStartIs(base: int, stride: int, r: nat)
    ensures RowStart(base, stride, r) == base + r * stride
  {
    if r > 0 {
      RowStartIs(base, stride, r - 1);
      assert (r - 1) * stride + stride == r * stride;
    }
  }

  /** With a non-negative stride, every row after the first starts at least one stride on. */
  lemma {:induction false} RowStartAtLeast(base: int, stride: int, r: nat)
    requires stride >= 0 && r >= 1
    ensures RowStart(base, stride, r) >= base + stride
  {
    if r > 1 {
      RowStartAtLeast(base, stride, r - 1);
    }
  }

  /** The pixel a copy leaves where `px` is written over `under`: `px`, unless only opaque pixels are copied and `px` is not. */
  function Put(px: int, under: int, solidOnly: bool): int {
    if !solidOnly || IsSolid(px) then px else under
  }

  /** One row: the `w` source pixels from `from` written at `to`, all of them or only those with alpha 0xFF. */
  function RowOp(d: seq<int>, src: seq<int>, from: int, to: int, w: int, solidOnly: bool): (r: seq<int>)
    requires 0 <= from && 0 <= to && 0 <= w && from + w <= |src| && to + w <= |d|
    ensures |r| == |d|
  {
    seq(|d|, k requires 0 <= k < |d| =>
      if to <= k < to + w then Put(src[from + k - to], d[k], solidOnly) else d[k])
  }

  /**
   * The buffer after `copySubimageFromImage` (`solidOnly` false) or
   * `combineSubimageFromImage` (`solidOnly` true): `rows` rows, source rows
   * `sw` apart from `from`, target rows `dw` apart from `to`.
   */
  function Rows(d: seq<int>, src: seq<int>, from: int, to: int, sw: int, dw: int, w: int, rows: nat, solidOnly: bool): (r: seq<int>)
    requires RowsFit(|src|, from, sw, w, rows) && RowsFit(|d|, to, dw, w, rows)
    ensures |r| == |d|
    decreases rows
  {
    if rows == 0 then d
    else Rows(RowOp(d, src, from, to, w, solidOnly), src, from + sw, to + dw, sw, dw, w, rows - 1, solidOnly)
  }

  /** Everything before the first target row is left alone. */
  lemma {:induction false} RowsKeepBefore(d: seq<int>, src: seq<int>, from: int, to: int, sw: int, dw: int, w: int, rows: nat, solidOnly: bool, k: int)
    requires RowsFit(|src|, from, sw, w, rows) && RowsFit(|d|, to, dw, w, rows)
    requires 0 <= dw && 0 <= k < to && k < |d|
    ensures Rows(d, src, from, to, sw, dw, w, rows, solidOnly)[k] == d[k]
    decreases rows
  {
    if rows > 0 {
      RowsKeepBefore(RowOp(d, src, from, to, w, solidOnly), src, from + sw, to + dw, sw, dw, w, rows - 1, solidOnly, k);
    }
  }

  /**
   * Cell `c` of target row `r` receives cell `c` of source row `r` (when the
   * copy is unconditional or that pixel is opaque), given rows that do not overlap.
   */
  lemma {:induction false} RowsCell(d: seq<int>, src: seq<int>, from: int, to: int, sw: int, dw: int, w: int, rows: nat, solidOnly: bool, r: nat, c: int)
    requires RowsFit(|src|, from, sw, w, rows) && RowsFit(|d|, to, dw, w, rows)
    requires w <= dw && r < rows && 0 <= c < w
    ensures 0 <= RowStart(to, dw, r) + c < |d| && 0 <= RowStart(from, sw, r) + c < |src|
    ensures var out := Rows(d, src, from, to, sw, dw, w, rows, solidOnly);
      var px := src[RowStart(from, sw, r) + c];
      out[RowStart(to, dw, r) + c] == Put(px, d[RowStart(to, dw, r) + c], solidOnly)
    decreases rows
  {
    RowInside(|d|, to, dw, w, rows, r);
    RowInside(|src|, from, sw, w, rows, r);
    var d1 := RowOp(d, src, from, to, w, solidOnly);
    if r == 0 {
      if rows > 1 {
        RowsKeepBefore(d1, src, from + sw, to + dw, sw, dw, w, rows - 1, solidOnly, to + c);
      }
    } else {
      RowsCell(d1, src, from + sw, to + dw, sw, dw, w, rows - 1, solidOnly, r - 1, c);
      RowStartShift(to, dw, r);
      RowStartShift(from, sw, r);
      RowStartAtLeast(to, dw, r);
    }
  }

  /** Row `r` of a run of rows that fit lies inside the buffer. */
  lemma {:induction false} RowInside(len: int, start: int, stride: int, w: int, rows: nat, r: nat)
    requires RowsFit(len, start, stride, w, rows) && r < rows
    ensures 0 <= RowStart(start, stride, r) && RowStart(start, stride, r) + w <= len
    decreases rows
  {
    if r > 0 {
      RowInside(len, start + stride, stride, w, rows - 1, r - 1);
      RowStartShift(start, stride, r);
    }
  }

  /** Row `r` from `base` is row `r - 1` from the next row. */
  lemma {:induction false} RowStartShift(base: int, stride: int, r: nat)
    requires r >= 1
    ensures RowStart(base + stride, stride, r - 1) == RowStart(base, stride, r)
  {
    if r > 1 {
      RowStartShift(base, stride, r - 1);
    }
  }

  /** Cells between the rectangle's rows (columns `w` to `dw` of each row stride) are left alone. */
  lemma {:induction false} RowsKeepGap(d: seq<int>, src: seq<int>, from: int, to: int, sw: int, dw: int, w: int, rows: nat, solidOnly: bool, r: nat, c: int)
    requires RowsFit(|src|, from, sw, w, rows) && RowsFit(|d|, to, dw, w, rows)
    requires r < rows && w <= c < dw && 0 <= RowStart(to, dw, r) + c < |d|
    ensures Rows(d, src, from, to, sw, dw, w, rows, solidOnly)[RowStart(to, dw, r) + c] == d[RowStart(to, dw, r) + c]
    decreases rows
  {
    var d1 := RowOp(d, src, from, to, w, solidOnly);
    if r == 0 {
      if rows > 1 {
        RowsKeepBefore(d1, src, from + sw, to + dw, sw, dw, w, rows - 1, solidOnly, to + c);
      }
    } else {
      RowStartShift(to, dw, r);
      RowStartAtLeast(to, dw, r);
      RowsKeepGap(d1, src, from + sw, to + dw, sw, dw, w, rows - 1, solidOnly, r - 1, c);
    }
  }

  /** Everything at or after the end of the last row's stride is left alone. */
  lemma {:induction false} RowsKeepAfter(d: seq<int>, src: seq<int>, from: int, to: int, sw: int, dw: int, w: int, rows: nat, solidOnly: bool, k: int)
    requires RowsFit(|src|, from, sw, w, rows) && RowsFit(|d|, to, dw, w, rows)
    requires w <= dw && 0 <= k < |d| && k >= RowStart(to, dw, rows)
    ensures Rows(d, src, from, to, sw, dw, w, rows, solidOnly)[k] == d[k]
    decreases rows
  {
    if rows > 0 {
      RowStartShift(to, dw, rows);
      RowStartAtLeast(to, dw, rows);
      RowsKeepAfter(RowOp(d, src, from, to, w, solidOnly), src, from + sw, to + dw, sw, dw, w, rows - 1, solidOnly, k);
    }
  }

  /** The first `w` pixels of each source row from `from` on are opaque. */
  predicate SolidRows(src: seq<int>, from: int, sw: int, w: int, rows: nat)
    decreases rows
  {
    rows == 0 || ((forall k :: from <= k < from + w && 0 <= k < |src| ==> IsSolid(src[k])) && SolidRows(src, from + sw, sw, w, rows - 1))
  }

  /** Over a fully opaque source rectangle the overlay is the plain copy. */
  lemma {:induction false} CombineOfSolidIsCopy(d: seq<int>, src: seq<int>, from: int, to: int, sw: int, dw: int, w: int, rows: nat)
    requires RowsFit(|src|, from, sw, w, rows) && RowsFit(|d|, to, dw, w, rows)
    requires SolidRows(src, from, sw, w, rows)
    ensures Rows(d, src, from, to, sw, dw, w, rows, true) == Rows(d, src, from, to, sw, dw, w, rows, false)
    decreases rows
  {
    if rows > 0 {
      assert RowOp(d, src, from, to, w, true) == RowOp(d, src, from, to, w, false);
      CombineOfSolidIsCopy(RowOp(d, src, from, to, w, false), src, from + sw, to + dw, sw, dw, w, rows - 1);
    }
  }

  /** Copying the same rows onto their own result changes nothing. */
  lemma {:induction false} CopyIdempotent(d: seq<int>, src: seq<int>, from: int, to: int, sw: int, dw: int, w: int, rows: nat)
    requires RowsFit(|src|, from, sw, w, rows) && RowsFit(|d|, to, dw, w, rows)
    requires 0 <= w <= dw
    ensures var once := Rows(d, src, from, to, sw, dw, w, rows, false);
      Rows(once, src, from, to, sw, dw, w, rows, false) == once
    decreases rows
  {
    if rows > 0 {
      var d1 := RowOp(d, src, from, to, w, false);
      var once := Rows(d1, src, from + sw, to + dw, sw, dw, w, rows - 1, false);
      forall k | 0 <= k < |once|
        ensures RowOp(once, src, from, to, w, false)[k] == once[k]
      {
        if to <= k < to + w && rows > 1 {
          RowsKeepBefore(d1, src, from + sw, to + dw, sw, dw, w, rows - 1, false, k);
        }
      }
      assert RowOp(once, src, from, to, w, false) == once;
      CopyIdempotent(d1, src, from + sw, to + dw, sw, dw, w, rows - 1);
    }
  }

  /**
   * The same in the source's own terms: after `copySubimageFromImage`, target
   * cell (ty+r, tx+c) of the `dw`-wide buffer holds image pixel (fy+r, fx+c) of
   * the `sw`-wide image for every cell of the `w` by `h` rectangle.
   */
  lemma CopiedRectangle(d: seq<int>, src: seq<int>, sw: int, fx: int, fy: int, dw: int, tx: int, ty: int, w: int, h: nat, r: nat, c: int)
    requires 0 <= fx && 0 <= fy && 0 <= tx && 0 <= ty && 0 <= w
    requires fx + w <= sw && (fy + h) * sw <= |src| && tx + w <= dw && (ty + h) * dw <= |d|
    requires r < h && 0 <= c < w
    ensures RowsFit(|src|, fy * sw + fx, sw, w, h) && RowsFit(|d|, dw * ty + tx, dw, w, h)
    ensures 0 <= dw * (ty + r) + tx + c < |d| && 0 <= (r + fy) * sw + fx + c < |src|
    ensures Rows(d, src, fy * sw + fx, dw * ty + tx, sw, dw, w, h, false)[dw * (ty + r) + tx + c] == src[(r + fy) * sw + fx + c]
  {
    RectRows(|src|, sw, fx, fy, |d|, dw, tx, ty, w, h);
    RowsCell(d, src, fy * sw + fx, dw * ty + tx, sw, dw, w, h, false, r, c);
    RowStartIs(dw * ty + tx, dw, r);
    RowStartIs(fy * sw + fx, sw, r);
    assert dw * ty + tx + r * dw == dw * (ty + r) + tx;
    assert fy * sw + fx + r * sw == (r + fy) * sw + fx;
  }

  /** A rectangle given by its corners in images of widths `sw` and `dw` is a run of rows that fit, on both sides. */
  lemma RectRows(srcLen: int, sw: int, fx: int, fy: int, destLen: int, dw: int, tx: int, ty: int, w: int, h: nat)
    requires 0 <= fx && 0 <= fy && 0 <= tx && 0 <= ty && 0 <= w
    requires fx + w <= sw && (fy + h) * sw <= srcLen && tx + w <= dw && (ty + h) * dw <= destLen
    ensures RowsFit(srcLen, fy * sw + fx, sw, w, h) && RowsFit(destLen, dw * ty + tx, dw, w, h)
  {
    RowsFitOf(srcLen, fy, sw, fx, w, h);
    RowsFitOf(destLen, ty, dw, tx, w, h);
    assert dw * ty == ty * dw;
  }

  lemma {:induction false} RowsFitOf(len: int, first: int, stride: int, x: int, w: int, rows: nat)
    requires 0 <= first && 0 <= x && 0 <= w && x + w <= stride && (first + rows) * stride <= len
    ensures RowsFit(len, first * stride + x, stride, w, rows)
    decreases rows
  {
    if rows > 0 {
      RowSpan(stride, first, rows, len);
      assert (first + 1) * stride == first * stride + stride;
      assert (first + 1 + (rows - 1)) * stride == (first + rows) * stride;
      RowsFitOf(len, first + 1, stride, x, w, rows - 1);
    }
  }

  /** The first of `h` rows of width `width` starting at row `first` ends inside a buffer of `len`. */
  lemma RowSpan(width: int, first: int, h: int, len: int)
    requires 0 <= width && 0 <= first && 0 < h && (first + h) * width <= len
    ensures 0 <= first * width && first * width + width <= len
  {
    assert first * width + width == (first + 1) * width;
    MulMono(first + 1, first + h, width);
    MulMono(0, first, width);
  }

  lemma MulMono(a: int, b: int, c: int)
    requires a <= b && 0 <= c
    ensures a * c <= b * c
  {
    assert b * c - a * c == (b - a) * c;
  }

  // ---------------------------------------------------------------------
  // The copies over any rectangle: an index past either buffer throws part way

  /** The buffer a copy leaves, and whether an ArrayIndexOutOfBoundsException stopped it. */
  datatype Copied = Copied(buf: seq<int>, thrown: bool)

  /** Row `w` cells long at `start` lies inside a buffer of `len`. */
  predicate RowFits(len: int, start: int, w: int) {
    0 <= start && 0 <= w && start + w <= len
  }

  /**
   * One row of `copySubimageFromImage`: `System.arraycopy` checks both ends
   * and the length before it writes, so a row that does not fit throws and
   * writes nothing.
   */
  function CopyRowOutcome(d: seq<int>, src: seq<int>, from: int, to: int, w: int): (r: Copied)
    ensures |r.buf| == |d|
  {
    if RowFits(|src|, from, w) && RowFits(|d|, to, w) then Copied(RowOp(d, src, from, to, w, false), false)
    else Copied(d, true)
  }

  /**
   * The inner loop of `combineSubimageFromImage` from column `c`: each source
   * pixel is read, and an opaque one written, in turn, so an index past the
   * image, or past the buffer for an opaque pixel, throws after the earlier
   * cells of the row are written.
   */
  function CombineCells(d: seq<int>, src: seq<int>, from: int, to: int, w: int, c: int): (r: Copied)
    ensures |r.buf| == |d|
    decreases w - c
  {
    if c >= w then Copied(d, false)
    else if !(0 <= from + c < |src|) then Copied(d, true)
    else if !IsSolid(src[from + c]) then CombineCells(d, src, from, to, w, c + 1)
    else if !(0 <= to + c < |d|) then Copied(d, true)
    else CombineCells(d[to + c := src[from + c]], src, from, to, w, c + 1)
  }

  function RowOutcome(d: seq<int>, src: seq<int>, from: int, to: int, w: int, solidOnly: bool): (r: Copied)
    ensures |r.buf| == |d|
  {
    if solidOnly then CombineCells(d, src, from, to, w, 0) else CopyRowOutcome(d, src, from, to, w)
  }

  /**
   * `copySubimageFromImage` (`solidOnly` false) or `combineSubimageFromImage`
   * (`solidOnly` true) over any rectangle: `rows` rows (none when it is not
   * positive), stopping at the first row that throws with what was written
   * so far.
   */
  function RowsOutcome(d: seq<int>, src: seq<int>, from: int, to: int, sw: int, dw: int, w: int, rows: int, solidOnly: bool): (r: Copied)
    ensures |r.buf| == |d|
    decreases rows
  {
    if rows <= 0 then Copied(d, false)
    else
      var o := RowOutcome(d, src, from, to, w, solidOnly);
      if o.thrown then o else RowsOutcome(o.buf, src, from + sw, to + dw, sw, dw, w, rows - 1, solidOnly)
  }

  /** Over a row that fits on both sides, the overlay's loop from column `c` is the rest of the row at once. */
  lemma {:induction false} CombineRowFits(d: seq<int>, src: seq<int>, from: int, to: int, w: int, c: int)
    requires RowFits(|src|, from, w) && RowFits(|d|, to, w) && 0 <= c <= w
    ensures CombineCells(d, src, from, to, w, c) == Copied(RowOp(d, src, from + c, to + c, w - c, true), false)
    decreases w - c
  {
    if c < w {
      var d1 := if IsSolid(src[from + c]) then d[to + c := src[from + c]] else d;
      CombineRowFits(d1, src, from, to, w, c + 1);
      assert RowOp(d1, src, from + c + 1, to + c + 1, w - c - 1, true) == RowOp(d, src, from + c, to + c, w - c, true);
    } else {
      assert RowOp(d, src, from + c, to + c, w - c, true) == d;
    }
  }

  /** Rows that all fit are copied whole, with no exception: the outcome is `Rows`. */
  lemma {:induction false} RowsOutcomeFits(d: seq<int>, src: seq<int>, from: int, to: int, sw: int, dw: int, w: int, rows: nat, solidOnly: bool)
    requires RowsFit(|src|, from, sw, w, rows) && RowsFit(|d|, to, dw, w, rows)
    ensures RowsOutcome(d, src, from, to, sw, dw, w, rows, solidOnly) == Copied(Rows(d, src, from, to, sw, dw, w, rows, solidOnly), false)
    decreases rows
  {
    if rows > 0 {
      if solidOnly {
        CombineRowFits(d, src, from, to, w, 0);
      }
      RowsOutcomeFits(RowOp(d, src, from, to, w, solidOnly), src, from + sw, to + dw, sw, dw, w, rows - 1, solidOnly);
    }
  }

  /**
   * A copy whose first `k` rows fit and whose row `k` does not stops there:
   * the buffer holds the first `k` rows, as `Rows` has them, and nothing of
   * the rest, and the copy throws.
   */
  lemma {:induction false} CopyStopsAtFirstBadRow(d: seq<int>, src: seq<int>, from: int, to: int, sw: int, dw: int, w: int, rows: int, k: nat)
    requires k < rows
    requires RowsFit(|src|, from, sw, w, k) && RowsFit(|d|, to, dw, w, k)
    requires !(RowFits(|src|, RowStart(from, sw, k), w) && RowFits(|d|, RowStart(to, dw, k), w))
    ensures RowsOutcome(d, src, from, to, sw, dw, w, rows, false) == Copied(Rows(d, src, from, to, sw, dw, w, k, false), true)
    decreases k
  {
    if k > 0 {
      RowStartShift(from, sw, k);
      RowStartShift(to, dw, k);
      CopyStopsAtFirstBadRow(RowOp(d, src, from, to, w, false), src, from + sw, to + dw, sw, dw, w, rows - 1, k - 1);
    }
  }

  /** The cells of the overlay's row where it throws: a pixel past the image, or an opaque one past the buffer. */
  predicate BadCell(src: seq<int>, len: int, from: int, to: int, c: int) {
    !(0 <= from + c < |src|) || (IsSolid(src[from + c]) && !(0 <= to + c < len))
  }

  /** The overlay's row throws exactly when one of its cells from `c` on is bad; the pixels it writes do not move that. */
  lemma {:induction false} CombineThrowsIff(d: seq<int>, src: seq<int>, from: int, to: int, w: int, c: int)
    ensures CombineCells(d, src, from, to, w, c).thrown <==> exists j :: c <= j < w && BadCell(src, |d|, from, to, j)
    decreases w - c
  {
    if c < w && !BadCell(src, |d|, from, to, c) {
      var d1 := if IsSolid(src[from + c]) then d[to + c := src[from + c]] else d;
      assert CombineCells(d, src, from, to, w, c) == CombineCells(d1, src, from, to, w, c + 1);
      CombineThrowsIff(d1, src, from, to, w, c + 1);
      if exists j :: c <= j < w && BadCell(src, |d|, from, to, j) {
        var j :| c <= j < w && BadCell(src, |d|, from, to, j);
        assert c + 1 <= j;
      }
    }
  }

  /**
   * `copySubimageFromImage` (`solidOnly` false) and `combineSubimageFromImage`
   * (`solidOnly` true) on the rectangle at (`fx`, `fy`) of an image `sw`
   * wide, to (`tx`, `ty`) of a buffer `dw` wide. Any rectangle is taken: a
   * row wider than the image runs on into the next image row, and an index
   * past either buffer throws ArrayIndexOutOfBoundsException with the rows
   * (and, in an overlay, the cells) before it already written.
   */
  method CopyRows(src: seq<int>, sw: int, fx: int, fy: int, tx: int, ty: int, w: int, h: int, dest: array<int>, dw: int, solidOnly: bool)
    returns (r: Result<()>)
    modifies dest
    ensures var o := RowsOutcome(old(dest[..]), src, fy * sw + fx, dw * ty + tx, sw, dw, w, h, solidOnly);
      dest[..] == o.buf && r == (if o.thrown then Err(ArrayIndexOutOfBoundsException) else Ok(()))
  {
    var from, to := fy * sw + fx, dw * ty + tx;
    var left := h;
    while left > 0
      invariant RowsOutcome(dest[..], src, from, to, sw, dw, w, left, solidOnly) ==
                RowsOutcome(old(dest[..]), src, fy * sw + fx, dw * ty + tx, sw, dw, w, h, solidOnly)
    {
      var thrown := CopyRow(src, from, to, w, dest, solidOnly);
      if thrown {
        return Err(ArrayIndexOutOfBoundsException);
      }
      from, to, left := from + sw, to + dw, left - 1;
    }
    r := Ok(());
  }

  /** One row of CopyRows: `System.arraycopy`, or the overlay's inner loop. */
  method CopyRow(src: seq<int>, from: int, to: int, w: int, dest: array<int>, solidOnly: bool) returns (thrown: bool)
    modifies dest
    ensures var o := RowOutcome(old(dest[..]), src, from, to, w, solidOnly);
      dest[..] == o.buf && thrown == o.thrown
  {
    if !solidOnly {
      if !(RowFits(|src|, from, w) && RowFits(dest.Length, to, w)) {
        return true;
      }
      forall c | 0 <= c < w {
        dest[to + c] := src[from + c];
      }
      assert forall k :: 0 <= k < dest.Length ==> dest[k] == RowOp(old(dest[..]), src, from, to, w, false)[k];
      return false;
    }
    var c := 0;
    while c < w
      invariant 0 <= c
      invariant CombineCells(dest[..], src, from, to, w, c) == CombineCells(old(dest[..]), src, from, to, w, 0)
      decreases w - c
    {
      if !(0 <= from + c < |src|) {
        return true;
      }
      if IsSolid(src[from + c]) {
        if !(0 <= to + c < dest.Length) {
          return true;
        }
        dest[to + c] := src[from + c];
      }
      c := c + 1;
    }
    return false;
  }
}

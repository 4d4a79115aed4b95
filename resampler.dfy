/**
 * The integer part of `scaleTerrainPNGSubImage`, which resamples a square tile
 * `sourceScale` pixels a side into one `destScale` pixels a side.
 *
 * Along one axis both tiles are laid on a line of `sourceScale * destScale`
 * units. When the scales differ, the coarser grid has `s` cells of `d` units
 * and the finer grid `d` cells of `s` units (`s < d`). For every fine cell
 * `idx`, spanning units `[idx*s, idx*s + s)`, the tables record the coarse
 * cell it starts in (`offsets`) and how many of its units fall there
 * (`weights`); the rest fall in the next coarse cell. Upscaling reads source
 * pixels through these tables, downscaling accumulates into target pixels
 * through them. The averaging of colours is floating point and is not part of
 * this model.
 */
module Resampler {
  import opened JavaLang

  /** The coarse cell in which fine cell `idx` starts: `(idx*s) / d`. */
  function Offset(s: int, d: int, idx: int): int
    requires d > 0
  {
    idx * s / d
  }

  /** The units of fine cell `idx` that fall in its first coarse cell: all `s` of them, or the part up to that cell's end. */
  function Weight(s: int, d: int, idx: int): int
    requires d > 0
  {
    var v := idx * s;
    var off := v / d;
    if (v + s - 1) / d == off then s else off * d + d - v
  }

  /**
   * The tables describe a true covering: fine cell `idx` starts inside coarse
   * cell `off < s`, its first `w` units lie in that cell, and when `w < s` the
   * first part ends exactly at that cell's end and the remaining `s - w` units
   * lie in cell `off + 1`, which still exists.
   */
  lemma TableEntry(s: int, d: int, idx: int)
    requires 0 < s <= d && 0 <= idx < d
    ensures var v, off, w := idx * s, Offset(s, d, idx), Weight(s, d, idx);
      0 <= off < s && 1 <= w <= s
      && off * d <= v && v + w <= (off + 1) * d
      && (w < s ==> v + w == (off + 1) * d && off + 1 < s && v + s <= (off + 2) * d)
  {
    var v := idx * s;
    MulNonNeg(idx, s);
    MulMonoLeft(idx + 1, d, s);
    assert v + s == (idx + 1) * s;
    var off, rem := v / d, v % d;
    var q2, rem2 := (v + s - 1) / d, (v + s - 1) % d;
    Covering(s, d, v, off, rem, q2, rem2);
    assert Offset(s, d, idx) == off;
    assert Weight(s, d, idx) == if q2 == off then s else off * d + d - v;
  }

  /** The arithmetic of TableEntry, with both divisions by `d` written out as quotient and remainder. */
  lemma Covering(s: int, d: int, v: int, off: int, rem: int, q2: int, rem2: int)
    requires 0 < s <= d && 0 <= v && v + s <= d * s
    requires v == off * d + rem && 0 <= rem < d
    requires v + s - 1 == q2 * d + rem2 && 0 <= rem2 < d
    ensures 0 <= off < s && off * d <= v
    ensures q2 == off ==> v + s <= (off + 1) * d
    ensures q2 != off ==> var w := off * d + d - v;
      1 <= w < s && off + 1 < s && v + s <= (off + 2) * d
  {
    if off < 0 {
      MulMonoLeft(off, -1, d);
      assert false;
    }
    if off >= s {
      MulMonoLeft(s, off, d);
      assert false;
    }
    if q2 != off {
      if q2 < off {
        MulMonoLeft(q2 + 1, off, d);
        assert false;
      }
      MulMonoLeft(off + 1, q2, d);
      if off + 1 >= s {
        MulMonoLeft(s, off + 1, d);
        assert false;
      }
    }
  }

  /**
   * Every read of upscaling and every write of downscaling is in bounds: cell
   * (Offset(y) + yy, Offset(x) + xx) of the `s` by `s` grid, where a second cell
   * (`yy` or `xx` equal to 1) is only touched when its weight `s - Weight` is
   * not zero.
   */
  lemma PairInGrid(s: int, d: int, y: int, x: int, yy: int, xx: int)
    requires 0 < s <= d && 0 <= y < d && 0 <= x < d
    requires 0 <= yy <= 1 && 0 <= xx <= 1
    requires yy == 1 ==> s - Weight(s, d, y) != 0
    requires xx == 1 ==> s - Weight(s, d, x) != 0
    ensures 0 <= (Offset(s, d, y) + yy) * s + Offset(s, d, x) + xx < s * s
  {
    TableEntry(s, d, y);
    TableEntry(s, d, x);
    var row, col := Offset(s, d, y) + yy, Offset(s, d, x) + xx;
    assert 0 <= row < s && 0 <= col < s;
    GridIndex(s, row, col);
  }

  lemma GridIndex(s: int, row: int, col: int)
    requires 0 <= row < s && 0 <= col < s
    ensures 0 <= row * s + col < s * s
  {
    MulNonNeg(row, s);
    MulMonoLeft(row + 1, s, s);
  }

  /** The offset and weight tables of one axis, as the loop over `v = 0, s, 2s, ...` below `d*s` fills them. */
  method BuildTables(s: int, d: int) returns (offsets: array<int>, weights: array<int>)
    requires 0 < s <= d
    ensures fresh(offsets) && fresh(weights) && offsets.Length == d && weights.Length == d
    ensures forall idx :: 0 <= idx < d ==> offsets[idx] == Offset(s, d, idx) && weights[idx] == Weight(s, d, idx)
  {
    offsets := new int[d];
    weights := new int[d];
    var v, idx := 0, 0;
    while v < d * s
      invariant 0 <= idx <= d && v == idx * s
      invariant forall i :: 0 <= i < idx ==> offsets[i] == Offset(s, d, i) && weights[i] == Weight(s, d, i)
      decreases d - idx
    {
      if idx >= d {
        MulMonoLeft(d, idx, s);
        assert false;
      }
      offsets[idx] := v / d;
      if (v + s - 1) / d == offsets[idx] {
        weights[idx] := s;
      } else {
        weights[idx] := offsets[idx] * d + d - v;
      }
      assert offsets[idx] == Offset(s, d, idx) && weights[idx] == Weight(s, d, idx);
      assert v + s == (idx + 1) * s;
      v, idx := v + s, idx + 1;
    }
    if idx < d {
      MulMonoLeft(idx + 1, d, s);
      assert false;
    }
  }

  /**
   * The tables `scaleTerrainPNGSubImage` builds for two different scales:
   * indexed by target pixel when enlarging (source cells are the coarse
   * ones), by source pixel when shrinking (target cells are the coarse ones).
   */
  method ScaleTables(sourceScale: int, destScale: int) returns (offsets: array<int>, weights: array<int>)
    requires 0 < sourceScale && 0 < destScale && sourceScale != destScale
    ensures fresh(offsets) && fresh(weights)
    ensures var s, d := Min(sourceScale, destScale), Max(sourceScale, destScale);
      offsets.Length == d && weights.Length == d
      && forall idx :: 0 <= idx < d ==> offsets[idx] == Offset(s, d, idx) && weights[idx] == Weight(s, d, idx)
  {
    if destScale > sourceScale {
      offsets, weights := BuildTables(sourceScale, destScale);
    } else {
      offsets, weights := BuildTables(destScale, sourceScale);
    }
  }

  /**
   * The equal-scale branch: `System.arraycopy(src, 0, dest, 0, dest.length)`,
   * which copies the first `dest.Length` pixels or, when `src` is shorter,
   * throws before writing anything.
   */
  method CopySameScale(src: array<int>, dest: array<int>) returns (r: Result<()>)
    modifies dest
    ensures src.Length >= dest.Length ==> r == Ok(()) && dest[..] == old(src[..dest.Length])
    ensures src.Length < dest.Length ==> r == Err(ArrayIndexOutOfBoundsException) && dest[..] == old(dest[..])
  {
    if src.Length < dest.Length {
      return Err(ArrayIndexOutOfBoundsException);
    }
    forall k | 0 <= k < dest.Length {
      dest[k] := src[k];
    }
    r := Ok(());
  }

  function Min(a: int, b: int): int { if a < b then a else b }

  function Max(a: int, b: int): int { if a < b then b else a }

  lemma MulNonNeg(a: int, b: int)
    requires 0 <= a && 0 <= b
    ensures 0 <= a * b
  {
  }

  lemma MulMonoLeft(a: int, b: int, c: int)
    requires a <= b && 0 <= c
    ensures a * c <= b * c
  {
    assert b * c - a * c == (b - a) * c;
  }
}

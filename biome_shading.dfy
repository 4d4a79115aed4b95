/**
 * Trivial-colour detection for a biome-shading image (`loadBiomeShadingImage`).
 * The colour at flat index `h*w*3/4 + w/2` is taken as the candidate; the
 * lower-left triangle of the image (row `j`, columns `0..j`) is scanned row by
 * row, stopping at the first pixel that differs. When none differs the image
 * needs no biome lookup and its trivial colour is the candidate; otherwise the
 * trivial colour is an average of the lower-left quadrant, which is floating
 * point and left abstract here. The image is the one left after rescaling to
 * 256 pixels wide, `w` wide and `h` high, row-major.
 */
module BiomeShading {
  import opened JavaLang

  /** The flat index of row `j`, column `i`. */
  function At(w: nat, j: nat, i: nat): nat {
    w * j + i
  }

  /** The flat index of the candidate colour. */
  function ProbeIndex(w: nat, h: nat): nat {
    h * w * 3 / 4 + w / 2
  }

  /** What `trivial_color` becomes: the uniform colour, or the (unmodelled) quadrant average. */
  datatype TrivialColour = Uniform(argb: int) | Averaged

  /**
   * The scan from row `j`, column `i` on, in the loop's order: `Ok(true)` when
   * every remaining triangle pixel equals `clr`, `Ok(false)` at the first that
   * does not, and an index error when a pixel it reaches lies past the end.
   */
  function ScanFrom(argb: seq<int>, w: nat, h: nat, clr: int, j: nat, i: nat): Result<bool>
    decreases h - j, j + 1 - i
  {
    if j >= h then Ok(true)
    else if i > j then ScanFrom(argb, w, h, clr, j + 1, 0)
    else if At(w, j, i) >= |argb| then Err(ArrayIndexOutOfBoundsException)
    else if argb[At(w, j, i)] != clr then Ok(false)
    else ScanFrom(argb, w, h, clr, j, i + 1)
  }

  /** Cell (j2, i2) is in the triangle and at or after (j, i) in scan order. */
  predicate Remaining(h: nat, j: nat, i: nat, j2: nat, i2: nat) {
    i2 <= j2 < h && (j2 > j || (j2 == j && i2 >= i))
  }

  /** Every remaining triangle pixel exists and equals `clr`. */
  ghost predicate UniformFrom(argb: seq<int>, w: nat, h: nat, clr: int, j: nat, i: nat) {
    forall j2: nat, i2: nat :: Remaining(h, j, i, j2, i2) ==> At(w, j2, i2) < |argb| && argb[At(w, j2, i2)] == clr
  }

  /**
   * The scan answers exactly the question it stands for: `Ok(true)` iff every
   * remaining pixel is `clr`; `Ok(false)` only when some remaining pixel in
   * range differs; an error only when some remaining pixel is out of range.
   */
  lemma {:induction false} ScanFromMeaning(argb: seq<int>, w: nat, h: nat, clr: int, j: nat, i: nat)
    ensures ScanFrom(argb, w, h, clr, j, i) == Ok(true) <==> UniformFrom(argb, w, h, clr, j, i)
    ensures ScanFrom(argb, w, h, clr, j, i) == Ok(false) ==>
      exists j2: nat, i2: nat :: Remaining(h, j, i, j2, i2) && At(w, j2, i2) < |argb| && argb[At(w, j2, i2)] != clr
    ensures ScanFrom(argb, w, h, clr, j, i).Err? ==>
      exists j2: nat, i2: nat :: Remaining(h, j, i, j2, i2) && At(w, j2, i2) >= |argb|
    decreases h - j, j + 1 - i
  {
    if j >= h {
    } else if i > j {
      ScanFromMeaning(argb, w, h, clr, j + 1, 0);
      assert forall j2: nat, i2: nat :: Remaining(h, j, i, j2, i2) <==> Remaining(h, j + 1, 0, j2, i2);
    } else if At(w, j, i) >= |argb| {
      assert Remaining(h, j, i, j, i);
    } else if argb[At(w, j, i)] != clr {
      assert Remaining(h, j, i, j, i);
    } else {
      ScanFromMeaning(argb, w, h, clr, j, i + 1);
      assert forall j2: nat, i2: nat :: Remaining(h, j, i, j2, i2) <==> (j2 == j && i2 == i) || Remaining(h, j, i + 1, j2, i2);
    }
  }

  /** What the detection yields for an image: an index error when the probe or a scanned pixel is out of range. */
  function Detect(argb: seq<int>, w: nat, h: nat): Result<TrivialColour> {
    var p := ProbeIndex(w, h);
    if p >= |argb| then Err(ArrayIndexOutOfBoundsException)
    else match ScanFrom(argb, w, h, argb[p], 0, 0)
      case Err(e) => Err(e)
      case Ok(same) => Ok(if same then Uniform(argb[p]) else Averaged)
  }

  /** The trivial colour is `c` exactly when the probe pixel is `c` and the whole lower-left triangle is `c`. */
  lemma DetectUniform(argb: seq<int>, w: nat, h: nat, c: int)
    ensures Detect(argb, w, h) == Ok(Uniform(c)) <==>
      ProbeIndex(w, h) < |argb| && argb[ProbeIndex(w, h)] == c && UniformFrom(argb, w, h, c, 0, 0)
  {
    var p := ProbeIndex(w, h);
    if p < |argb| {
      ScanFromMeaning(argb, w, h, argb[p], 0, 0);
    }
  }

  /** The detection loop of `loadBiomeShadingImage`. */
  method DetectTrivialColour(argb: array<int>, w: nat, h: nat) returns (r: Result<TrivialColour>)
    ensures r == Detect(argb[..], w, h)
  {
    var p := ProbeIndex(w, h);
    if p >= argb.Length {
      return Err(ArrayIndexOutOfBoundsException);
    }
    var clr := argb[p];
    var same := true;
    var j := 0;
    while same && j < h
      invariant 0 <= j <= h
      invariant same ==> ScanFrom(argb[..], w, h, clr, j, 0) == ScanFrom(argb[..], w, h, clr, 0, 0)
      invariant !same ==> ScanFrom(argb[..], w, h, clr, 0, 0) == Ok(false)
    {
      var i := 0;
      while same && i <= j
        invariant 0 <= i <= j + 1
        invariant same ==> ScanFrom(argb[..], w, h, clr, j, i) == ScanFrom(argb[..], w, h, clr, 0, 0)
        invariant !same ==> ScanFrom(argb[..], w, h, clr, 0, 0) == Ok(false)
      {
        if At(w, j, i) >= argb.Length {
          return Err(ArrayIndexOutOfBoundsException);
        }
        if argb[At(w, j, i)] != clr {
          same := false;
        }
        i := i + 1;
      }
      j := j + 1;
    }
    r := Ok(if same then Uniform(clr) else Averaged);
  }
}

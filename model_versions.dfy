/**
 * Version constraints of model definition files: `[1.12-1.14]` line
 * prefixes, `version:` lines and `modname:` ranges. A version string is
 * normalised to digits and dots, read as up to six numeric components
 * weighted by 10^10, 10^8, ..., 1, and compared against the bounds of a
 * "low-high" range, where an empty side is unbounded and a missing
 * component of an upper bound counts as 99.
 */
module ModelVersions {
  import opened JavaLang

  /** The characters `normalizeVersion` keeps. */
  predicate VersionChar(c: char) { c == '.' || IsDigit(c) }

  predicate Clean(s: string) { forall i :: 0 <= i < |s| ==> VersionChar(s[i]) }

  /**
   * The output of `normalizeVersion` from some point on, given whether the
   * previous character was already replaced by a '.' (`skip`).
   */
  function NormalizeFrom(v: string, skip: bool): (r: string)
    ensures Clean(r)
    ensures |r| <= |v|
  {
    if |v| == 0 then ""
    else if VersionChar(v[0]) then [v[0]] + NormalizeFrom(v[1..], false)
    else if skip then NormalizeFrom(v[1..], true)
    else "." + NormalizeFrom(v[1..], true)
  }

  /** Whether the last character of `v` (or the state before it, for an empty `v`) was a replaced one. */
  function SkipAfter(v: string, skip: bool): bool {
    if |v| == 0 then skip else !VersionChar(v[|v| - 1])
  }

  /** `normalizeVersion(v)`. */
  function Normalized(v: string): (r: string)
    ensures Clean(r)
  {
    NormalizeFrom(v, false)
  }

  /** `normalizeVersion`: keeps digits and dots and writes one '.' per run of other characters. */
  method NormalizeVersion(v: string) returns (r: string)
    ensures r == Normalized(v)
  {
    r := "";
    var skip := false;
    var i := 0;
    while i < |v|
      invariant 0 <= i <= |v|
      invariant r + NormalizeFrom(v[i..], skip) == Normalized(v)
    {
      var c := v[i];
      assert v[i..][1..] == v[i + 1..];
      if c == '.' || ('0' <= c <= '9') {
        assert r + NormalizeFrom(v[i..], skip) == (r + [c]) + NormalizeFrom(v[i + 1..], false);
        r := r + [c];
        skip := false;
      } else if !skip {
        assert r + NormalizeFrom(v[i..], skip) == (r + ".") + NormalizeFrom(v[i + 1..], true);
        skip := true;
        r := r + ".";
      }
      i := i + 1;
    }
  }

  /** Normalising text split in two normalises the parts, the second from where the first left off. */
  lemma {:induction false} NormalizeAppend(p: string, q: string, skip: bool)
    ensures NormalizeFrom(p + q, skip) == NormalizeFrom(p, skip) + NormalizeFrom(q, SkipAfter(p, skip))
    decreases |p|
  {
    if |p| > 0 {
      var next := !VersionChar(p[0]);
      assert (p + q)[0] == p[0];
      assert (p + q)[1..] == p[1..] + q;
      NormalizeAppend(p[1..], q, next);
      assert SkipAfter(p[1..], next) == SkipAfter(p, skip) by {
        if |p| > 1 {
          assert p[1..][|p[1..]| - 1] == p[|p| - 1];
        }
      }
      var tail := NormalizeFrom(p[1..], next);
      var rest := NormalizeFrom(q, SkipAfter(p, skip));
      assert NormalizeFrom(p[1..] + q, next) == tail + rest;
      if VersionChar(p[0]) {
        assert NormalizeFrom(p + q, skip) == [p[0]] + (tail + rest);
        assert NormalizeFrom(p, skip) == [p[0]] + tail;
        assert [p[0]] + (tail + rest) == ([p[0]] + tail) + rest;
      } else if skip {
        assert NormalizeFrom(p + q, skip) == tail + rest;
      } else {
        assert NormalizeFrom(p + q, skip) == "." + (tail + rest);
        assert NormalizeFrom(p, skip) == "." + tail;
        assert "." + (tail + rest) == ("." + tail) + rest;
      }
    } else {
      assert p + q == q;
    }
  }

  /** Digits and dots pass through unchanged. */
  lemma {:induction false} NormalizeClean(v: string, skip: bool)
    requires Clean(v)
    ensures NormalizeFrom(v, skip) == v
    decreases |v|
  {
    if |v| > 0 {
      NormalizeClean(v[1..], false);
    }
  }

  /** Normalising twice gives the same as normalising once. */
  lemma NormalizeIdempotent(v: string)
    ensures Normalized(Normalized(v)) == Normalized(v)
  {
    NormalizeClean(Normalized(v), false);
  }

  /** A run of other characters, however long, becomes a single '.'. */
  lemma {:induction false} NormalizeRun(run: string, skip: bool)
    requires |run| > 0 && forall i :: 0 <= i < |run| ==> !VersionChar(run[i])
    ensures NormalizeFrom(run, skip) == if skip then "" else "."
    decreases |run|
  {
    if |run| > 1 {
      NormalizeRun(run[1..], true);
    }
  }

  /**
   * Between clean text, a maximal run of other characters becomes exactly
   * one '.': normalising `p + run + q` is `p + "." + q`.
   */
  lemma NormalizeCollapsesRun(p: string, run: string, q: string)
    requires Clean(p) && Clean(q)
    requires |run| > 0 && forall i :: 0 <= i < |run| ==> !VersionChar(run[i])
    ensures Normalized(p + run + q) == p + "." + q
  {
    NormalizeAppend(p + run, q, false);
    NormalizeAppend(p, run, false);
    NormalizeClean(p, false);
    NormalizeClean(q, true);
    NormalizeRun(run, SkipAfter(p, false));
    assert (p + run)[|p + run| - 1] == run[|run| - 1];
  }

  /** `vscale`: the weight of each of the six components. */
  const VSCALE: seq<int> := [10000000000, 100000000, 1000000, 10000, 100, 1]

  /**
   * Component `i`'s share of the sum before any wrap-around: an unparseable
   * component adds 0, a missing one 99 (scaled) for an upper bound.
   */
  function Term(parts: seq<string>, up: bool, i: nat): (t: int)
    requires i < 6
  {
    if i < |parts| then
      var n := ParseInt(parts[i]);
      if n.Some? then VSCALE[i] * n.value else 0
    else if up then VSCALE[i] * 99
    else 0
  }

  /** The terms of components `i` to 5 added to `acc`. */
  function SumFrom(parts: seq<string>, up: bool, i: nat, acc: int): int
    requires i <= 6
    decreases 6 - i
  {
    if i == 6 then acc else SumFrom(parts, up, i + 1, acc + Term(parts, up, i))
  }

  /** The dot-separated components `parseVersion` reads. */
  function Components(v: string): seq<string> {
    Split(Normalized(v), {'.'})
  }

  /**
   * `parseVersion(v, up)`: Java's `long` products and sums wrap modulo 2^64,
   * so the result is the wrapped exact sum.
   */
  function VersionValue(v: string, up: bool): int {
    Wrap64(SumFrom(Components(v), up, 0, 0))
  }

  /** `parseVersion`: normalise, split at dots, add the weighted components. */
  method ParseVersion(v: string, up: bool) returns (ver: int)
    ensures ver == VersionValue(v, up)
  {
    var norm := NormalizeVersion(v);
    var vv := Split(norm, {'.'});
    ver := SumComponents(vv, up);
  }

  /** The loop of `parseVersion`: `ver += vscale[i] * component` in `long` arithmetic. */
  method SumComponents(vv: seq<string>, up: bool) returns (ver: int)
    ensures ver == Wrap64(SumFrom(vv, up, 0, 0))
  {
    ver := 0;
    ghost var exact := 0;
    var i := 0;
    while i < 6
      invariant 0 <= i <= 6
      invariant ver == Wrap64(exact)
      invariant SumFrom(vv, up, i, exact) == SumFrom(vv, up, 0, 0)
    {
      SumFromStep(vv, up, i, exact);
      ver := AddComponent(vv, up, i, ver, exact);
      exact := exact + Term(vv, up, i);
      i := i + 1;
    }
  }

  /** One turn of that loop: `ver` holds the wrapped sum so far and takes component `i`'s term. */
  method AddComponent(vv: seq<string>, up: bool, i: nat, ver: int, ghost exact: int) returns (next: int)
    requires i < 6 && ver == Wrap64(exact)
    ensures next == Wrap64(exact + Term(vv, up, i))
  {
    next := ver;
    if i < |vv| {
      var n := ParseInt(vv[i]);
      if n.Some? {
        var p := VSCALE[i] * n.value;
        LongStep(ver, exact, p, true);
        next := Wrap64(ver + Wrap64(p));
      } else {
        assert Term(vv, up, i) == 0;
      }
    } else if up {
      var p := VSCALE[i] * 99;
      LongStep(ver, exact, p, false);
      next := Wrap64(ver + p);
    } else {
      assert Term(vv, up, i) == 0;
    }
  }

  /** `SumFrom` takes one component at a time. */
  lemma SumFromStep(parts: seq<string>, up: bool, i: nat, acc: int)
    requires i < 6
    ensures SumFrom(parts, up, i, acc) == SumFrom(parts, up, i + 1, acc + Term(parts, up, i))
  {
  }

  /** One `ver += t` on a `long` that holds the wrapped exact sum so far, `t` wrapped first or not. */
  lemma LongStep(ver: int, exact: int, t: int, wrapFirst: bool)
    requires ver == Wrap64(exact)
    ensures Wrap64(ver + (if wrapFirst then Wrap64(t) else t)) == Wrap64(exact + t)
  {
    Wrap64Add(exact, if wrapFirst then Wrap64(t) else t);
    if wrapFirst {
      Wrap64Add(t, exact);
    }
  }

  /**
   * `checkVersionRange(ver, range)`: equal strings always match; otherwise
   * `range` is "low-high" (or a single version standing for both bounds)
   * and a version that reads as 0 matches nothing.
   */
  function CheckVersionRange(ver: string, range: string): (r: bool)
    ensures ver == range ==> r
    ensures ver != range && VersionValue(ver, false) == 0 ==> !r
  {
    if ver == range then true
    else
      var bounds := SplitAll(range, {'-'});
      var v := VersionValue(ver, false);
      if v == 0 then false
      else
        var low := bounds[0];
        var high := if |bounds| == 1 then bounds[0] else bounds[1];
        if |low| > 0 && VersionValue(low, false) > v then false
        else |high| <= 0 || VersionValue(high, true) >= v
  }

  /** The reading of `ver` lies between the bounds, an empty bound being unbounded. */
  predicate InBounds(ver: string, low: string, high: string) {
    var v := VersionValue(ver, false);
    v != 0 && (|low| == 0 || VersionValue(low, false) <= v) && (|high| == 0 || v <= VersionValue(high, true))
  }

  /** A range without '-' is both its own lower bound and its own upper bound (missing parts read as 99). */
  lemma CheckVersionRangeSingle(ver: string, range: string)
    requires ver != range && '-' !in range
    ensures CheckVersionRange(ver, range) <==> InBounds(ver, range, range)
  {
    PiecesOfPlain(range, {'-'});
  }

  /** A range "low-high" compares against both sides, either of which may be empty. */
  lemma CheckVersionRangePair(ver: string, low: string, high: string)
    requires '-' !in low && '-' !in high && ver != low + "-" + high
    ensures CheckVersionRange(ver, low + "-" + high) <==> InBounds(ver, low, high)
  {
    PiecesOfJoin([low, high], '-', {'-'});
    assert Join([low, high], '-') == low + "-" + high by {
      assert Join([low, high][1..], '-') == high;
    }
  }

  /** `Components` of a clean join of dot-free, non-empty-ended parts is those parts. */
  lemma ComponentsOfJoin(parts: seq<string>)
    requires |parts| >= 1 && parts[|parts| - 1] != ""
    requires forall k :: 0 <= k < |parts| ==> Clean(parts[k]) && '.' !in parts[k]
    ensures Components(Join(parts, '.')) == parts
  {
    JoinClean(parts);
    NormalizeClean(Join(parts, '.'), false);
    SplitOfJoin(parts, '.', {'.'});
  }

  lemma {:induction false} JoinClean(parts: seq<string>)
    requires |parts| >= 1
    requires forall k :: 0 <= k < |parts| ==> Clean(parts[k])
    ensures Clean(Join(parts, '.'))
    decreases |parts|
  {
    if |parts| > 1 {
      JoinClean(parts[1..]);
      var j := Join(parts[1..], '.');
      assert Join(parts, '.') == parts[0] + "." + j;
      forall i | 0 <= i < |parts[0] + "." + j|
        ensures VersionChar((parts[0] + "." + j)[i])
      {
        if i < |parts[0]| {
        } else if i > |parts[0]| {
          assert (parts[0] + "." + j)[i] == j[i - |parts[0]| - 1];
        }
      }
    }
  }

  /** The sum of two read components, with the four missing ones at 0 or 99. */
  lemma SumOfTwo(parts: seq<string>, up: bool, a: int, b: int)
    requires |parts| == 2 && ParseInt(parts[0]) == Some(a) && ParseInt(parts[1]) == Some(b)
    ensures SumFrom(parts, up, 0, 0) == 10000000000 * a + 100000000 * b + (if up then 99999999 else 0)
  {
    var m := if up then 99 else 0;
    assert SumFrom(parts, up, 2, 10000000000 * a + 100000000 * b) ==
      10000000000 * a + 100000000 * b + 1000000 * m + 10000 * m + 100 * m + m;
  }

  /** The sum of three read components, with the three missing ones at 0. */
  lemma SumOfThree(parts: seq<string>, a: int, b: int, c: int)
    requires |parts| == 3 && ParseInt(parts[0]) == Some(a) && ParseInt(parts[1]) == Some(b) && ParseInt(parts[2]) == Some(c)
    ensures SumFrom(parts, false, 0, 0) == 10000000000 * a + 100000000 * b + 1000000 * c
  {
    assert SumFrom(parts, false, 3, 10000000000 * a + 100000000 * b + 1000000 * c) ==
      10000000000 * a + 100000000 * b + 1000000 * c;
  }

  /** A version written with two numeric components, "a.b". */
  function V2(a: nat, b: nat): string {
    NatToString(a) + "." + NatToString(b)
  }

  /** A version written with three numeric components, "a.b.c". */
  function V3(a: nat, b: nat, c: nat): string {
    NatToString(a) + "." + NatToString(b) + "." + NatToString(c)
  }

  /** A printed natural is clean, without dots or dashes, and reads back as itself. */
  lemma NumberComponent(n: nat)
    requires n <= INT_MAX
    ensures Clean(NatToString(n)) && '.' !in NatToString(n) && '-' !in NatToString(n)
    ensures ParseInt(NatToString(n)) == Some(n)
  {
    var s := NatToString(n);
    assert forall i :: 0 <= i < |s| ==> IsDigit(s[i]);
    ParseIntOfToString(n);
  }

  /** "a.b" reads as a*10^10 + b*10^8, plus 99 in each missing component for an upper bound. */
  lemma ValueOfTwo(a: nat, b: nat, up: bool)
    requires a < 100 && b < 100
    ensures VersionValue(V2(a, b), up) == 10000000000 * a + 100000000 * b + (if up then 99999999 else 0)
  {
    var parts := [NatToString(a), NatToString(b)];
    NumberComponent(a);
    NumberComponent(b);
    assert Join(parts, '.') == V2(a, b) by {
      assert Join(parts[1..], '.') == NatToString(b);
    }
    ComponentsOfJoin(parts);
    SumOfTwo(parts, up, a, b);
  }

  /** "a.b.c" as a version reads as a*10^10 + b*10^8 + c*10^6. */
  lemma ValueOfThree(a: nat, b: nat, c: nat)
    requires a < 100 && b < 100 && c < 100
    ensures VersionValue(V3(a, b, c), false) == 10000000000 * a + 100000000 * b + 1000000 * c
  {
    var parts := [NatToString(a), NatToString(b), NatToString(c)];
    NumberComponent(a);
    NumberComponent(b);
    NumberComponent(c);
    assert Join(parts, '.') == V3(a, b, c) by {
      assert Join(parts[2..], '.') == NatToString(c);
      assert parts[1..][1..] == parts[2..];
      assert Join(parts[1..], '.') == NatToString(b) + "." + NatToString(c);
    }
    ComponentsOfJoin(parts);
    SumOfThree(parts, a, b, c);
  }

  /** Neither form of version contains a dash. */
  lemma NoDashInVersions(a: nat, b: nat, c: nat)
    requires a < 100 && b < 100 && c < 100
    ensures '-' !in V2(a, b) && '-' !in V3(a, b, c)
  {
    NumberComponent(a);
    NumberComponent(b);
    NumberComponent(c);
  }

  /** A dashed range differs from any text without a dash. */
  lemma DashedDiffers(ver: string, low: string, high: string)
    requires '-' !in ver
    ensures ver != low + "-" + high
  {
    assert (low + "-" + high)[|low|] == '-';
  }

  /**
   * A sub-version "a.b.c" lies in every range "a.lo-a.hi" whose ends enclose
   * b (so "1.12.2" lies in "1.10-1.14"): the missing components of the upper
   * bound read as 99, above any c.
   */
  lemma RangeContainsSubVersion(a: nat, b: nat, c: nat, lo: nat, hi: nat)
    requires 0 < a < 100 && lo <= b <= hi < 100 && c < 100
    ensures CheckVersionRange(V3(a, b, c), V2(a, lo) + "-" + V2(a, hi))
  {
    ValueOfThree(a, b, c);
    ValueOfTwo(a, lo, false);
    ValueOfTwo(a, hi, true);
    NoDashInVersions(a, lo, c);
    NoDashInVersions(a, hi, c);
    NoDashInVersions(a, b, c);
    DashedDiffers(V3(a, b, c), V2(a, lo), V2(a, hi));
    CheckVersionRangePair(V3(a, b, c), V2(a, lo), V2(a, hi));
  }

  /** A sub-version "a.b.c" lies in the range named by its own "a.b" (so "1.12.2" in "1.12"). */
  lemma PrefixRangeContainsSubVersion(a: nat, b: nat, c: nat)
    requires 0 < a < 100 && b < 100 && c < 100
    ensures CheckVersionRange(V3(a, b, c), V2(a, b))
  {
    ValueOfThree(a, b, c);
    ValueOfTwo(a, b, false);
    ValueOfTwo(a, b, true);
    NumberComponent(a);
    NumberComponent(b);
    assert |V3(a, b, c)| > |V2(a, b)|;
    CheckVersionRangeSingle(V3(a, b, c), V2(a, b));
  }

  /**
   * "a.b" lies outside "a.lo-a.hi" when b is below lo or above hi: the
   * component is compared as a number, so "1.9" is older than "1.10".
   */
  lemma RangeExcludesOutside(a: nat, b: nat, lo: nat, hi: nat)
    requires 0 < a < 100 && lo <= hi < 100 && b < 100 && (b < lo || hi < b)
    ensures !CheckVersionRange(V2(a, b), V2(a, lo) + "-" + V2(a, hi))
  {
    ValueOfTwo(a, b, false);
    ValueOfTwo(a, lo, false);
    ValueOfTwo(a, hi, true);
    NoDashInVersions(a, lo, 0);
    NoDashInVersions(a, hi, 0);
    NoDashInVersions(a, b, 0);
    DashedDiffers(V2(a, b), V2(a, lo), V2(a, hi));
    CheckVersionRangePair(V2(a, b), V2(a, lo), V2(a, hi));
  }
}

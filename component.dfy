/**
 * `Component.unescapeString`: the configuration escape "&color;" stands for
 * the section sign U+00A7 that starts a Minecraft colour code.
 */
module Component {
  import opened JavaLang

  const COLOR_ESCAPE: string := "&color;"
  const SECTION_SIGN: char := '§'

  /** Number of escapes a left-to-right, non-overlapping scan replaces. */
  function EscapeCount(v: string): nat
    decreases |v|
  {
    if |v| < |COLOR_ESCAPE| then 0
    else if v[..|COLOR_ESCAPE|] == COLOR_ESCAPE then 1 + EscapeCount(v[|COLOR_ESCAPE|..])
    else EscapeCount(v[1..])
  }

  /** Replaces every "&color;" with the section sign. */
  function UnescapeString(v: string): (r: string)
    ensures !Contains(v, COLOR_ESCAPE) ==> r == v
  {
    Replace(v, COLOR_ESCAPE, [SECTION_SIGN])
  }

  /** A string with no escape comes back unchanged. */
  lemma UnescapeWithoutEscape(v: string)
    requires !Contains(v, COLOR_ESCAPE)
    ensures UnescapeString(v) == v
  {
  }

  /** Each replaced escape makes the string six characters shorter. */
  lemma {:induction false} UnescapeLength(v: string)
    ensures |UnescapeString(v)| == |v| - 6 * EscapeCount(v)
    decreases |v|
  {
    if |v| >= |COLOR_ESCAPE| {
      if v[..|COLOR_ESCAPE|] == COLOR_ESCAPE {
        UnescapeLength(v[|COLOR_ESCAPE|..]);
      } else {
        UnescapeLength(v[1..]);
      }
    }
  }

  /**
   * If the unescaped text starts with a word free of the section sign, the
   * original starts with the same word.
   */
  lemma {:induction false} PrefixSurvives(v: string, w: string)
    requires SECTION_SIGN !in w
    requires StartsWith(UnescapeString(v), w)
    ensures StartsWith(v, w)
    decreases |w|
  {
    var r := UnescapeString(v);
    if |w| > 0 {
      if |v| < |COLOR_ESCAPE| {
      } else if v[..|COLOR_ESCAPE|] == COLOR_ESCAPE {
        UnescapeHead(v);
        StartsHead(r, w);
        assert false;
      } else {
        assert r == [v[0]] + UnescapeString(v[1..]);
        PrefixSurvives(v[1..], w[1..]);
        assert w == [w[0]] + w[1..];
      }
    }
  }

  lemma UnescapeHead(v: string)
    ensures |v| >= |COLOR_ESCAPE| && v[..|COLOR_ESCAPE|] == COLOR_ESCAPE ==>
      UnescapeString(v) == [SECTION_SIGN] + UnescapeString(v[|COLOR_ESCAPE|..])
  {
  }

  lemma MatchHead(r: string, i: int)
    ensures MatchAt(r, COLOR_ESCAPE, i) ==> r[i] == '&'
  {
    if MatchAt(r, COLOR_ESCAPE, i) {
      assert r[i..i + |COLOR_ESCAPE|][0] == r[i];
    }
  }

  lemma StartsHead(r: string, w: string)
    ensures StartsWith(r, w) && |w| > 0 ==> w[0] == r[0]
  {
    if StartsWith(r, w) && |w| > 0 {
      assert r[..|w|][0] == r[0];
    }
  }

  /** A match past the first character of `[c] + rest` is a match in `rest`. */
  lemma ShiftMatch(c: char, rest: string, i: int)
    requires i > 0 && MatchAt([c] + rest, COLOR_ESCAPE, i)
    ensures MatchAt(rest, COLOR_ESCAPE, i - 1)
  {
    assert rest[i - 1..i - 1 + |COLOR_ESCAPE|] == ([c] + rest)[i..i + |COLOR_ESCAPE|];
  }

  /** The result contains no "&color;": the section sign is not part of the escape. */
  lemma {:induction false} NoEscapeLeft(v: string)
    ensures !Contains(UnescapeString(v), COLOR_ESCAPE)
    decreases |v|
  {
    var n := |COLOR_ESCAPE|;
    if |v| >= n {
      var r := UnescapeString(v);
      var head, tail := if v[..n] == COLOR_ESCAPE then SECTION_SIGN else v[0],
                        if v[..n] == COLOR_ESCAPE then v[n..] else v[1..];
      NoEscapeLeft(tail);
      var rest := UnescapeString(tail);
      assert r == [head] + rest;
      if Contains(r, COLOR_ESCAPE) {
        var i :| 0 <= i <= |r| - n && MatchAt(r, COLOR_ESCAPE, i);
        if i == 0 {
          HeadMatchImpossible(v, r, rest);
        } else {
          ShiftMatch(head, rest, i);
        }
      }
    }
  }

  lemma HeadMatchImpossible(v: string, r: string, rest: string)
    requires |v| >= |COLOR_ESCAPE|
    requires r == UnescapeString(v)
    requires v[..|COLOR_ESCAPE|] == COLOR_ESCAPE ==> rest == UnescapeString(v[|COLOR_ESCAPE|..])
    requires v[..|COLOR_ESCAPE|] != COLOR_ESCAPE ==> rest == UnescapeString(v[1..])
    ensures !MatchAt(r, COLOR_ESCAPE, 0)
  {
    var n := |COLOR_ESCAPE|;
    if MatchAt(r, COLOR_ESCAPE, 0) {
      MatchHead(r, 0);
      if v[..n] == COLOR_ESCAPE {
        UnescapeHead(v);
        assert false;
      } else {
        assert r == [v[0]] + rest;
        assert rest[..n - 1] == r[1..n];
        assert StartsWith(rest, COLOR_ESCAPE[1..]);
        PrefixSurvives(v[1..], COLOR_ESCAPE[1..]);
        assert false;
      }
    }
  }
}

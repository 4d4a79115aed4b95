/**
 * The slice of Java's integer and string semantics the dynmap code relies on:
 * 32- and 64-bit wrap-around, truncating division, `String.split` with a
 * one-character-class pattern, `Integer.parseInt`, `Integer.toString`,
 * `String.replace`, `indexOf`/`lastIndexOf` and ASCII case folding.
 */
module JavaLang {

  datatype Option<T> = None | Some(value: T)

  /** The unchecked Java exceptions the modelled code can raise. */
  datatype JavaException =
    | NumberFormatException
    | ClassCastException
    | NullPointerException
    | IndexOutOfBoundsException
    | ArrayIndexOutOfBoundsException
    | StringIndexOutOfBoundsException
    | NegativeArraySizeException
    | ArithmeticException

  /** A value, or the exception a Java method lets escape instead of returning. */
  datatype Result<T> = Ok(value: T) | Err(error: JavaException)

  const INT_MIN: int := -0x8000_0000
  const INT_MAX: int := 0x7FFF_FFFF
  const TWO32: int := 0x1_0000_0000
  const TWO64: int := 0x1_0000_0000_0000_0000

  predicate IsInt32(x: int) { INT_MIN <= x <= INT_MAX }
  predicate IsInt64(x: int) { -TWO64 / 2 <= x < TWO64 / 2 }

  /** Java `int` arithmetic: the result is congruent to `x` modulo 2^32. */
  function Wrap32(x: int): (r: int)
    ensures IsInt32(r)
    ensures (r - x) % TWO32 == 0
    ensures IsInt32(x) ==> r == x
  {
    var m := x % TWO32;
    if m > INT_MAX then m - TWO32 else m
  }

  /** Java `long` arithmetic: the result is congruent to `x` modulo 2^64. */
  function Wrap64(x: int): (r: int)
    ensures IsInt64(r)
    ensures IsInt64(x) ==> r == x
  {
    var m := x % TWO64;
    if m >= TWO64 / 2 then m - TWO64 else m
  }

  /** Java's `/` by a positive divisor: rounds toward zero. */
  function JDiv(a: int, b: int): (q: int)
    requires b > 0
    ensures 0 <= a ==> q == a / b
    ensures a < 0 ==> q == -((-a) / b) && q <= 0
  {
    if a >= 0 then a / b else -((-a) / b)
  }

  /** Java's `%` by a positive divisor: the remainder takes the sign of the dividend. */
  function JRem(a: int, b: int): (r: int)
    requires b > 0
    ensures 0 <= a ==> 0 <= r < b
    ensures a < 0 ==> -b < r <= 0
  {
    if a >= 0 then a % b else -((-a) % b)
  }

  /** Java's quotient and remainder recombine to the dividend. */
  lemma JDivRem(a: int, b: int)
    requires b > 0
    ensures a == JDiv(a, b) * b + JRem(a, b)
  {
    if a < 0 {
      assert -a == (-a) / b * b + (-a) % b;
    }
  }

  /** Java's `%` by any non-zero divisor: the divisor's sign does not matter. */
  function JRemAny(a: int, b: int): (r: int)
    requires b != 0
    ensures b > 0 ==> r == JRem(a, b)
    ensures b < 0 ==> r == JRem(a, -b)
  {
    if b > 0 then JRem(a, b) else JRem(a, -b)
  }

  function Pow2(n: nat): (r: nat)
    ensures r >= 1
  {
    if n == 0 then 1 else 2 * Pow2(n - 1)
  }

  /** Java's `1 << n` on `int`: only the low five bits of the count are used. */
  function ShiftOne(n: int): (r: int)
    ensures IsInt32(r)
    ensures 0 <= n < 31 ==> r == Pow2(n)
  {
    if n % 32 == 31 then INT_MIN
    else
      PowBound(n % 32);
      Pow2(n % 32)
  }

  lemma {:induction false} PowMonotone(a: nat, b: nat)
    requires a <= b
    ensures Pow2(a) <= Pow2(b)
    decreases b - a
  {
    if a < b {
      PowMonotone(a, b - 1);
    }
  }

  lemma PowBound(n: nat)
    requires n < 31
    ensures Pow2(n) <= 0x4000_0000
  {
    PowMonotone(n, 30);
    PowThirty();
  }

  lemma PowThirty()
    ensures Pow2(30) == 0x4000_0000
  {
    assert Pow2(8) == 0x100;
    assert Pow2(16) == 0x1_0000;
    assert Pow2(24) == 0x100_0000;
  }

  lemma {:induction false} PowAdd(a: nat, b: nat)
    ensures Pow2(a + b) == Pow2(a) * Pow2(b)
    decreases b
  {
    if b > 0 {
      PowAdd(a, b - 1);
      assert Pow2(a + b) == 2 * (Pow2(a) * Pow2(b - 1));
    }
  }

  lemma MulAtLeast(d: int, m: int)
    requires d >= 1 && m > 0
    ensures d * m >= m
  {
    assert d * m == (d - 1) * m + m;
    assert (d - 1) * m >= 0;
  }

  /** Quotient and remainder by a positive divisor are unique. */
  lemma DivModUnique(a: int, m: int, q: int, r: int)
    requires m > 0 && 0 <= r < m && a == q * m + r
    ensures a / m == q && a % m == r
  {
    var q' := a / m;
    var r' := a % m;
    assert a == q' * m + r';
    assert (q - q') * m == r' - r;
    if q > q' {
      MulAtLeast(q - q', m);
    } else if q < q' {
      MulAtLeast(q' - q, m);
    }
  }

  /** Wrapping an intermediate `long` sum does not change the wrapped total. */
  lemma Wrap64Add(a: int, b: int)
    ensures Wrap64(Wrap64(a) + b) == Wrap64(a + b)
  {
    var w := Wrap64(a);
    var x := a + b;
    var k := if a % TWO64 >= TWO64 / 2 then a / TWO64 + 1 else a / TWO64;
    assert a == (a / TWO64) * TWO64 + a % TWO64;
    assert a - w == k * TWO64;
    assert x == (x / TWO64) * TWO64 + x % TWO64;
    DivModUnique(w + b, TWO64, x / TWO64 - k, x % TWO64);
  }

  /** 2^31, and so `int`'s least value, is a multiple of every power of two up to 2^31. */
  lemma IntMinMultiple(z: nat)
    requires z <= 31
    ensures (-INT_MIN) % Pow2(z) == 0 && INT_MIN % Pow2(z) == 0
  {
    var p: int, q: int := Pow2(z), Pow2(31 - z);
    PowAdd(z, 31 - z);
    assert Pow2(31) == p * q;
    PowThirty();
    assert Pow2(31) == 2 * Pow2(30);
    DivModUnique(-INT_MIN, p, q, 0);
    assert INT_MIN == (-q) * p + 0;
    DivModUnique(INT_MIN, p, -q, 0);
  }

  /**
   * A Java `int` used as a set of flags is held as the positions of its one
   * bits: `(mask & (1 << d)) != 0` is `d in mask` and `mask | (1 << d)` is
   * `mask + {d}`, for the shift count `d` that ShiftCount gives.
   */
  predicate IsIntBits(mask: set<int>) {
    forall d :: d in mask ==> 0 <= d < 32
  }

  /** The bit Java's `1 << n` on `int` sets: the low five bits of `n`. */
  function ShiftCount(n: int): (r: int)
    ensures 0 <= r < 32
    ensures 0 <= n < 32 ==> r == n
    ensures (r - n) % 32 == 0
  {
    n % 32
  }

  /** -1 as a set of flags: all 32 bits. */
  const ALL_BITS: set<int> := {0, 1, 2, 3, 4, 5, 6, 7, 8, 9, 10, 11, 12, 13, 14, 15, 16, 17, 18, 19, 20, 21, 22, 23, 24, 25, 26, 27, 28, 29, 30, 31}

  // ---------------------------------------------------------------------
  // Characters and simple string queries

  predicate IsDigit(c: char) { '0' <= c <= '9' }
  predicate IsAsciiLetter(c: char) { ('a' <= c <= 'z') || ('A' <= c <= 'Z') }

  function ToLowerChar(c: char): (r: char)
    ensures IsAsciiLetter(c) <==> IsAsciiLetter(r)
    ensures !('A' <= r <= 'Z')
    ensures !('A' <= c <= 'Z') ==> r == c
  {
    if 'A' <= c <= 'Z' then (c as int + 32) as char else c
  }

  /** `String.toLowerCase()`, restricted to ASCII letters. */
  function ToLower(s: string): (r: string)
    ensures |r| == |s|
    ensures forall i :: 0 <= i < |s| ==> r[i] == ToLowerChar(s[i])
  {
    if |s| == 0 then "" else [ToLowerChar(s[0])] + ToLower(s[1..])
  }

  /** Lower-casing twice changes nothing more. */
  lemma ToLowerIdempotent(s: string)
    ensures ToLower(ToLower(s)) == ToLower(s)
  {
    assert forall i :: 0 <= i < |s| ==> ToLower(ToLower(s))[i] == ToLower(s)[i];
  }

  /** `s.indexOf(c)`: the first position of `c`, or -1. */
  function IndexOf(s: string, c: char): (r: int)
    ensures -1 <= r < |s|
    ensures r == -1 <==> c !in s
    ensures r >= 0 ==> s[r] == c && c !in s[..r]
    ensures forall i :: 0 <= i < |s| && s[i] == c ==> r != -1 && r <= i
  {
    if |s| == 0 then -1
    else if s[0] == c then 0
    else
      var k := IndexOf(s[1..], c);
      assert s[1..][..if k < 0 then 0 else k] == s[1..if k < 0 then 1 else k + 1];
      if k < 0 then -1 else k + 1
  }

  /** `s.lastIndexOf(c)`: the last position of `c`, or -1. */
  function LastIndexOf(s: string, c: char): (r: int)
    ensures -1 <= r < |s|
    ensures r == -1 <==> c !in s
    ensures r >= 0 ==> s[r] == c && c !in s[r + 1..]
    ensures forall i :: 0 <= i < |s| && s[i] == c ==> r >= i
  {
    if |s| == 0 then -1
    else if s[|s| - 1] == c then |s| - 1
    else
      var k := LastIndexOf(s[..|s| - 1], c);
      assert k >= 0 ==> s[k + 1..] == s[..|s| - 1][k + 1..] + [s[|s| - 1]];
      k
  }

  /** The first `c` of `a + [c] + b` is the separator, when `a` has none. */
  lemma IndexOfConcat(a: string, c: char, b: string)
    requires c !in a
    ensures IndexOf(a + [c] + b, c) == |a|
  {
    var s := a + [c] + b;
    assert s[|a|] == c;
    assert forall i :: 0 <= i < |a| ==> s[i] == a[i];
  }

  predicate StartsWith(s: string, p: string) { |p| <= |s| && s[..|p|] == p }

  /** `s.contains(p)` */
  predicate Contains(s: string, p: string) {
    exists i :: 0 <= i <= |s| - |p| && MatchAt(s, p, i)
  }

  predicate MatchAt(s: string, p: string, i: int) {
    0 <= i <= |s| - |p| && s[i..i + |p|] == p
  }

  /**
   * `s.replace(pat, rep)` for a non-empty pattern: occurrences are replaced
   * left to right without overlapping.
   */
  function Replace(s: string, pat: string, rep: string): (r: string)
    requires |pat| > 0
    ensures !Contains(s, pat) ==> r == s
    decreases |s|
  {
    if |s| < |pat| then
      NoRoomNoMatch(s, pat);
      s
    else if s[..|pat|] == pat then
      assert MatchAt(s, pat, 0);
      rep + Replace(s[|pat|..], pat, rep)
    else
      NotContainedInTail(s, pat);
      [s[0]] + Replace(s[1..], pat, rep)
  }

  lemma NoRoomNoMatch(s: string, pat: string)
    requires |s| < |pat|
    ensures !Contains(s, pat)
  {
  }

  lemma NotContainedInTail(s: string, pat: string)
    requires |s| > 0
    ensures !Contains(s, pat) ==> !Contains(s[1..], pat)
  {
    var t := s[1..];
    if Contains(t, pat) {
      var i :| 0 <= i <= |t| - |pat| && MatchAt(t, pat, i);
      assert t[i..i + |pat|] == pat;
      assert s[i + 1..i + 1 + |pat|] == t[i..i + |pat|];
      assert MatchAt(s, pat, i + 1);
    }
  }

  /** `s.replace(a, b)` on single characters. */
  function ReplaceChar(s: string, a: char, b: char): (r: string)
    ensures |r| == |s|
    ensures forall i :: 0 <= i < |s| ==> r[i] == if s[i] == a then b else s[i]
  {
    if |s| == 0 then "" else [if s[0] == a then b else s[0]] + ReplaceChar(s[1..], a, b)
  }

  // ---------------------------------------------------------------------
  // String.split with a pattern that matches exactly one character of a set

  /** Every piece between delimiters, empty ones included. */
  function Pieces(s: string, delims: set<char>): (r: seq<string>)
    ensures |r| >= 1
    ensures forall k :: 0 <= k < |r| ==> forall c :: c in r[k] ==> c !in delims
  {
    if |s| == 0 then [""]
    else
      var p := Pieces(s[1..], delims);
      if s[0] in delims then [""] + p
      else [[s[0]] + p[0]] + p[1..]
  }

  function DropTrailingEmpty(ps: seq<string>): (r: seq<string>)
    ensures |r| <= |ps| && r == ps[..|r|]
    ensures |r| > 0 ==> r[|r| - 1] != ""
    ensures forall k :: |r| <= k < |ps| ==> ps[k] == ""
  {
    if |ps| == 0 then []
    else if ps[|ps| - 1] == "" then DropTrailingEmpty(ps[..|ps| - 1])
    else ps
  }

  /**
   * `s.split(p)` (limit 0): an empty input yields [""]; otherwise trailing
   * empty pieces are removed (all of them, when every piece is empty).
   */
  function Split(s: string, delims: set<char>): (r: seq<string>)
    ensures s == "" ==> r == [""]
    ensures s != "" ==> r == DropTrailingEmpty(Pieces(s, delims))
    ensures forall k :: 0 <= k < |r| ==> forall c :: c in r[k] ==> c !in delims
  {
    if s == "" then [""] else DropTrailingEmpty(Pieces(s, delims))
  }

  /** `s.split(p, -1)`: every piece is kept. */
  function SplitAll(s: string, delims: set<char>): (r: seq<string>)
    ensures |r| >= 1
  {
    Pieces(s, delims)
  }

  /** Joins pieces with a one-character separator. */
  function Join(parts: seq<string>, sep: char): (r: string)
    requires |parts| >= 1
  {
    if |parts| == 1 then parts[0] else parts[0] + [sep] + Join(parts[1..], sep)
  }

  /** A join of two pieces. */
  lemma JoinTwo(a: string, b: string, sep: char)
    ensures Join([a, b], sep) == a + [sep] + b
  {
    assert [a, b][1..] == [b];
  }

  /** A join of three pieces. */
  lemma JoinThree(a: string, b: string, c: string, sep: char)
    ensures Join([a, b, c], sep) == a + [sep] + b + [sep] + c
  {
    assert [a, b, c][1..] == [b, c];
    JoinTwo(b, c, sep);
  }

  lemma {:induction false} PiecesOfAppend(a: string, d: char, b: string, delims: set<char>)
    requires forall c :: c in a ==> c !in delims
    requires d in delims
    ensures Pieces(a + [d] + b, delims) == [a] + Pieces(b, delims)
    decreases |a|
  {
    if |a| == 0 {
      assert a + [d] + b == [d] + b;
      assert ([d] + b)[1..] == b;
    } else {
      PiecesOfAppend(a[1..], d, b, delims);
      assert (a + [d] + b)[1..] == a[1..] + [d] + b;
      assert [a[0]] + a[1..] == a;
    }
  }

  lemma {:induction false} PiecesOfPlain(a: string, delims: set<char>)
    requires forall c :: c in a ==> c !in delims
    ensures Pieces(a, delims) == [a]
    decreases |a|
  {
    if |a| > 0 {
      PiecesOfPlain(a[1..], delims);
      assert [a[0]] + a[1..] == a;
    }
  }

  /** Splitting a join of delimiter-free pieces gives the pieces back. */
  lemma {:induction false} PiecesOfJoin(parts: seq<string>, sep: char, delims: set<char>)
    requires |parts| >= 1
    requires sep in delims
    requires forall k, c :: 0 <= k < |parts| && c in parts[k] ==> c !in delims
    ensures Pieces(Join(parts, sep), delims) == parts
    decreases |parts|
  {
    if |parts| == 1 {
      PiecesOfPlain(parts[0], delims);
    } else {
      PiecesOfJoin(parts[1..], sep, delims);
      PiecesOfAppend(parts[0], sep, Join(parts[1..], sep), delims);
      assert [parts[0]] + parts[1..] == parts;
    }
  }

  lemma SplitOfJoin(parts: seq<string>, sep: char, delims: set<char>)
    requires |parts| >= 1 && parts[|parts| - 1] != ""
    requires sep in delims
    requires forall k, c :: 0 <= k < |parts| && c in parts[k] ==> c !in delims
    ensures Split(Join(parts, sep), delims) == parts
  {
    PiecesOfJoin(parts, sep, delims);
    if Join(parts, sep) == "" {
      JoinLength(parts, sep);
    }
  }

  lemma {:induction false} JoinLength(parts: seq<string>, sep: char)
    requires |parts| >= 1
    ensures |Join(parts, sep)| >= |parts[|parts| - 1]|
    decreases |parts|
  {
    if |parts| > 1 {
      JoinLength(parts[1..], sep);
    }
  }

  // ---------------------------------------------------------------------
  // Integer.parseInt / Integer.toString

  predicate AllDigits(s: string) { forall i :: 0 <= i < |s| ==> IsDigit(s[i]) }

  function DigitsValue(s: string): (r: nat)
    requires AllDigits(s)
  {
    if |s| == 0 then 0 else DigitsValue(s[..|s| - 1]) * 10 + (s[|s| - 1] as int - '0' as int)
  }

  /**
   * `Integer.parseInt(s)`: an optional sign followed by at least one decimal
   * digit, whose value fits in 32 bits; `None` stands for NumberFormatException.
   */
  function ParseInt(s: string): (r: Option<int>)
    ensures r.Some? ==> IsInt32(r.value)
    ensures r.Some? ==> |s| >= 1
  {
    if |s| == 0 then None
    else
      var neg := s[0] == '-';
      var body := if s[0] == '-' || s[0] == '+' then s[1..] else s;
      if |body| == 0 || !AllDigits(body) then None
      else
        var d: int := DigitsValue(body);
        var v := if neg then -d else d;
        if IsInt32(v) then Some(v) else None
  }

  function DigitChar(d: int): char
    requires 0 <= d < 10
  {
    ('0' as int + d) as char
  }

  function NatToString(n: nat): (r: string)
    ensures |r| >= 1 && AllDigits(r)
  {
    if n < 10 then [DigitChar(n)] else NatToString(n / 10) + [DigitChar(n % 10)]
  }

  /** `Integer.toString(n)` / string concatenation of an int. */
  function IntToString(n: int): (r: string)
    ensures |r| >= 1
    ensures forall c :: c in r ==> IsDigit(c) || c == '-'
  {
    if n < 0 then "-" + NatToString(-n) else NatToString(n)
  }

  lemma {:induction false} DigitsOfNatToString(n: nat)
    ensures DigitsValue(NatToString(n)) == n
  {
    if n >= 10 {
      DigitsOfNatToString(n / 10);
      var s := NatToString(n);
      assert s[..|s| - 1] == NatToString(n / 10);
    }
  }

  /** Printing a 32-bit value and parsing it back gives the value. */
  lemma ParseIntOfToString(n: int)
    requires IsInt32(n)
    ensures ParseInt(IntToString(n)) == Some(n)
  {
    var s := IntToString(n);
    if n < 0 {
      var t := NatToString(-n);
      DigitsOfNatToString(-n);
      assert s == "-" + t;
      assert s[0] == '-' && s[1..] == t;
    } else {
      DigitsOfNatToString(n);
      assert IsDigit(s[0]);
    }
  }

  lemma NatToStringInjective(a: nat, b: nat)
    requires NatToString(a) == NatToString(b)
    ensures a == b
  {
    DigitsOfNatToString(a);
    DigitsOfNatToString(b);
  }

  // ---------------------------------------------------------------------
  // Double.parseDouble

  predicate IsHexDigit(c: char) { IsDigit(c) || 'a' <= c <= 'f' || 'A' <= c <= 'F' }

  /** The type suffixes a floating-point literal may end in. */
  predicate IsFloatSuffix(c: char) { c == 'f' || c == 'F' || c == 'd' || c == 'D' }

  predicate IsSign(c: char) { c == '+' || c == '-' }

  /**
   * Where the scan of a number for `Double.parseDouble` stands: before the
   * sign, after it, inside `NaN` or `Infinity`, in the integer or fraction
   * digits of a decimal or hexadecimal significand, in the exponent, after
   * the type suffix, or in the characters up to the space after a whole
   * number (which `trim` drops, as it drops those before the sign).
   */
  datatype FloatState =
    | Start | Signed | Word(w: string, k: nat)
    | Zero | IntDigits | PointFirst | FracDigits
    | HexStart | HexDigits | HexPointFirst | HexFrac
    | ExpStart | ExpSign | ExpDigits | Suffixed | Trailing

  const NAN_TEXT: string := "NaN"
  const INFINITY_TEXT: string := "Infinity"

  /** The first character after the sign. */
  function Lead(c: char): Option<FloatState> {
    if c == 'N' then Some(Word(NAN_TEXT, 1))
    else if c == 'I' then Some(Word(INFINITY_TEXT, 1))
    else if c == '0' then Some(Zero)
    else if IsDigit(c) then Some(IntDigits)
    else if c == '.' then Some(PointFirst)
    else None
  }

  /** A character after the integer digits of a decimal significand. */
  function AfterInt(c: char): Option<FloatState> {
    if IsDigit(c) then Some(IntDigits)
    else if c == '.' then Some(FracDigits)
    else if c == 'e' || c == 'E' then Some(ExpStart)
    else if IsFloatSuffix(c) then Some(Suffixed)
    else None
  }

  /** One character of the scan; `None` where `Double.parseDouble` throws NumberFormatException. */
  function Step(st: FloatState, c: char): Option<FloatState> {
    if c <= ' ' then
      if st == Start then Some(Start)
      else if Accepting(st) then Some(Trailing)
      else None
    else
    match st
    case Start => if IsSign(c) then Some(Signed) else Lead(c)
    case Signed => Lead(c)
    case Word(w, k) => if k < |w| && c == w[k] then Some(Word(w, k + 1)) else None
    case Zero => if c == 'x' || c == 'X' then Some(HexStart) else AfterInt(c)
    case IntDigits => AfterInt(c)
    case PointFirst => if IsDigit(c) then Some(FracDigits) else None
    case FracDigits =>
      if IsDigit(c) then Some(FracDigits)
      else if c == 'e' || c == 'E' then Some(ExpStart)
      else if IsFloatSuffix(c) then Some(Suffixed)
      else None
    case HexStart => if IsHexDigit(c) then Some(HexDigits) else if c == '.' then Some(HexPointFirst) else None
    case HexDigits =>
      if IsHexDigit(c) then Some(HexDigits)
      else if c == '.' then Some(HexFrac)
      else if c == 'p' || c == 'P' then Some(ExpStart)
      else None
    case HexPointFirst => if IsHexDigit(c) then Some(HexFrac) else None
    case HexFrac =>
      if IsHexDigit(c) then Some(HexFrac) else if c == 'p' || c == 'P' then Some(ExpStart) else None
    case ExpStart => if IsSign(c) then Some(ExpSign) else if IsDigit(c) then Some(ExpDigits) else None
    case ExpSign => if IsDigit(c) then Some(ExpDigits) else None
    case ExpDigits =>
      if IsDigit(c) then Some(ExpDigits) else if IsFloatSuffix(c) then Some(Suffixed) else None
    case Suffixed => None
    case Trailing => None
  }

  /**
   * The states where the text may end: a whole `NaN` or `Infinity`, decimal
   * digits with no exponent begun, exponent digits, or a suffix. A
   * hexadecimal significand must go on to its `p` exponent.
   */
  predicate Accepting(st: FloatState) {
    match st
    case Word(w, k) => k == |w|
    case Zero => true
    case IntDigits => true
    case FracDigits => true
    case ExpDigits => true
    case Suffixed => true
    case Trailing => true
    case _ => false
  }

  /** The state after scanning `s` from `st`, or `None` once a character is refused. */
  function Walk(st: FloatState, s: string): Option<FloatState>
    decreases |s|
  {
    if |s| == 0 then Some(st)
    else
      match Step(st, s[0])
      case None => None
      case Some(next) => Walk(next, s[1..])
  }

  /**
   * `Double.parseDouble(s)` returns instead of throwing NumberFormatException:
   * once trimmed of the characters up to the space, `s` is an optional sign followed by `NaN`, `Infinity`, a
   * decimal literal (digits with at most one point, at least one digit, an
   * optional `e` exponent) or a hexadecimal one (`0x`, a significand of hex
   * digits, a mandatory `p` exponent), either literal with an optional
   * `f`/`F`/`d`/`D` suffix.
   */
  predicate IsJavaDouble(s: string) {
    var end := Walk(Start, s);
    end.Some? && Accepting(end.value)
  }

  /** Scanning `x + y` is scanning `x`, then `y` from where `x` left off. */
  lemma {:induction false} WalkAppend(st: FloatState, x: string, y: string)
    ensures Walk(st, x + y) == if Walk(st, x).None? then None else Walk(Walk(st, x).value, y)
    decreases |x|
  {
    if |x| > 0 {
      assert (x + y)[0] == x[0] && (x + y)[1..] == x[1..] + y;
      match Step(st, x[0])
      case None =>
      case Some(next) => WalkAppend(next, x[1..], y);
    } else {
      assert x + y == y;
    }
  }

  /** Digits keep a digit state where it is. */
  lemma {:induction false} WalkDigits(st: FloatState, u: string)
    requires st == IntDigits || st == FracDigits || st == ExpDigits
    requires AllDigits(u)
    ensures Walk(st, u) == Some(st)
    decreases |u|
  {
    if |u| > 0 {
      WalkDigits(st, u[1..]);
    }
  }

  /** A run of digits after the sign scans to an integer state. */
  lemma DigitsScan(st: FloatState, u: string)
    requires st == Start || st == Signed
    requires |u| > 0 && AllDigits(u) && !IsSign(u[0])
    ensures Walk(st, u) == Some(Zero) || Walk(st, u) == Some(IntDigits)
  {
    WalkAppend(st, u[..1], u[1..]);
    assert u[..1] + u[1..] == u;
    var first := if u[0] == '0' then Zero else IntDigits;
    assert Walk(st, u[..1]) == Some(first);
    if |u| > 1 {
      WalkAppend(first, u[1..2], u[2..]);
      assert u[1..2] + u[2..] == u[1..];
      assert Walk(first, u[1..2]) == Some(IntDigits);
      WalkDigits(IntDigits, u[2..]);
    }
  }

  /** Every string `Integer.parseInt` reads, `Double.parseDouble` reads too. */
  lemma ParsedIntIsDouble(s: string)
    requires ParseInt(s).Some?
    ensures IsJavaDouble(s)
  {
    if IsSign(s[0]) {
      var body := s[1..];
      assert |body| > 0 && AllDigits(body) && !IsSign(body[0]);
      DigitsScan(Signed, body);
      WalkAppend(Start, s[..1], body);
      assert s[..1] + body == s;
    } else {
      DigitsScan(Start, s);
    }
  }

  /** Digits, a point and more digits, as in "0.25" or "1.", are a number `Double.parseDouble` reads. */
  lemma FractionIsDouble(a: string, b: string)
    requires |a| > 0 && AllDigits(a) && AllDigits(b)
    ensures IsJavaDouble(a + "." + b)
  {
    assert !IsSign(a[0]);
    DigitsScan(Start, a);
    var mid := Walk(Start, a).value;
    assert Walk(mid, ".") == Some(FracDigits);
    WalkAppend(Start, a, ".");
    WalkDigits(FracDigits, b);
    WalkAppend(Start, a + ".", b);
  }

  /** Text that starts with a letter other than the `N` of `NaN` or the `I` of `Infinity` is not a number. */
  lemma LetterIsNotDouble(s: string)
    requires |s| > 0 && IsAsciiLetter(s[0]) && s[0] != 'N' && s[0] != 'I'
    ensures !IsJavaDouble(s)
  {
    assert Step(Start, s[0]).None?;
  }
}

/**
 * `web/Json`: the string escaper and the serialiser for the non-reflective
 * value kinds. Escaping follows section 7 of RFC 8259.
 */
module Json {
  import opened JavaLang
  import opened JSONUtils

  const BACKSPACE: char := 8 as char
  const FORM_FEED: char := 12 as char

  function HexDigit(d: int): (c: char)
    requires 0 <= d < 16
    ensures IsDigit(c) || 'A' <= c <= 'F'
  {
    if d < 10 then ('0' as int + d) as char else ('A' as int + d - 10) as char
  }

  /** `Integer.toHexString(n).toUpperCase()` left-padded with '0' to four digits. */
  function Hex4(n: int): (r: string)
    requires 0 <= n < 0x1_0000
    ensures |r| == 4
  {
    [HexDigit(n / 0x1000), HexDigit(n / 0x100 % 16), HexDigit(n / 0x10 % 16), HexDigit(n % 16)]
  }

  /** "\u" followed by the four hex digits of one UTF-16 code unit. */
  function UnicodeEscape(unit: int): (r: string)
    requires 0 <= unit < 0x1_0000
    ensures |r| == 6
  {
    "\\u" + Hex4(unit)
  }

  /**
   * The escape of one character. A Java string holds a character above U+FFFF
   * as a surrogate pair, and each half is escaped on its own.
   */
  function EscapeChar(c: char): string {
    if c == '"' then "\\\""
    else if c == '\\' then "\\\\"
    else if c == BACKSPACE then "\\b"
    else if c == FORM_FEED then "\\f"
    else if c == '\n' then "\\n"
    else if c == '\r' then "\\r"
    else if c == '\t' then "\\t"
    else if c == '/' then "\\/"
    else if c as int <= 0x1F || c as int >= 0x7F then
      if c as int < 0x1_0000 then UnicodeEscape(c as int)
      else
        var v := c as int - 0x1_0000;
        UnicodeEscape(0xD800 + v / 0x400) + UnicodeEscape(0xDC00 + v % 0x400)
    else [c]
  }

  /** What `escape(s, sb)` appends. */
  function Escaped(s: string): string {
    if |s| == 0 then "" else EscapeChar(s[0]) + Escaped(s[1..])
  }

  /** `escape(s, sb)`: appends the escaped form of `s`, one character at a time. */
  method Escape(s: string, sb: string) returns (out: string)
    ensures out == sb + Escaped(s)
  {
    out := sb;
    var i := 0;
    while i < |s|
      invariant 0 <= i <= |s|
      invariant out == sb + Escaped(s[..i])
    {
      EscapeStep(s, i, sb, out);
      out := out + EscapeChar(s[i]);
      i := i + 1;
    }
    assert s[..i] == s;
  }

  lemma EscapeStep(s: string, i: int, sb: string, out: string)
    requires 0 <= i < |s|
    requires out == sb + Escaped(s[..i])
    ensures out + EscapeChar(s[i]) == sb + Escaped(s[..i + 1])
  {
    EscapedSnoc(s[..i], s[i]);
    assert s[..i + 1] == s[..i] + [s[i]];
    AppendAssoc(sb, Escaped(s[..i]), EscapeChar(s[i]));
  }

  lemma EscapedSnoc(a: string, c: char)
    ensures Escaped(a + [c]) == Escaped(a) + EscapeChar(c)
  {
    EscapedAppend(a, [c]);
    assert [c][1..] == [];
  }

  lemma {:induction false} EscapedAppend(a: string, b: string)
    ensures Escaped(a + b) == Escaped(a) + Escaped(b)
    decreases |a|
  {
    if |a| > 0 {
      EscapedAppend(a[1..], b);
      assert (a + b)[1..] == a[1..] + b;
    } else {
      assert a + b == b;
    }
  }

  predicate IsPrintableAscii(c: char) { 0x20 <= c as int <= 0x7E }

  lemma EscapeCharPrintable(c: char)
    ensures forall k :: 0 <= k < |EscapeChar(c)| ==> IsPrintableAscii(EscapeChar(c)[k])
  {
  }

  /** The escaped text is pure printable ASCII. */
  lemma {:induction false} EscapedPrintable(s: string)
    ensures forall k :: 0 <= k < |Escaped(s)| ==> IsPrintableAscii(Escaped(s)[k])
    decreases |s|
  {
    if |s| > 0 {
      EscapeCharPrintable(s[0]);
      EscapedPrintable(s[1..]);
      var e := EscapeChar(s[0]);
      var t := Escaped(s[1..]);
      assert Escaped(s) == e + t;
      assert forall k :: |e| <= k < |e + t| ==> (e + t)[k] == t[k - |e|];
    }
  }

  // ---------------------------------------------------------------------
  // Reading escaped text back, as section 7 of RFC 8259 defines it

  function HexValue(c: char): (r: int)
    ensures -1 <= r < 16
  {
    if '0' <= c <= '9' then c as int - '0' as int
    else if 'A' <= c <= 'F' then c as int - 'A' as int + 10
    else if 'a' <= c <= 'f' then c as int - 'a' as int + 10
    else -1
  }

  /** The code unit named by four hex digits, or -1. */
  function Hex4Value(t: string): (r: int)
    requires |t| == 4
    ensures -1 <= r < 0x1_0000
  {
    var a, b, c, d := HexValue(t[0]), HexValue(t[1]), HexValue(t[2]), HexValue(t[3]);
    if a < 0 || b < 0 || c < 0 || d < 0 then -1 else ((a * 16 + b) * 16 + c) * 16 + d
  }

  /** The code unit of a "\uXXXX" escape at the start of `t`, or -1. */
  function UnitAt(t: string): (r: int)
    ensures -1 <= r < 0x1_0000
  {
    if |t| >= 6 && t[0] == '\\' && t[1] == 'u' then Hex4Value(t[2..6]) else -1
  }

  /**
   * Decodes one character at the start of `t`: an escape sequence, a surrogate
   * pair of "\u" escapes, or an unescaped character. Returns the character and
   * how much text it took.
   */
  function DecodeOne(t: string): (r: Option<(char, nat)>)
    ensures r.Some? ==> 0 < r.value.1 <= |t|
  {
    if |t| == 0 then None
    else if t[0] != '\\' then
      if t[0] as int < 0x20 || t[0] == '"' then None else Some((t[0], 1))
    else if |t| < 2 then None
    else if t[1] == '"' || t[1] == '\\' || t[1] == '/' then Some((t[1], 2))
    else if t[1] == 'b' then Some((BACKSPACE, 2))
    else if t[1] == 'f' then Some((FORM_FEED, 2))
    else if t[1] == 'n' then Some(('\n', 2))
    else if t[1] == 'r' then Some(('\r', 2))
    else if t[1] == 't' then Some(('\t', 2))
    else
      var u := UnitAt(t);
      if u < 0 || 0xDC00 <= u < 0xE000 then None
      else if u < 0xD800 || u >= 0xE000 then Some((u as char, 6))
      else
        var lo := UnitAt(t[6..]);
        if 0xDC00 <= lo < 0xE000 then
          Some(((0x1_0000 + (u - 0xD800) * 0x400 + (lo - 0xDC00)) as char, 12))
        else None
  }

  /** The text a JSON string body denotes, or None when it is malformed. */
  function Unescape(t: string): Option<string>
    decreases |t|
  {
    if |t| == 0 then Some("")
    else match DecodeOne(t)
      case None => None
      case Some((c, n)) =>
        match Unescape(t[n..])
        case None => None
        case Some(rest) => Some([c] + rest)
  }

  lemma HexDigitValue(d: int)
    requires 0 <= d < 16
    ensures HexValue(HexDigit(d)) == d
  {
  }

  lemma Hex4Digits(n: int)
    requires 0 <= n < 0x1_0000
    ensures ((n / 0x1000 * 16 + n / 0x100 % 16) * 16 + n / 0x10 % 16) * 16 + n % 16 == n
  {
    var q1 := n / 16;
    var q2 := q1 / 16;
    assert n / 0x100 == q2;
    assert n / 0x1000 == q2 / 16;
    assert q2 / 16 * 16 + q2 % 16 == q2;
    assert q2 * 16 + q1 % 16 == q1;
    assert q1 * 16 + n % 16 == n;
  }

  lemma Hex4RoundTrip(n: int)
    requires 0 <= n < 0x1_0000
    ensures Hex4Value(Hex4(n)) == n
  {
    HexDigitValue(n / 0x1000);
    HexDigitValue(n / 0x100 % 16);
    HexDigitValue(n / 0x10 % 16);
    HexDigitValue(n % 16);
    Hex4Digits(n);
  }

  lemma UnicodeEscapeDecodes(unit: int, rest: string)
    requires 0 <= unit < 0x1_0000
    ensures UnitAt(UnicodeEscape(unit) + rest) == unit
  {
    var t := UnicodeEscape(unit) + rest;
    Hex4RoundTrip(unit);
    assert t[2..6] == Hex4(unit);
  }

  predicate ShortEscaped(c: char) {
    c in {'"', '\\', BACKSPACE, FORM_FEED, '\n', '\r', '\t', '/'}
  }

  predicate UnitEscaped(c: char) {
    !ShortEscaped(c) && (c as int <= 0x1F || c as int >= 0x7F)
  }

  lemma DecodeShort(c: char, rest: string)
    requires ShortEscaped(c)
    ensures DecodeOne(EscapeChar(c) + rest) == Some((c, 2))
  {
  }

  lemma DecodePlain(c: char, rest: string)
    requires !ShortEscaped(c) && !UnitEscaped(c)
    ensures DecodeOne(EscapeChar(c) + rest) == Some((c, 1))
  {
    assert EscapeChar(c) == [c];
  }

  lemma DecodeBmp(c: char, rest: string)
    requires UnitEscaped(c) && c as int < 0x1_0000
    ensures DecodeOne(EscapeChar(c) + rest) == Some((c, 6))
  {
    var t := EscapeChar(c) + rest;
    assert EscapeChar(c) == UnicodeEscape(c as int);
    UnicodeEscapeDecodes(c as int, rest);
    assert t[0] == '\\' && t[1] == 'u';
  }

  /** The UTF-16 surrogate pair of a supplementary character recombines to it. */
  lemma SurrogateArith(c: char)
    requires c as int >= 0x1_0000
    ensures var v := c as int - 0x1_0000;
      0xD800 <= 0xD800 + v / 0x400 < 0xDC00 && 0xDC00 <= 0xDC00 + v % 0x400 < 0xE000 &&
      0x1_0000 + v / 0x400 * 0x400 + v % 0x400 == c as int
  {
  }

  lemma EscapeCharPair(c: char)
    requires c as int >= 0x1_0000
    ensures var v := c as int - 0x1_0000;
      EscapeChar(c) == UnicodeEscape(0xD800 + v / 0x400) + UnicodeEscape(0xDC00 + v % 0x400)
  {
  }

  lemma DecodeSurrogates(hi: int, lo: int, rest: string)
    requires 0xD800 <= hi < 0xDC00 && 0xDC00 <= lo < 0xE000
    ensures DecodeOne(UnicodeEscape(hi) + (UnicodeEscape(lo) + rest))
         == Some(((0x1_0000 + (hi - 0xD800) * 0x400 + (lo - 0xDC00)) as char, 12))
  {
    var t := UnicodeEscape(hi) + (UnicodeEscape(lo) + rest);
    UnicodeEscapeDecodes(hi, UnicodeEscape(lo) + rest);
    assert t[6..] == UnicodeEscape(lo) + rest;
    UnicodeEscapeDecodes(lo, rest);
    assert t[0] == '\\' && t[1] == 'u';
  }

  lemma DecodePair(c: char, rest: string)
    requires c as int >= 0x1_0000
    ensures DecodeOne(EscapeChar(c) + rest) == Some((c, 12))
  {
    var v := c as int - 0x1_0000;
    var hi, lo := 0xD800 + v / 0x400, 0xDC00 + v % 0x400;
    SurrogateArith(c);
    EscapeCharPair(c);
    assert EscapeChar(c) + rest == UnicodeEscape(hi) + (UnicodeEscape(lo) + rest);
    DecodeSurrogates(hi, lo, rest);
  }

  /** Decoding the escape of `c` gives `c` back and consumes exactly the escape. */
  lemma DecodeEscapeChar(c: char, rest: string)
    ensures DecodeOne(EscapeChar(c) + rest) == Some((c, |EscapeChar(c)|))
  {
    if ShortEscaped(c) {
      DecodeShort(c, rest);
    } else if !UnitEscaped(c) {
      DecodePlain(c, rest);
    } else if c as int < 0x1_0000 {
      DecodeBmp(c, rest);
    } else {
      DecodePair(c, rest);
    }
  }

  /** One decoding step: a character decoded at the front, then the rest of the text. */
  lemma UnescapeStep(t: string, c: char, n: nat, rest: string)
    requires DecodeOne(t) == Some((c, n)) && Unescape(t[n..]) == Some(rest)
    ensures Unescape(t) == Some([c] + rest)
  {
  }

  /** Unescaping the output of `escape` recovers the input. */
  lemma {:induction false} EscapeRoundTrip(s: string)
    ensures Unescape(Escaped(s)) == Some(s)
    decreases |s|
  {
    if |s| > 0 {
      var e := EscapeChar(s[0]);
      var t := Escaped(s[1..]);
      assert Escaped(s) == e + t;
      DecodeEscapeChar(s[0], t);
      EscapeRoundTrip(s[1..]);
      assert (e + t)[|e|..] == t;
      UnescapeStep(e + t, s[0], |e|, s[1..]);
      assert [s[0]] + s[1..] == s;
    }
  }

  // ---------------------------------------------------------------------
  // appendJson

  /** Parts joined with ",". */
  function JoinComma(parts: seq<string>): string {
    if |parts| == 0 then ""
    else if |parts| == 1 then parts[0]
    else JoinComma(parts[..|parts| - 1]) + "," + parts[|parts| - 1]
  }

  /** A string written as a JSON string literal. */
  function Quoted(s: string): string {
    "\"" + Escaped(s) + "\""
  }

  /** What `appendJson(v, sb)` appends for the value kinds it handles without reflection. */
  function Stringify(v: JValue): string
    decreases v, 1
  {
    match v
    case JNull => "null"
    case JBool(b) => if b then "true" else "false"
    case JStr(s) => Quoted(s)
    case JNum(text) => text
    case JObj(fields) => "{" + JoinComma(MemberTexts(fields, v)) + "}"
    case JArr(items) => "[" + JoinComma(ItemTexts(items, v)) + "]"
  }

  /** `"key": value` for each member. */
  function MemberTexts(fields: seq<(string, JValue)>, ghost parent: JValue): (r: seq<string>)
    requires forall i :: 0 <= i < |fields| ==> fields[i].1 < parent
    ensures |r| == |fields|
    decreases parent, 0, |fields|
  {
    if |fields| == 0 then []
    else [Quoted(fields[0].0) + ": " + Stringify(fields[0].1)] + MemberTexts(fields[1..], parent)
  }

  lemma {:induction false} MemberTextAt(fields: seq<(string, JValue)>, parent: JValue, i: int)
    requires forall i :: 0 <= i < |fields| ==> fields[i].1 < parent
    requires 0 <= i < |fields|
    ensures MemberTexts(fields, parent)[i] == Quoted(fields[i].0) + ": " + Stringify(fields[i].1)
    decreases i
  {
    if i > 0 {
      MemberTextAt(fields[1..], parent, i - 1);
    }
  }

  function ItemTexts(items: seq<JValue>, ghost parent: JValue): (r: seq<string>)
    requires forall i :: 0 <= i < |items| ==> items[i] < parent
    ensures |r| == |items|
    ensures forall i :: 0 <= i < |items| ==> r[i] == Stringify(items[i])
    decreases parent, 0, |items|
  {
    if |items| == 0 then [] else [Stringify(items[0])] + ItemTexts(items[1..], parent)
  }

  /** The string branch of `appendJson`: a quote, the escaped text, a quote. */
  method AppendString(s: string, sb: string) returns (out: string)
    ensures out == sb + Quoted(s)
  {
    out := sb + "\"";
    out := Escape(s, out);
    out := out + "\"";
  }

  /**
   * `appendJson(v, sb)`: null, booleans, strings and numbers directly; maps as
   * `{` + members joined by "," + `}`; lists and arrays as `[` + elements
   * joined by "," + `]`.
   */
  method AppendJson(v: JValue, sb: string) returns (out: string)
    ensures out == sb + Stringify(v)
    decreases v, 2
  {
    match v {
      case JNull => out := sb + "null";
      case JBool(b) => out := sb + if b then "true" else "false";
      case JStr(s) => out := AppendString(s, sb);
      case JNum(text) => out := sb + text;
      case JObj(fields) =>
        out := AppendMembers(fields, v, sb + "{");
        out := out + "}";
        BracketAssoc(sb, "{", JoinComma(MemberTexts(fields, v)), "}");
      case JArr(items) =>
        out := AppendItems(items, v, sb + "[");
        out := out + "]";
        BracketAssoc(sb, "[", JoinComma(ItemTexts(items, v)), "]");
    }
  }

  /** One entry of a map: its key as a string, ": ", then its value. */
  method AppendMember(entry: (string, JValue), ghost parent: JValue, sb: string) returns (out: string)
    requires entry.1 < parent
    ensures out == sb + (Quoted(entry.0) + ": " + Stringify(entry.1))
    decreases parent, 0
  {
    out := AppendString(entry.0, sb);
    out := out + ": ";
    out := AppendJson(entry.1, out);
  }

  /** The loop over a map's entries in `appendJson`. */
  method AppendMembers(fields: seq<(string, JValue)>, ghost parent: JValue, sb: string) returns (out: string)
    requires forall i :: 0 <= i < |fields| ==> fields[i].1 < parent
    ensures out == sb + JoinComma(MemberTexts(fields, parent))
    decreases parent, 1
  {
    ghost var texts := MemberTexts(fields, parent);
    out := sb;
    var first := true;
    var i := 0;
    while i < |fields|
      invariant 0 <= i <= |fields|
      invariant first <==> i == 0
      invariant out == sb + JoinComma(texts[..i])
    {
      ghost var before := out;
      var sep := if first then "" else ",";
      first := false;
      out := AppendMember(fields[i], parent, out + sep);
      MemberTextAt(fields, parent, i);
      AppendAssoc(before, sep, texts[i]);
      JoinCommaSnoc(texts, i);
      AppendAssoc(sb, JoinComma(texts[..i]), sep + texts[i]);
      i := i + 1;
    }
    assert texts[..i] == texts;
  }

  /** The loop over a list's elements in `appendJson`. */
  method AppendItems(items: seq<JValue>, ghost parent: JValue, sb: string) returns (out: string)
    requires forall i :: 0 <= i < |items| ==> items[i] < parent
    ensures out == sb + JoinComma(ItemTexts(items, parent))
    decreases parent, 1
  {
    ghost var texts := ItemTexts(items, parent);
    out := sb;
    var count := 0;
    while count < |items|
      invariant 0 <= count <= |items|
      invariant out == sb + JoinComma(texts[..count])
    {
      ghost var before := out;
      var sep := if count > 0 then "," else "";
      out := AppendJson(items[count], out + sep);
      assert texts[count] == Stringify(items[count]);
      AppendAssoc(before, sep, texts[count]);
      JoinCommaSnoc(texts, count);
      AppendAssoc(sb, JoinComma(texts[..count]), sep + texts[count]);
      count := count + 1;
    }
    assert texts[..count] == texts;
  }

  lemma BracketAssoc(sb: string, open: string, body: string, close: string)
    ensures sb + open + body + close == sb + (open + body + close)
  {
  }

  lemma AppendAssoc(a: string, b: string, c: string)
    ensures a + b + c == a + (b + c)
  {
  }

  lemma MemberAssoc(a: string, sep: string, key: string, value: string)
    ensures a + sep + key + ": " + value == a + (sep + (key + ": " + value))
  {
  }

  lemma JoinCommaSnoc(texts: seq<string>, i: int)
    requires 0 <= i < |texts|
    ensures JoinComma(texts[..i + 1]) == JoinComma(texts[..i]) + ((if i == 0 then "" else ",") + texts[i])
  {
    assert texts[..i + 1][..i] == texts[..i];
  }

  /** `stringifyJson(v)`: the serialised text of `v` on its own. */
  method StringifyJson(v: JValue) returns (r: string)
    ensures r == Stringify(v)
  {
    r := AppendJson(v, "");
  }

  predicate AsciiText(s: string) { forall k :: 0 <= k < |s| ==> IsPrintableAscii(s[k]) }

  /** All numbers' texts are printable ASCII (as `toString` of a Java number is). */
  predicate NumbersAscii(v: JValue) {
    match v
    case JNum(text) => AsciiText(text)
    case JObj(fields) => forall i :: 0 <= i < |fields| ==> NumbersAscii(fields[i].1)
    case JArr(items) => forall i :: 0 <= i < |items| ==> NumbersAscii(items[i])
    case _ => true
  }

  lemma AsciiConcat(a: string, b: string)
    requires AsciiText(a) && AsciiText(b)
    ensures AsciiText(a + b)
  {
    assert forall k :: |a| <= k < |a + b| ==> (a + b)[k] == b[k - |a|];
  }

  lemma QuotedAscii(s: string)
    ensures AsciiText(Quoted(s))
  {
    EscapedPrintable(s);
    AsciiConcat("\"", Escaped(s));
    AsciiConcat("\"" + Escaped(s), "\"");
  }

  lemma {:induction false} JoinCommaAscii(parts: seq<string>)
    requires forall i :: 0 <= i < |parts| ==> AsciiText(parts[i])
    ensures AsciiText(JoinComma(parts))
    decreases |parts|
  {
    if |parts| > 1 {
      var init := parts[..|parts| - 1];
      JoinCommaAscii(init);
      AsciiConcat(JoinComma(init), ",");
      AsciiConcat(JoinComma(init) + ",", parts[|parts| - 1]);
    }
  }

  lemma Bracketed(open: string, body: string, close: string)
    requires AsciiText(open) && AsciiText(body) && AsciiText(close)
    ensures AsciiText(open + body + close)
  {
    AsciiConcat(open, body);
    AsciiConcat(open + body, close);
  }

  /** The serialised text is printable ASCII: strings are escaped, so no control or non-ASCII character leaks out. */
  lemma {:induction false} StringifyAscii(v: JValue)
    requires NumbersAscii(v)
    ensures AsciiText(Stringify(v))
    decreases v
  {
    match v {
      case JStr(s) => QuotedAscii(s);
      case JObj(fields) =>
        var texts := MemberTexts(fields, v);
        forall i | 0 <= i < |fields|
          ensures AsciiText(texts[i])
        {
          QuotedAscii(fields[i].0);
          StringifyAscii(fields[i].1);
          MemberTextAt(fields, v, i);
          AsciiConcat(Quoted(fields[i].0), ": ");
          AsciiConcat(Quoted(fields[i].0) + ": ", Stringify(fields[i].1));
        }
        JoinCommaAscii(texts);
        Bracketed("{", JoinComma(texts), "}");
      case JArr(items) =>
        var texts := ItemTexts(items, v);
        forall i | 0 <= i < |items|
          ensures AsciiText(texts[i])
        {
          StringifyAscii(items[i]);
        }
        JoinCommaAscii(texts);
        Bracketed("[", JoinComma(texts), "]");
      case _ =>
    }
  }
}

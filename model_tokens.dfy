/**
 * Value and block-name tokens of dynmap's model and texture definition
 * files (`getIntValue` and `getBlockName`, which `HDBlockModels` and
 * `TexturePack` each carry a textually identical copy of).
 *
 * A value token is either a number or a variable name, optionally followed
 * by "+offset"; names starting with '%' or '&' stand for block and item
 * unique ids and are created as 0 on first use. A block-name token is
 * qualified with the current mod id unless it already names one.
 */
module ModelTokens {
  import opened JavaLang

  /** `Character.isLetter`, restricted to ASCII letters. */
  predicate IsLetter(c: char) { IsAsciiLetter(c) }

  /** A token that names a variable or block rather than a number. */
  predicate NameStart(c: char) { IsLetter(c) || c == '%' || c == '&' }

  /** A unique-id reference ('%' for blocks, '&' for items). */
  predicate UniqueIdStart(c: char) { c == '%' || c == '&' }

  /** The stored value with the offset applied, which only positive values take. */
  function WithOffset(v: int, offset: int): (r: int)
    ensures v <= 0 || offset == 0 ==> r == v
    ensures IsInt32(v) && IsInt32(offset) && v > 0 && offset != 0 ==> (r - (v + offset)) % TWO32 == 0 && IsInt32(r)
  {
    if offset != 0 && v > 0 then Wrap32(v + offset) else v
  }

  /**
   * `getIntValue(vars, val)`: the value of a token and the variable map
   * afterwards (a '%'/'&' name seen for the first time is stored as 0).
   * An empty token fails on `charAt(0)`; an unknown plain name, a bad offset
   * or a bad number fail with NumberFormatException.
   */
  function GetIntValue(vars: map<string, int>, val: string): (r: (Result<int>, map<string, int>))
    ensures r.0.Err? ==> r.1 == vars
    ensures vars.Keys <= r.1.Keys && forall k :: k in vars ==> r.1[k] == vars[k]
    ensures forall k :: k in r.1 && k !in vars ==> r.1[k] == 0 && r.0 == Ok(0)
    ensures |val| == 0 ==> r.0 == Err(StringIndexOutOfBoundsException)
    ensures |val| > 0 && !NameStart(val[0]) ==> r == (if ParseInt(val).Some? then Ok(ParseInt(val).value) else Err(NumberFormatException), vars)
  {
    if |val| == 0 then (Err(StringIndexOutOfBoundsException), vars)
    else if NameStart(val[0]) then
      var off := IndexOf(val, '+');
      var offset := if off > 0 then ParseInt(val[off + 1..]) else Some(0);
      var name := if off > 0 then val[..off] else val;
      if offset.None? then (Err(NumberFormatException), vars)
      else if name in vars then (Ok(WithOffset(vars[name], offset.value)), vars)
      else if UniqueIdStart(val[0]) then (Ok(0), vars[name := 0])
      else (Err(NumberFormatException), vars)
    else
      var n := ParseInt(val);
      if n.Some? then (Ok(n.value), vars) else (Err(NumberFormatException), vars)
  }

  /** A printed 32-bit number reads back as itself and leaves the variables alone. */
  lemma GetIntValueOfNumber(vars: map<string, int>, n: int)
    requires IsInt32(n)
    ensures GetIntValue(vars, IntToString(n)) == (Ok(n), vars)
  {
    ParseIntOfToString(n);
    var s := IntToString(n);
    assert s[0] in s;
  }

  /** A variable name (no '+') reads back its stored value; an offset is added only to a positive value. */
  lemma GetIntValueOfName(vars: map<string, int>, name: string, k: int)
    requires |name| > 0 && NameStart(name[0]) && '+' !in name
    requires name in vars && IsInt32(k)
    ensures GetIntValue(vars, name) == (Ok(vars[name]), vars)
    ensures GetIntValue(vars, name + "+" + IntToString(k)) == (Ok(WithOffset(vars[name], k)), vars)
  {
    var s := name + "+" + IntToString(k);
    IndexOfConcat(name, '+', IntToString(k));
    assert s[0] == name[0];
    assert s[|name| + 1..] == IntToString(k);
    assert s[..|name|] == name;
    ParseIntOfToString(k);
  }

  /** An unknown plain name is an error; an unknown unique-id name becomes 0. */
  lemma GetIntValueUnknown(vars: map<string, int>, name: string)
    requires |name| > 0 && NameStart(name[0]) && '+' !in name && name !in vars
    ensures UniqueIdStart(name[0]) ==> GetIntValue(vars, name) == (Ok(0), vars[name := 0])
    ensures !UniqueIdStart(name[0]) ==> GetIntValue(vars, name) == (Err(NumberFormatException), vars)
  {
  }

  /**
   * Reading a token a second time, against the map the first read left,
   * gives the same value and changes nothing further.
   */
  lemma GetIntValueStable(vars: map<string, int>, val: string)
    ensures var (r1, vars1) := GetIntValue(vars, val);
      GetIntValue(vars1, val) == (r1, vars1)
  {
  }

  /**
   * `getBlockName(modid, val)`: drops a leading '%'/'&', cuts at the first
   * '+' past the start, and prefixes "modid:" unless the name has a ':'.
   * Tokens that do not start with a letter, '%' or '&' are rejected.
   */
  function GetBlockName(modid: string, val: string): (r: Result<string>)
    ensures r.Ok? <==> |val| > 0 && NameStart(val[0])
    ensures |val| == 0 ==> r == Err(StringIndexOutOfBoundsException)
    ensures |val| > 0 && !NameStart(val[0]) ==> r == Err(NumberFormatException)
    ensures r.Ok? ==> ':' in r.value
  {
    if |val| == 0 then Err(StringIndexOutOfBoundsException)
    else if !NameStart(val[0]) then Err(NumberFormatException)
    else
      var v := if UniqueIdStart(val[0]) then val[1..] else val;
      var off := IndexOf(v, '+');
      var cut := if off > 0 then v[..off] else v;
      if ':' in cut then Ok(cut) else Ok(modid + ":" + cut)
  }

  /** A qualified name with no '+' and no prefix character comes back unchanged. */
  lemma GetBlockNameQualified(modid: string, name: string)
    requires |name| > 0 && IsLetter(name[0]) && ':' in name && '+' !in name
    ensures GetBlockName(modid, name) == Ok(name)
  {
  }

  /** A plain name is qualified with the mod id; a '%' or '&' in front makes no difference. */
  lemma GetBlockNamePlain(modid: string, name: string)
    requires |name| > 0 && IsLetter(name[0]) && ':' !in name && '+' !in name
    ensures GetBlockName(modid, name) == Ok(modid + ":" + name)
    ensures GetBlockName(modid, "%" + name) == Ok(modid + ":" + name)
    ensures GetBlockName(modid, "&" + name) == Ok(modid + ":" + name)
  {
    assert ("%" + name)[1..] == name;
    assert ("&" + name)[1..] == name;
  }

  /**
   * Resolving is idempotent: a resolved name that starts with a letter
   * resolves to itself, unless the token was a '%'/'&' followed by '+'
   * (then the '+' is kept and a second pass would cut the name there).
   */
  lemma GetBlockNameIdempotent(modid: string, val: string)
    requires '+' !in modid
    requires GetBlockName(modid, val).Ok?
    requires !(|val| > 1 && UniqueIdStart(val[0]) && val[1] == '+')
    ensures var n := GetBlockName(modid, val).value;
      |n| > 0 && IsLetter(n[0]) ==> GetBlockName(modid, n) == Ok(n)
  {
    var v := if UniqueIdStart(val[0]) then val[1..] else val;
    var off := IndexOf(v, '+');
    var cut := if off > 0 then v[..off] else v;
    assert '+' !in cut by {
      if off <= 0 {
        assert off == -1 by {
          if off == 0 {
            assert false;
          }
        }
      }
    }
    var n := GetBlockName(modid, val).value;
    assert '+' !in n by {
      if ':' !in cut {
        assert n == modid + ":" + cut;
      }
    }
  }
}

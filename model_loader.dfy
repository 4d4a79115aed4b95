/**
 * The per-file state of `HDBlockModels.loadModelFile` and the directives
 * that change it: `block:`, `layer:` and the pattern rows after it, which
 * fill volumetric models one row of subblocks at a time; `rotate:`, which
 * copies a registered volumetric model turned about the Y axis; `boxlist:`,
 * whose `box=` values fall through from the last field to the first; and
 * `ignore-updates:`, which flags block states whose changes are ignored.
 *
 * Every directive is a comma-separated list of `key=value` arguments; ids go
 * through `getBlockName`, numbers through `getIntValue` or `parseInt`, and a
 * `data=` value sets bits of a data-value set ("*" clears it, "a-b" sets a
 * range). An exception ends the loading of the file, so the models say what
 * a directive does when it completes and which exception it raises
 * otherwise.
 */
module ModelFileLoader {
  import opened JavaLang
  import opened ModelTokens
  import opened HDBlockModels

  /** What a directive line leads to: the next line, the end of the file, or an exception. */
  datatype LineOutcome = Continue | Abort | Thrown(error: JavaException)

  // ---------------------------------------------------------------------
  // data= values

  /** The indices `lo` up to (not including) `hi`. */
  function Range(lo: int, hi: int): (r: set<int>)
    ensures forall m :: m in r <==> lo <= m < hi
    decreases hi - lo
  {
    if lo >= hi then {} else Range(lo, hi - 1) + {hi - 1}
  }

  /**
   * `for (m = m0; m <= m1; m++) databits.set(m)`: a negative index throws,
   * and an upper end of `Integer.MAX_VALUE` makes `m` wrap to
   * `Integer.MIN_VALUE`, which throws too (a larger end cannot occur in
   * Java and is treated alike).
   */
  function RangeBits(bits: set<int>, m0: int, m1: int): (r: Result<set<int>>)
    ensures m0 > m1 ==> r == Ok(bits)
    ensures m0 <= m1 ==> (r.Ok? <==> 0 <= m0 && m1 < INT_MAX)
    ensures r.Ok? ==> forall m :: m in r.value <==> m in bits || m0 <= m <= m1
  {
    if m0 > m1 then Ok(bits)
    else if m0 < 0 || m1 >= INT_MAX then Err(IndexOutOfBoundsException)
    else Ok(bits + Range(m0, m1 + 1))
  }

  /**
   * A `data=` value: "*" clears the set; a value with a '-' past its first
   * character is a range "a-b" of two `getIntValue` tokens; anything else is
   * one `getIntValue` token. The variables come back as `getIntValue`
   * leaves them.
   */
  function DataBits(bits: set<int>, vars: map<string, int>, val: string): (r: Result<(set<int>, map<string, int>)>)
    ensures val == "*" ==> r == Ok(({}, vars))
    ensures val != "*" && r.Ok? ==> bits <= r.value.0
    ensures val != "*" && IndexOf(val, '-') <= 0 ==>
      (r.Ok? <==> GetIntValue(vars, val).0.Ok? && GetIntValue(vars, val).0.value >= 0)
    ensures val != "*" && IndexOf(val, '-') <= 0 && r.Ok? ==> r.value.0 == bits + {GetIntValue(vars, val).0.value}
  {
    if val == "*" then Ok(({}, vars))
    else if IndexOf(val, '-') > 0 then
      var sp := Split(val, {'-'});
      if |sp| == 0 then Err(ArrayIndexOutOfBoundsException)
      else
        var (a, vars1) := GetIntValue(vars, sp[0]);
        if a.Err? then Err(a.error)
        else if |sp| < 2 then Err(ArrayIndexOutOfBoundsException)
        else
          var (b, vars2) := GetIntValue(vars1, sp[1]);
          if b.Err? then Err(b.error)
          else
            var range := RangeBits(bits, a.value, b.value);
            if range.Err? then Err(range.error) else Ok((range.value, vars2))
    else
      var (v, vars1) := GetIntValue(vars, val);
      if v.Err? then Err(v.error)
      else if v.value < 0 then Err(IndexOutOfBoundsException)
      else Ok((bits + {v.value}, vars1))
  }

  /** A printed natural has no '-' in it. */
  lemma NoDashInNat(a: nat)
    ensures '-' !in IntToString(a)
  {
    var sa := IntToString(a);
    DigitsOfNatToString(a);
    assert forall i :: 0 <= i < |sa| ==> IsDigit(sa[i]);
  }

  /** "a-b" for two printed naturals splits into the two numerals. */
  lemma SplitDash(a: nat, b: nat)
    ensures var sa, sb := IntToString(a), IntToString(b);
      IndexOf(sa + "-" + sb, '-') == |sa| > 0 && Split(sa + "-" + sb, {'-'}) == [sa, sb]
  {
    var sa, sb := IntToString(a), IntToString(b);
    NoDashInNat(a);
    NoDashInNat(b);
    IndexOfConcat(sa, '-', sb);
    SplitOfJoin([sa, sb], '-', {'-'});
    assert Join([sa, sb], '-') == sa + "-" + sb by {
      assert Join([sa, sb][1..], '-') == sb;
    }
  }

  /** "a-" for a printed natural splits into the one numeral. */
  lemma SplitOpenDash(a: nat)
    ensures var sa := IntToString(a);
      IndexOf(sa + "-", '-') == |sa| > 0 && Split(sa + "-", {'-'}) == [sa]
  {
    var sa := IntToString(a);
    NoDashInNat(a);
    IndexOfConcat(sa, '-', "");
    assert sa + "-" + "" == sa + "-";
    PiecesOfAppend(sa, '-', "", {'-'});
    PiecesOfPlain(sa, {'-'});
    assert Pieces(sa + "-", {'-'}) == [sa, ""];
    assert [sa, ""][..1] == [sa];
    assert DropTrailingEmpty([sa]) == [sa];
  }

  /** A range of two numbers, low end first, sets exactly that range. */
  lemma DataBitsRange(bits: set<int>, vars: map<string, int>, a: nat, b: nat)
    requires a <= b < INT_MAX
    ensures DataBits(bits, vars, IntToString(a) + "-" + IntToString(b)) == Ok((bits + Range(a, b + 1), vars))
  {
    var sa, sb := IntToString(a), IntToString(b);
    SplitDash(a, b);
    GetIntValueOfNumber(vars, a);
    GetIntValueOfNumber(vars, b);
    assert (sa + "-" + sb) != "*" by {
      assert |sa| > 0;
    }
  }

  /** A range with no upper end ("a-") fails on the missing second field. */
  lemma DataBitsOpenRange(bits: set<int>, vars: map<string, int>, a: nat)
    requires a < INT_MAX
    ensures DataBits(bits, vars, IntToString(a) + "-") == Err(ArrayIndexOutOfBoundsException)
  {
    var sa := IntToString(a);
    SplitOpenDash(a);
    GetIntValueOfNumber(vars, a);
    assert (sa + "-") != "*" by {
      assert |sa| > 0;
    }
  }

  // ---------------------------------------------------------------------
  // Directive arguments

  datatype Directive = BlockDef | Rotate | BoxList | IgnoreUpdates

  /**
   * One `box=` value, the doubles left as text: a field that is absent keeps
   * its default (0.0 for a minimum, 1.0 for a maximum); `patches` holds the
   * six face patch indices.
   */
  datatype BoxLimits = BoxLimits(xmin: Option<string>, xmax: Option<string>, ymin: Option<string>,
                                 ymax: Option<string>, zmin: Option<string>, zmax: Option<string>,
                                 patches: seq<int>)

  /** Field `i` of a `box=` value, if the value has one. */
  function Field(f: seq<string>, i: nat): Option<string> {
    if i < |f| then Some(f[i]) else None
  }

  /** The six patch indices: the first ones parsed from the '/' list, the rest 0. */
  function PatchIndices(tokens: seq<string>, i: nat): (r: Result<seq<int>>)
    requires i <= 6
    ensures r.Ok? ==> |r.value| == 6 - i
    ensures r.Ok? <==> forall k :: i <= k < 6 && k < |tokens| ==> ParseInt(tokens[k]).Some?
    ensures r.Ok? ==> forall k :: 0 <= k < 6 - i ==>
      r.value[k] == if i + k < |tokens| then ParseInt(tokens[i + k]).value else 0
    ensures r.Err? ==> r.error == NumberFormatException
    decreases 6 - i
  {
    if i == 6 then Ok([])
    else
      var rest := PatchIndices(tokens, i + 1);
      if i < |tokens| && ParseInt(tokens[i]).None? then Err(NumberFormatException)
      else if rest.Err? then rest
      else
        Ok([if i < |tokens| then ParseInt(tokens[i]).value else 0] + rest.value)
  }

  /** Each of the first six fields that is present is a number `Double.parseDouble` reads. */
  predicate LimitsAreNumbers(f: seq<string>) {
    forall i :: 0 <= i < |f| && i < 6 ==> IsJavaDouble(f[i])
  }

  /**
   * A `box=` value split at ':': with seven or more fields the seventh is the
   * patch list, then each field from the sixth (zmax) down to the first
   * (xmin) is read by `Double.parseDouble`, as the switch falls through from
   * the field count. A patch or a limit that is not a number throws.
   */
  function BoxOf(value: string): (r: Result<BoxLimits>)
    ensures var f := Split(value, {':'});
      r.Err? <==> (|f| >= 7 && PatchIndices(Split(f[6], {'/'}), 0).Err?) || !LimitsAreNumbers(f)
    ensures r.Err? ==> r.error == NumberFormatException
    ensures r.Ok? ==> |r.value.patches| == 6
  {
    var f := Split(value, {':'});
    var patches := if |f| >= 7 then PatchIndices(Split(f[6], {'/'}), 0) else Ok([0, 0, 0, 0, 0, 0]);
    if patches.Err? then Err(patches.error)
    else if !LimitsAreNumbers(f) then Err(NumberFormatException)
    else Ok(BoxLimits(Field(f, 0), Field(f, 1), Field(f, 2), Field(f, 3), Field(f, 4), Field(f, 5), patches.value))
  }

  /** The limit fields of a box in order xmin, xmax, ymin, ymax, zmin, zmax. */
  function Limits(b: BoxLimits): seq<Option<string>> {
    [b.xmin, b.xmax, b.ymin, b.ymax, b.zmin, b.zmax]
  }

  /**
   * The fall-through: a box of `n` fields takes exactly its first `n` limits
   * (up to six) from them, in order, and keeps the defaults after them.
   */
  lemma BoxFallsThrough(value: string)
    requires BoxOf(value).Ok?
    ensures var f := Split(value, {':'});
      forall i :: 0 <= i < 6 ==> Limits(BoxOf(value).value)[i] == (if i < |f| then Some(f[i]) else None)
    ensures |Split(value, {':'})| < 7 ==> BoxOf(value).value.patches == [0, 0, 0, 0, 0, 0]
  {
    var f := Split(value, {':'});
    var patches := if |f| >= 7 then PatchIndices(Split(f[6], {'/'}), 0) else Ok([0, 0, 0, 0, 0, 0]);
    assert patches.Ok? && LimitsAreNumbers(f);
    assert BoxOf(value).value == BoxLimits(Field(f, 0), Field(f, 1), Field(f, 2), Field(f, 3), Field(f, 4), Field(f, 5), patches.value);
  }

  /** Every limit a box that loads takes from its value is a number `Double.parseDouble` reads. */
  lemma BoxLimitsAreNumbers(value: string, i: int)
    requires BoxOf(value).Ok? && 0 <= i < 6
    ensures var x := Limits(BoxOf(value).value)[i]; x.Some? ==> IsJavaDouble(x.value)
  {
    var f := Split(value, {':'});
    BoxFallsThrough(value);
    assert LimitsAreNumbers(f);
    if i < |f| {
      assert IsJavaDouble(f[i]);
    }
  }

  /** A `box=` value whose first limit starts with a letter, as in "box=a", throws. */
  lemma BoxOfLetterThrows(value: string)
    requires var f := Split(value, {':'}); |f| > 0 && |f[0]| > 0 && IsAsciiLetter(f[0][0]) && f[0][0] != 'N' && f[0][0] != 'I'
    ensures BoxOf(value) == Err(NumberFormatException)
  {
    var f := Split(value, {':'});
    LetterIsNotDouble(f[0]);
    assert !LimitsAreNumbers(f);
  }

  /** What the arguments of a directive amount to once read. */
  datatype Args = Args(names: seq<string>, bits: set<int>, vars: map<string, int>,
                       data: int, rot: int, scale: int, boxes: seq<BoxLimits>)

  /** The keys each directive reads (`id` and, except in rotate, `data` share their handling). */
  function ArgStep(d: Directive, modname: string, st: Args, a: string): (r: Result<Args>)
    ensures r.Ok? ==> |r.value.names| <= |st.names| + 1 && st.names <= r.value.names
    ensures r.Ok? && d != Rotate ==> r.value.data == st.data
    ensures r.Ok? && d == Rotate ==> r.value.bits == st.bits
  {
    var av := Split(a, {'='});
    if |av| < 2 then Ok(st)
    else
      var key, value := av[0], av[1];
      if key == "id" then
        var n := GetBlockName(modname, value);
        if n.Err? then Err(n.error) else Ok(st.(names := st.names + [n.value]))
      else if key == "data" && d == Rotate then
        var (v, vars1) := GetIntValue(st.vars, value);
        if v.Err? then Err(v.error) else Ok(st.(data := v.value, vars := vars1))
      else if key == "data" then
        var b := DataBits(st.bits, st.vars, value);
        if b.Err? then Err(b.error) else Ok(st.(bits := b.value.0, vars := b.value.1))
      else if key == "scale" && d == BlockDef then
        var n := ParseInt(value);
        if n.None? then Err(NumberFormatException) else Ok(st.(scale := n.value))
      else if key == "rot" && d == Rotate then
        var n := ParseInt(value);
        if n.None? then Err(NumberFormatException) else Ok(st.(rot := n.value))
      else if key == "box" && d == BoxList then
        var b := BoxOf(value);
        if b.Err? then Err(b.error) else Ok(st.(boxes := st.boxes + [b.value]))
      else Ok(st)
  }

  /** The arguments read left to right, stopping at the first exception. */
  function ArgsFrom(d: Directive, modname: string, st: Args, args: seq<string>): (r: Result<Args>)
    ensures r.Ok? ==> st.names <= r.value.names
    ensures r.Ok? && d == Rotate ==> r.value.bits == st.bits
    decreases |args|
  {
    if |args| == 0 then Ok(st)
    else
      var next := ArgStep(d, modname, st, args[0]);
      if next.Err? then Err(next.error) else ArgsFrom(d, modname, next.value, args[1..])
  }

  /** Reading from position i takes argument i, then the rest unless it threw. */
  lemma ArgsFromAt(d: Directive, modname: string, st: Args, args: seq<string>, i: int)
    requires 0 <= i < |args|
    ensures ArgsFrom(d, modname, st, args[i..]) ==
      (var next := ArgStep(d, modname, st, args[i]);
       if next.Err? then Err(next.error) else ArgsFrom(d, modname, next.value, args[i + 1..]))
  {
    assert args[i..][1..] == args[i + 1..];
  }

  /** Reading one more argument extends the prefix read so far. */
  lemma {:induction false} ArgsFromSnoc(d: Directive, modname: string, st: Args, args: seq<string>, a: string)
    ensures ArgsFrom(d, modname, st, args + [a]) ==
      (var pre := ArgsFrom(d, modname, st, args); if pre.Err? then pre else ArgStep(d, modname, pre.value, a))
    decreases |args|
  {
    if |args| == 0 {
      assert ([] + [a])[1..] == [];
      assert [] + [a] == [a];
    } else {
      assert (args + [a])[1..] == args[1..] + [a];
      var next := ArgStep(d, modname, st, args[0]);
      if next.Ok? {
        ArgsFromSnoc(d, modname, next.value, args[1..], a);
      }
    }
  }

  /** The state a directive's arguments start from. */
  function InitialArgs(bits: set<int>, vars: map<string, int>): Args {
    Args([], bits, vars, -1, -1, 0, [])
  }

  /** Arguments that are not `key=value` are skipped. */
  lemma SkipsBareArguments(d: Directive, modname: string, st: Args, a: string)
    requires '=' !in a
    ensures ArgStep(d, modname, st, a) == Ok(st)
  {
    if a != "" {
      PiecesOfPlain(a, {'='});
    }
  }

  /** A later `id=` of a rotate wins: the id used is the last one named. */
  function LastName(names: seq<string>): Option<string> {
    if |names| == 0 then None else Some(names[|names| - 1])
  }

  // ---------------------------------------------------------------------
  // layer: and pattern rows

  /**
   * `layer:`'s mask: the OR of `1 << n` over its numbers (Java uses the low
   * five bits of `n`); a bad number throws NumberFormatException.
   */
  function LayerBits(args: seq<string>): (r: Result<set<int>>)
    ensures r.Err? <==> Numbers(args).None?
    ensures r.Err? ==> r.error == NumberFormatException
  {
    var ns := Numbers(args);
    if ns.None? then Err(NumberFormatException) else Ok(Mask(ns.value))
  }

  /** Every argument parsed as a Java `int`, or None if one of them is not a number. */
  function Numbers(args: seq<string>): (r: Option<seq<int>>)
    ensures r.Some? ==> |r.value| == |args| && forall k :: 0 <= k < |args| ==> ParseInt(args[k]) == Some(r.value[k])
    decreases |args|
  {
    if |args| == 0 then Some([])
    else
      var n := ParseInt(args[0]);
      var rest := Numbers(args[1..]);
      if n.None? || rest.None? then None else Some([n.value] + rest.value)
  }

  /** The OR of `1 << n` over the numbers `ns`. */
  function Mask(ns: seq<int>): (r: set<int>)
    ensures IsIntBits(r)
    decreases |ns|
  {
    if |ns| == 0 then {} else Mask(ns[1..]) + {ShiftCount(ns[0])}
  }

  /** `layer:` fails exactly when one of its arguments is not a number. */
  lemma {:induction false} LayerBitsFails(args: seq<string>)
    ensures LayerBits(args).Err? <==> exists k :: 0 <= k < |args| && ParseInt(args[k]).None?
    decreases |args|
  {
    if |args| > 0 {
      LayerBitsFails(args[1..]);
      if exists k :: 0 <= k < |args[1..]| && ParseInt(args[1..][k]).None? {
        var k :| 0 <= k < |args[1..]| && ParseInt(args[1..][k]).None?;
        assert ParseInt(args[k + 1]).None?;
      }
      if exists k :: 0 <= k < |args| && ParseInt(args[k]).None? {
        var k :| 0 <= k < |args| && ParseInt(args[k]).None?;
        if k > 0 {
          assert ParseInt(args[1..][k - 1]).None?;
        }
      }
    }
  }

  /** Some number of the list lies on layer `d`. */
  predicate OnLayer(ns: seq<int>, d: int) {
    exists k :: 0 <= k < |ns| && ShiftCount(ns[k]) == d
  }

  /** The mask has bit `d` set exactly when some number lies on layer `d`. */
  lemma {:induction false} MaskExact(ns: seq<int>, d: int)
    ensures d in Mask(ns) <==> OnLayer(ns, d)
    decreases |ns|
  {
    if |ns| > 0 {
      MaskExact(ns[1..], d);
      if OnLayer(ns[1..], d) {
        var k :| 0 <= k < |ns[1..]| && ShiftCount(ns[1..][k]) == d;
        assert ShiftCount(ns[k + 1]) == d;
      }
      if OnLayer(ns, d) && ShiftCount(ns[0]) != d {
        var k :| 0 <= k < |ns| && ShiftCount(ns[k]) == d;
        assert ShiftCount(ns[1..][k - 1]) == d;
      }
    }
  }

  /** `layer:` sets exactly the layers its arguments name. */
  lemma LayerBitsExact(args: seq<string>, d: int)
    requires LayerBits(args).Ok?
    ensures d in LayerBits(args).value <==>
      exists k :: 0 <= k < |args| && ParseInt(args[k]).Some? && ShiftCount(ParseInt(args[k]).value) == d
  {
    var ns := Numbers(args).value;
    MaskExact(ns, d);
    if OnLayer(ns, d) {
      var k :| 0 <= k < |ns| && ShiftCount(ns[k]) == d;
      assert ParseInt(args[k]) == Some(ns[k]);
    }
  }

  /** Whether a pattern row applies to layer `y` (`(layerbits & (1 << y)) != 0`, low five bits of `y`). */
  predicate LayerSet(bits: set<int>, y: int) {
    ShiftCount(y) in bits
  }

  /**
   * The subblocks one pattern row sets: for each '*' in column `i < scale`
   * and each `y < scale` on a set layer, (rownum, y, scale - i - 1).
   */
  predicate InRow(c: Cell, line: string, scale: int, rownum: int, bits: set<int>) {
    var i := scale - c.z - 1;
    c.x == rownum && 0 <= c.y < scale && LayerSet(bits, c.y) &&
    0 <= i < scale && i < |line| && line[i] == '*'
  }

  function RowCells(line: string, scale: int, rownum: int, bits: set<int>): (r: set<Cell>)
    ensures forall c :: c in r <==> InRow(c, line, scale, rownum, bits)
  {
    var r := set i, y | 0 <= i < scale && i < |line| && 0 <= y < scale && line[i] == '*' && LayerSet(bits, y) ::
      Cell(rownum, y, scale - i - 1);
    assert forall c :: InRow(c, line, scale, rownum, bits) ==> c in r by {
      forall c | InRow(c, line, scale, rownum, bits)
        ensures c in r
      {
        assert c == Cell(rownum, c.y, scale - (scale - c.z - 1) - 1);
      }
    }
    r
  }

  /** The subblocks a '*' in column `i` sets: (rownum, y, scale - i - 1) for each open layer y below the scale. */
  function ColumnCells(scale: int, rownum: int, bits: set<int>, i: int): (r: set<Cell>)
    ensures forall c :: c in r <==> c.x == rownum && 0 <= c.y < scale && LayerSet(bits, c.y) && c.z == scale - i - 1
  {
    set y | 0 <= y < scale && LayerSet(bits, y) :: Cell(rownum, y, scale - i - 1)
  }

  /**
   * A row's subblocks lie in the model's cube when the row number does, or
   * when it is the first row (a scale of 0 or less sets nothing).
   */
  lemma RowCellsInCube(line: string, scale: int, rownum: int, bits: set<int>)
    requires 0 <= rownum && (rownum > 0 ==> rownum < scale)
    ensures forall c :: c in RowCells(line, scale, rownum, bits) ==> InCube(c, scale)
  {
  }

  predicate InCube(c: Cell, scale: int) {
    0 <= c.x < scale && 0 <= c.y < scale && 0 <= c.z < scale
  }

  // ---------------------------------------------------------------------
  // rotate:

  /** A rotation the switch handles. */
  predicate QuarterTurn(rot: int) { rot == 0 || rot == 90 || rot == 180 || rot == 270 }

  /** Where `rotate:` puts subblock `c` of the source model; other angles put it nowhere. */
  function RotateCell(c: Cell, scale: int, rot: int): (r: Option<Cell>)
    ensures r.Some? <==> QuarterTurn(rot)
    ensures r.Some? ==> r.value.y == c.y
  {
    if rot == 0 then Some(c)
    else if rot == 90 then Some(Cell(scale - c.z - 1, c.y, c.x))
    else if rot == 180 then Some(Cell(scale - c.x - 1, c.y, scale - c.z - 1))
    else if rot == 270 then Some(Cell(c.z, c.y, scale - c.x - 1))
    else None
  }

  /** The source subblock a rotated one comes from. */
  function UnrotateCell(c: Cell, scale: int, rot: int): (r: Cell)
    requires QuarterTurn(rot)
    ensures RotateCell(r, scale, rot) == Some(c)
    ensures InCube(c, scale) <==> InCube(r, scale)
  {
    if rot == 0 then c
    else if rot == 90 then Cell(c.z, c.y, scale - c.x - 1)
    else if rot == 180 then Cell(scale - c.x - 1, c.y, scale - c.z - 1)
    else Cell(scale - c.z - 1, c.y, c.x)
  }

  /** Rotating and then undoing the rotation gives the subblock back. */
  lemma UnrotateRotate(c: Cell, scale: int, rot: int)
    requires QuarterTurn(rot)
    ensures UnrotateCell(RotateCell(c, scale, rot).value, scale, rot) == c
  {
  }

  /** The subblocks `rotate:` adds: each set subblock of the source cube, turned. */
  function RotatedCells(src: set<Cell>, scale: int, rot: int): (r: set<Cell>)
    ensures forall c :: c in r <==> QuarterTurn(rot) && UnrotateCell(c, scale, rot) in src && InCube(c, scale)
  {
    var r := set s | s in src && InCube(s, scale) && QuarterTurn(rot) :: RotateCell(s, scale, rot).value;
    assert forall c :: QuarterTurn(rot) && UnrotateCell(c, scale, rot) in src && InCube(c, scale) ==> c in r by {
      forall c | QuarterTurn(rot) && UnrotateCell(c, scale, rot) in src && InCube(c, scale)
        ensures c in r
      {
        var s := UnrotateCell(c, scale, rot);
        assert RotateCell(s, scale, rot).value == c;
      }
    }
    assert forall c :: c in r ==> UnrotateCell(c, scale, rot) in src && InCube(c, scale) by {
      forall c | c in r
        ensures UnrotateCell(c, scale, rot) in src && InCube(c, scale)
      {
        var s :| s in src && InCube(s, scale) && QuarterTurn(rot) && RotateCell(s, scale, rot).value == c;
        UnrotateRotate(s, scale, rot);
      }
    }
    r
  }

  /** The part of a set that lies in the cube. */
  function Clip(src: set<Cell>, scale: int): (r: set<Cell>)
    ensures forall c :: c in r <==> c in src && InCube(c, scale)
  {
    set c | c in src && InCube(c, scale)
  }

  /** A rotation by 0 copies the source's cube unchanged. */
  lemma RotateZero(src: set<Cell>, scale: int)
    ensures RotatedCells(src, scale, 0) == Clip(src, scale)
  {
  }

  /** Four quarter turns come back to the start. */
  lemma RotateFourQuarters(src: set<Cell>, scale: int)
    ensures RotatedCells(RotatedCells(RotatedCells(RotatedCells(src, scale, 90), scale, 90), scale, 90), scale, 90) == Clip(src, scale)
  {
    var r1 := RotatedCells(src, scale, 90);
    var r2 := RotatedCells(r1, scale, 90);
    var r3 := RotatedCells(r2, scale, 90);
    var r4 := RotatedCells(r3, scale, 90);
    forall c
      ensures c in r4 <==> c in Clip(src, scale)
    {
      var c1 := UnrotateCell(c, scale, 90);
      var c2 := UnrotateCell(c1, scale, 90);
      var c3 := UnrotateCell(c2, scale, 90);
      assert UnrotateCell(c3, scale, 90) == c;
    }
  }

  /** A quarter turn followed by a three-quarter turn comes back to the start. */
  lemma RotateQuarterThenThree(src: set<Cell>, scale: int)
    ensures RotatedCells(RotatedCells(src, scale, 90), scale, 270) == Clip(src, scale)
  {
    var r1 := RotatedCells(src, scale, 90);
    var r2 := RotatedCells(r1, scale, 270);
    forall c
      ensures c in r2 <==> c in Clip(src, scale)
    {
      var c1 := UnrotateCell(c, scale, 270);
      assert UnrotateCell(c1, scale, 90) == c;
    }
  }

  /** Two half turns come back to the start. */
  lemma RotateTwoHalves(src: set<Cell>, scale: int)
    ensures RotatedCells(RotatedCells(src, scale, 180), scale, 180) == Clip(src, scale)
  {
    var r1 := RotatedCells(src, scale, 180);
    var r2 := RotatedCells(r1, scale, 180);
    forall c
      ensures c in r2 <==> c in Clip(src, scale)
    {
      var c1 := UnrotateCell(c, scale, 180);
      assert UnrotateCell(c1, scale, 180) == c;
    }
  }

  /** Another multiple of 90 (360, -90, ...) passes the guard but copies nothing. */
  lemma RotateOtherAngle(src: set<Cell>, scale: int, rot: int)
    requires !QuarterTurn(rot)
    ensures RotatedCells(src, scale, rot) == {}
  {
  }

  /** Adding one in-cube source subblock adds its turned image (nothing for other angles). */
  lemma RotatedAdd(src: set<Cell>, s: Cell, scale: int, rot: int)
    requires InCube(s, scale)
    ensures RotatedCells(src + {s}, scale, rot) ==
      RotatedCells(src, scale, rot) + (if QuarterTurn(rot) then {RotateCell(s, scale, rot).value} else {})
  {
    if QuarterTurn(rot) {
      var r := RotateCell(s, scale, rot).value;
      UnrotateRotate(s, scale, rot);
      assert InCube(r, scale) by {
        assert UnrotateCell(r, scale, rot) == s;
      }
    }
  }

  /** `(x, y, z)` loops visit subblock `s` before position (x, y, z). */
  predicate Before(s: Cell, x: int, y: int, z: int) {
    s.x < x || (s.x == x && (s.y < y || (s.y == y && s.z < z)))
  }

  /** The set subblocks of the source cube the `x, y, z` loops have passed. */
  function Scanned(src: set<Cell>, scale: int, x: int, y: int, z: int): (r: set<Cell>)
    ensures forall c :: c in r <==> c in src && InCube(c, scale) && Before(c, x, y, z)
  {
    set c | c in src && InCube(c, scale) && Before(c, x, y, z)
  }

  /** One step of the innermost loop passes subblock (x, y, z). */
  lemma ScannedStep(src: set<Cell>, scale: int, x: int, y: int, z: int)
    requires InCube(Cell(x, y, z), scale)
    ensures Scanned(src, scale, x, y, z + 1) ==
      Scanned(src, scale, x, y, z) + (if Cell(x, y, z) in src then {Cell(x, y, z)} else {})
  {
  }

  /** Before the loops start nothing has been passed. */
  lemma ScannedNone(src: set<Cell>, scale: int, rot: int)
    ensures RotatedCells(Scanned(src, scale, 0, 0, 0), scale, rot) == {}
  {
    assert Scanned(src, scale, 0, 0, 0) == {};
  }

  /** The end of a row of z is the start of the next y, and the end of the y rows the start of the next x. */
  lemma ScannedCarry(src: set<Cell>, scale: int, x: int, y: int)
    ensures Scanned(src, scale, x, y, scale) == Scanned(src, scale, x, y + 1, 0)
    ensures Scanned(src, scale, x, scale, 0) == Scanned(src, scale, x + 1, 0, 0)
  {
  }

  /** Once every x is done, the whole source cube has been passed. */
  lemma ScannedAll(src: set<Cell>, scale: int, x: int)
    requires x >= scale
    ensures Scanned(src, scale, x, 0, 0) == Clip(src, scale)
  {
  }

  /** The turned image of the source's cube is the turned image of the source. */
  lemma RotatedClip(src: set<Cell>, scale: int, rot: int)
    ensures RotatedCells(Clip(src, scale), scale, rot) == RotatedCells(src, scale, rot)
  {
  }

  /**
   * `rotate:` once its arguments are read: an id that names air ends the
   * file; with no current models nothing happens; a registered volumetric
   * model and a rotation divisible by 90 add the turned subblocks to every
   * current model; anything else ends the file.
   */
  function RotateResult(a: Args, models: map<int, BlockModel>, stateOf: StateLookup,
                        modlist: seq<VolumetricModel>, scale: int): (r: (LineOutcome, seq<VolumetricModel>))
    ensures r.0 == Continue || r.0 == Abort
    ensures r.0 == Abort ==> r.1 == modlist
    ensures stateOf(LastName(a.names), if a.data > 0 then a.data else 0).AirState? ==> r.0 == Abort
    ensures |modlist| > 0 && JRem(a.rot, 90) != 0 ==> r.0 == Abort
    ensures |r.1| == |modlist| && forall k :: 0 <= k < |modlist| ==>
      r.1[k].states == modlist[k].states && r.1[k].data == modlist[k].data &&
      r.1[k].scale == modlist[k].scale && modlist[k].cells <= r.1[k].cells
  {
    var bs := stateOf(LastName(a.names), if a.data > 0 then a.data else 0);
    if bs.AirState? then (Abort, modlist)
    else if |modlist| == 0 then (Continue, modlist)
    else if JRem(a.rot, 90) == 0 && bs.index in models && models[bs.index].shape.Volumetric? then
      (Continue, AddedToAll(modlist, RotatedCells(models[bs.index].shape.cells, scale, a.rot)))
    else (Abort, modlist)
  }

  // ---------------------------------------------------------------------
  // ignore-updates:

  /** The states of one block selected by a data set (an empty set selects all), below index `n`. */
  function SelectedBelow(states: seq<int>, bits: set<int>, n: int): (r: set<int>)
    ensures forall s :: s in r <==> exists i :: 0 <= i < n && i < |states| && (bits == {} || i in bits) && states[i] == s
  {
    set i | 0 <= i < n && i < |states| && (bits == {} || i in bits) :: states[i]
  }

  /** `line.substring(line.indexOf(':') + 1)`: the text after the first ':', or all of it. */
  function AfterColon(line: string): (r: string)
    ensures ':' !in line ==> r == line
    ensures ':' in line ==> exists k :: 0 <= k < |line| && line[k] == ':' && ':' !in line[..k] && r == line[k + 1..]
  {
    var k := IndexOf(line, ':');
    line[k + 1..]
  }

  /** One more state index considered. */
  lemma SelectedStep(states: seq<int>, bits: set<int>, n: int)
    requires 0 <= n < |states|
    ensures SelectedBelow(states, bits, n + 1) ==
      SelectedBelow(states, bits, n) + (if bits == {} || n in bits then {states[n]} else {})
  {
  }

  /** The states `ignore-updates:` flags for the named blocks (air names are skipped). */
  function IgnoredStates(lookup: BlockLookup, names: seq<string>, bits: set<int>): set<int>
    decreases |names|
  {
    if |names| == 0 then {}
    else
      var b := lookup(names[|names| - 1]);
      IgnoredStates(lookup, names[..|names| - 1], bits) + (if b.Air? then {} else SelectedBelow(b.states, bits, |b.states|))
  }

  /** State `s` is one that block `name` contributes under the data set. */
  predicate Contributes(lookup: BlockLookup, name: string, bits: set<int>, s: int) {
    var b := lookup(name);
    b.Block? && s in SelectedBelow(b.states, bits, |b.states|)
  }

  /**
   * A state is flagged exactly when some named block that is not air has it
   * as state `i`, with `i` in the data set or the data set empty.
   */
  lemma {:induction false} IgnoredStatesExact(lookup: BlockLookup, names: seq<string>, bits: set<int>, s: int)
    ensures s in IgnoredStates(lookup, names, bits) <==> exists k :: 0 <= k < |names| && Contributes(lookup, names[k], bits, s)
    decreases |names|
  {
    if |names| > 0 {
      var pre := names[..|names| - 1];
      var last := |names| - 1;
      IgnoredStatesExact(lookup, pre, bits, s);
      assert s in IgnoredStates(lookup, names, bits) <==>
        s in IgnoredStates(lookup, pre, bits) || Contributes(lookup, names[last], bits, s);
      if exists k :: 0 <= k < |pre| && Contributes(lookup, pre[k], bits, s) {
        var k :| 0 <= k < |pre| && Contributes(lookup, pre[k], bits, s);
        assert names[k] == pre[k];
      }
      if exists k :: 0 <= k < |names| && Contributes(lookup, names[k], bits, s) {
        var k :| 0 <= k < |names| && Contributes(lookup, names[k], bits, s);
        if k < last {
          assert pre[k] == names[k];
        }
      }
    }
  }

  /** With no data values given, every state of every named block is flagged. */
  lemma IgnoresAllStates(lookup: BlockLookup, names: seq<string>, k: int, i: int)
    requires 0 <= k < |names| && lookup(names[k]).Block? && 0 <= i < |lookup(names[k]).states|
    ensures lookup(names[k]).states[i] in IgnoredStates(lookup, names, {})
  {
    IgnoredStatesExact(lookup, names, {}, lookup(names[k]).states[i]);
  }

  // ---------------------------------------------------------------------
  // The loader

  /** A volumetric model being defined: its block's states, data values, scale and set subblocks. */
  datatype VolumetricModel = VolumetricModel(states: seq<int>, data: set<int>, scale: int, cells: set<Cell>)

  /** A box-list model being defined: its block's states, data values and boxes. */
  datatype BoxModel = BoxModel(states: seq<int>, data: set<int>, boxes: seq<BoxLimits>)

  /** One empty volumetric model per named block that is not air, in order. */
  function NewVolumetric(lookup: BlockLookup, names: seq<string>, bits: set<int>, scale: int): (r: seq<VolumetricModel>)
    ensures |r| <= |names|
    ensures forall k :: 0 <= k < |r| ==> r[k].cells == {} && r[k].scale == scale && r[k].data == bits
    decreases |names|
  {
    if |names| == 0 then []
    else
      var pre := NewVolumetric(lookup, names[..|names| - 1], bits, scale);
      var b := lookup(names[|names| - 1]);
      if b.Air? then pre else pre + [VolumetricModel(b.states, bits, scale, {})]
  }

  /** One box-list model per named block that is not air, in order. */
  function NewBoxModels(lookup: BlockLookup, names: seq<string>, bits: set<int>, boxes: seq<BoxLimits>): (r: seq<BoxModel>)
    ensures |r| <= |names|
    ensures forall k :: 0 <= k < |r| ==> r[k].boxes == boxes && r[k].data == bits
    decreases |names|
  {
    if |names| == 0 then []
    else
      var pre := NewBoxModels(lookup, names[..|names| - 1], bits, boxes);
      var b := lookup(names[|names| - 1]);
      if b.Air? then pre else pre + [BoxModel(b.states, bits, boxes)]
  }

  /** Every model with `cells` added to its subblocks. */
  function AddedToAll(models: seq<VolumetricModel>, cells: set<Cell>): (r: seq<VolumetricModel>)
    ensures |r| == |models|
    ensures forall k :: 0 <= k < |r| ==> r[k] == models[k].(cells := models[k].cells + cells)
  {
    seq(|models|, k requires 0 <= k < |models| => models[k].(cells := models[k].cells + cells))
  }

  /** Adding two sets one after the other adds their union. */
  lemma AddedToAllTwice(models: seq<VolumetricModel>, a: set<Cell>, b: set<Cell>)
    ensures AddedToAll(AddedToAll(models, a), b) == AddedToAll(models, a + b)
  {
    var l, r := AddedToAll(AddedToAll(models, a), b), AddedToAll(models, a + b);
    forall k | 0 <= k < |models|
      ensures l[k] == r[k]
    {
      assert models[k].cells + a + b == models[k].cells + (a + b);
    }
  }

  /** Adding nothing changes nothing. */
  lemma AddedToAllNothing(models: seq<VolumetricModel>)
    ensures AddedToAll(models, {}) == models
  {
    var r := AddedToAll(models, {});
    forall k | 0 <= k < |models|
      ensures r[k] == models[k]
    {
      assert models[k].cells + {} == models[k].cells;
    }
  }

  /** `DynmapBlockState.getStateByNameAndIndex`: air, or a state's global index. */
  datatype StateRef = AirState | State(index: int)

  type StateLookup = (Option<string>, int) -> StateRef

  class ModelFileLoader {
    var scale: int
    var rownum: int
    var layerbits: set<int>
    var databits: set<int>
    var variableMaps: map<string, int>
    var modlist: seq<VolumetricModel>
    var pmodlist: seq<BoxModel>
    var modname: string
    const registry: ModelRegistry

    /**
     * Pattern rows are read while a layer is open (`layerbits` not empty);
     * then the row number is below the scale unless it is the first row.
     */
    ghost predicate Valid()
      reads this
    {
      0 <= rownum && (layerbits != {} && rownum > 0 ==> rownum < scale)
    }

    /** The state at the top of `loadModelFile`. */
    constructor (registry: ModelRegistry)
      ensures scale == 0 && rownum == 0 && layerbits == {} && databits == {} && variableMaps == map[]
      ensures modlist == [] && pmodlist == [] && modname == "minecraft" && this.registry == registry
      ensures Valid()
    {
      scale := 0;
      rownum := 0;
      layerbits := {};
      databits := {};
      variableMaps := map[];
      modlist := [];
      pmodlist := [];
      modname := "minecraft";
      this.registry := registry;
    }

    /** The `data=` handling, with its loop over a range. */
    method SetDataBits(val: string) returns (r: Result<()>)
      modifies this`databits, this`variableMaps
      ensures r.Ok? <==> DataBits(old(databits), old(variableMaps), val).Ok?
      ensures r.Err? ==> r.error == DataBits(old(databits), old(variableMaps), val).error
      ensures r.Ok? ==> (databits, variableMaps) == DataBits(old(databits), old(variableMaps), val).value
    {
      if val == "*" {
        databits := {};
        return Ok(());
      }
      if IndexOf(val, '-') <= 0 {
        var (v, vars1) := GetIntValue(variableMaps, val);
        if v.Err? {
          return Err(v.error);
        }
        variableMaps := vars1;
        if v.value < 0 {
          return Err(IndexOutOfBoundsException);
        }
        databits := databits + {v.value};
        return Ok(());
      }
      var sp := Split(val, {'-'});
      if |sp| == 0 {
        return Err(ArrayIndexOutOfBoundsException);
      }
      var (a, vars1) := GetIntValue(variableMaps, sp[0]);
      if a.Err? {
        return Err(a.error);
      }
      variableMaps := vars1;
      if |sp| < 2 {
        return Err(ArrayIndexOutOfBoundsException);
      }
      var (b, vars2) := GetIntValue(variableMaps, sp[1]);
      if b.Err? {
        return Err(b.error);
      }
      variableMaps := vars2;
      r := SetRange(a.value, b.value);
    }

    /** `for (m = m0; m <= m1; m++) databits.set(m)`. */
    method SetRange(m0: int, m1: int) returns (r: Result<()>)
      modifies this`databits
      ensures r.Ok? <==> RangeBits(old(databits), m0, m1).Ok?
      ensures r.Err? ==> r.error == RangeBits(old(databits), m0, m1).error
      ensures r.Ok? ==> databits == RangeBits(old(databits), m0, m1).value
    {
      var m := m0;
      while m <= m1
        invariant m0 <= m && (m0 <= m1 ==> m <= m1 + 1) && (m0 > m1 ==> m == m0)
        invariant m > m0 ==> 0 <= m0 && m <= INT_MAX
        invariant databits == old(databits) + Range(m0, m)
      {
        if m < 0 {
          return Err(IndexOutOfBoundsException);
        }
        databits := databits + {m};
        if m >= INT_MAX {
          // m++ wraps to Integer.MIN_VALUE, which the next set() rejects
          return Err(IndexOutOfBoundsException);
        }
        m := m + 1;
      }
      if m0 <= m1 {
        assert m == m1 + 1 && 0 <= m0 && m1 < INT_MAX;
        assert RangeBits(old(databits), m0, m1) == Ok(old(databits) + Range(m0, m1 + 1));
      } else {
        assert Range(m0, m) == {};
      }
      return Ok(());
    }

    /**
     * One argument of a directive: a `data=` outside `rotate:` goes through
     * the `databits` update above, every other key through the argument step.
     */
    method ApplyArg(d: Directive, st: Args, a: string) returns (r: Result<Args>)
      requires st.bits == databits && st.vars == variableMaps
      modifies this`databits, this`variableMaps
      ensures r == ArgStep(d, modname, st, a)
      ensures r.Ok? ==> databits == r.value.bits && variableMaps == r.value.vars
    {
      var av := Split(a, {'='});
      if |av| >= 2 && av[0] == "data" && d != Rotate {
        var res := SetDataBits(av[1]);
        if res.Err? {
          return Err(res.error);
        }
        return Ok(st.(bits := databits, vars := variableMaps));
      }
      r := ArgStep(d, modname, st, a);
      if r.Ok? {
        variableMaps := r.value.vars;
      }
    }

    /** The `for (String a : args)` loop of a directive, stopping at the first exception. */
    method ParseArgs(d: Directive, st0: Args, args: seq<string>) returns (r: Result<Args>)
      requires st0.bits == databits && st0.vars == variableMaps
      modifies this`databits, this`variableMaps
      ensures r == ArgsFrom(d, old(modname), st0, args)
      ensures r.Ok? ==> databits == r.value.bits && variableMaps == r.value.vars
    {
      var st := st0;
      var i := 0;
      while i < |args|
        invariant 0 <= i <= |args|
        invariant st.bits == databits && st.vars == variableMaps
        invariant ArgsFrom(d, modname, st0, args) == ArgsFrom(d, modname, st, args[i..])
      {
        ArgsFromAt(d, modname, st, args, i);
        var next := ApplyArg(d, st, args[i]);
        if next.Err? {
          return Err(next.error);
        }
        st := next.value;
        i := i + 1;
      }
      assert args[i..] == [];
      return Ok(st);
    }

    /** `block:` with the text after its prefix: ids and a scale replace the current volumetric models. */
    method BlockLine(rest: string, lookup: BlockLookup) returns (out: LineOutcome)
      requires Valid()
      modifies this`databits, this`variableMaps, this`scale, this`modlist, this`layerbits
      ensures var a := ArgsFrom(BlockDef, old(modname), InitialArgs({}, old(variableMaps)), Split(rest, {','}));
        (a.Err? ==> out == Thrown(a.error)) &&
        (a.Ok? ==> (out == Continue && databits == a.value.bits && variableMaps == a.value.vars &&
           scale == a.value.scale && layerbits == {} &&
           modlist == (if |a.value.names| > 0 && a.value.scale > 0
                       then NewVolumetric(lookup, a.value.names, a.value.bits, a.value.scale) else old(modlist))))
      ensures out == Continue ==> Valid()
    {
      databits := {};
      scale := 0;
      var a := ParseArgs(BlockDef, InitialArgs({}, variableMaps), Split(rest, {','}));
      if a.Err? {
        return Thrown(a.error);
      }
      scale := a.value.scale;
      if |a.value.names| > 0 && scale > 0 {
        NewModels(a.value.names, lookup);
      }
      layerbits := {};
      return Continue;
    }

    /** `modlist.clear()` and one new volumetric model per named block that is not air. */
    method NewModels(names: seq<string>, lookup: BlockLookup)
      modifies this`modlist
      ensures modlist == NewVolumetric(lookup, names, databits, scale)
    {
      modlist := [];
      var i := 0;
      while i < |names|
        invariant 0 <= i <= |names|
        invariant modlist == NewVolumetric(lookup, names[..i], databits, scale)
      {
        assert names[..i + 1][..i] == names[..i];
        var b := lookup(names[i]);
        if b.Block? {
          modlist := modlist + [VolumetricModel(b.states, databits, scale, {})];
        }
        i := i + 1;
      }
      assert names[..i] == names;
    }

    /** `layer:` with the text after its prefix: opens the layers it names at row 0. */
    method LayerLine(rest: string) returns (out: LineOutcome)
      requires Valid()
      modifies this`layerbits, this`rownum
      ensures var l := LayerBits(Split(rest, {','}));
        (l.Err? ==> out == Thrown(l.error) && layerbits == {}) &&
        (l.Ok? ==> out == Continue && layerbits == l.value)
      ensures rownum == 0
      ensures Valid()
    {
      layerbits := {};
      rownum := 0;
      var l := LayerBits(Split(rest, {','}));
      if l.Err? {
        return Thrown(l.error);
      }
      layerbits := layerbits + l.value;
      return Continue;
    }

    /** `setSubblock(c, true)` on every current volumetric model. */
    method AddCell(c: Cell)
      modifies this`modlist
      ensures modlist == AddedToAll(old(modlist), {c})
    {
      ghost var target := AddedToAll(modlist, {c});
      var k := 0;
      while k < |modlist|
        invariant 0 <= k <= |modlist| == |old(modlist)|
        invariant modlist == target[..k] + old(modlist)[k..]
      {
        modlist := modlist[k := modlist[k].(cells := modlist[k].cells + {c})];
        assert modlist == target[..k + 1] + old(modlist)[k + 1..];
        k := k + 1;
      }
      assert modlist == target;
    }

    /** The `y` loop of a pattern row for a '*' in column `i`. */
    method SetColumn(i: int)
      modifies this`modlist
      ensures modlist == AddedToAll(old(modlist), ColumnCells(scale, rownum, layerbits, i))
    {
      ghost var m0 := modlist;
      ghost var added: set<Cell> := {};
      AddedToAllNothing(m0);
      var y := 0;
      while y < scale
        invariant 0 <= y && (y == 0 || y <= scale)
        invariant modlist == AddedToAll(m0, added)
        invariant forall c :: c in added <==> c in ColumnCells(scale, rownum, layerbits, i) && c.y < y
      {
        if LayerSet(layerbits, y) {
          AddCell(Cell(rownum, y, scale - i - 1));
          AddedToAllTwice(m0, added, {Cell(rownum, y, scale - i - 1)});
          added := added + {Cell(rownum, y, scale - i - 1)};
        }
        y := y + 1;
      }
      assert added == ColumnCells(scale, rownum, layerbits, i);
    }

    /**
     * A pattern row while a layer is open: a '*' in column i sets subblock
     * (rownum, y, scale - i - 1) of every current model for each open layer
     * y; after `scale` rows the layer closes.
     */
    method PatternRow(line: string)
      requires Valid()
      modifies this`modlist, this`rownum, this`layerbits
      ensures modlist == AddedToAll(old(modlist), RowCells(line, old(scale), old(rownum), old(layerbits)))
      ensures old(rownum) + 1 >= old(scale) ==> rownum == 0 && layerbits == {}
      ensures old(rownum) + 1 < old(scale) ==> rownum == old(rownum) + 1 && layerbits == old(layerbits)
      ensures Valid()
    {
      ghost var m0 := modlist;
      ghost var added: set<Cell> := {};
      AddedToAllNothing(m0);
      var i := 0;
      while i < scale && i < |line|
        invariant 0 <= i && (i == 0 || i <= scale)
        invariant modlist == AddedToAll(m0, added)
        invariant forall c :: c in added <==> InRow(c, line, scale, rownum, layerbits) && scale - c.z - 1 < i
        invariant rownum == old(rownum) && layerbits == old(layerbits)
      {
        if line[i] == '*' {
          SetColumn(i);
          AddedToAllTwice(m0, added, ColumnCells(scale, rownum, layerbits, i));
          added := added + ColumnCells(scale, rownum, layerbits, i);
        }
        i := i + 1;
      }
      assert added == RowCells(line, scale, rownum, layerbits);
      rownum := rownum + 1;
      if rownum >= scale {
        rownum := 0;
        layerbits := {};
      }
    }

    /** The `switch (rot)` for one set subblock (x, y, z) of the source. */
    method TurnSubblock(x: int, y: int, z: int, rot: int)
      modifies this`modlist
      ensures modlist == AddedToAll(old(modlist),
        if QuarterTurn(rot) then {RotateCell(Cell(x, y, z), scale, rot).value} else {})
    {
      if rot == 0 {
        AddCell(Cell(x, y, z));
      } else if rot == 90 {
        AddCell(Cell(scale - z - 1, y, x));
      } else if rot == 180 {
        AddCell(Cell(scale - x - 1, y, scale - z - 1));
      } else if rot == 270 {
        AddCell(Cell(z, y, scale - x - 1));
      } else {
        AddedToAllNothing(modlist);
      }
    }

    /** The innermost z loop of `rotate:`, for the row (x, y) of the source cube. */
    method RotateRow(src: set<Cell>, rot: int, x: int, y: int, ghost m0: seq<VolumetricModel>, ghost added0: set<Cell>)
      returns (ghost added: set<Cell>)
      requires 0 <= x < scale && 0 <= y < scale
      requires modlist == AddedToAll(m0, added0)
      requires added0 == RotatedCells(Scanned(src, scale, x, y, 0), scale, rot)
      modifies this`modlist
      ensures modlist == AddedToAll(m0, added)
      ensures added == RotatedCells(Scanned(src, scale, x, y, scale), scale, rot)
    {
      added := added0;
      var z := 0;
      while z < scale
        invariant 0 <= z <= scale
        invariant modlist == AddedToAll(m0, added)
        invariant added == RotatedCells(Scanned(src, scale, x, y, z), scale, rot)
      {
        ScannedStep(src, scale, x, y, z);
        if Cell(x, y, z) in src {
          RotatedAdd(Scanned(src, scale, x, y, z), Cell(x, y, z), scale, rot);
          ghost var turned := if QuarterTurn(rot) then {RotateCell(Cell(x, y, z), scale, rot).value} else {};
          TurnSubblock(x, y, z, rot);
          AddedToAllTwice(m0, added, turned);
          added := added + turned;
        }
        z := z + 1;
      }
    }

    /** The x, y, z loops of `rotate:`: each set subblock of the source cube, turned, on every current model. */
    method RotateModels(src: set<Cell>, rot: int)
      modifies this`modlist
      ensures modlist == AddedToAll(old(modlist), RotatedCells(src, scale, rot))
    {
      ghost var m0 := modlist;
      ghost var added: set<Cell> := {};
      AddedToAllNothing(m0);
      ScannedNone(src, scale, rot);
      var x := 0;
      while x < scale
        invariant 0 <= x && (x == 0 || x <= scale)
        invariant modlist == AddedToAll(m0, added)
        invariant added == RotatedCells(Scanned(src, scale, x, 0, 0), scale, rot)
      {
        var y := 0;
        while y < scale
          invariant 0 <= y <= scale
          invariant modlist == AddedToAll(m0, added)
          invariant added == RotatedCells(Scanned(src, scale, x, y, 0), scale, rot)
        {
          added := RotateRow(src, rot, x, y, m0, added);
          ScannedCarry(src, scale, x, y);
          y := y + 1;
        }
        ScannedCarry(src, scale, x, y);
        x := x + 1;
      }
      ScannedAll(src, scale, x);
      RotatedClip(src, scale, rot);
    }

    /** `rotate:` with the text after its prefix, against the registered models. */
    method RotateLine(rest: string, stateOf: StateLookup) returns (out: LineOutcome)
      modifies this`databits, this`variableMaps, this`modlist
      ensures var a := ArgsFrom(Rotate, old(modname), InitialArgs(old(databits), old(variableMaps)), Split(rest, {','}));
        (a.Err? ==> out == Thrown(a.error)) &&
        (a.Ok? ==> (out == RotateResult(a.value, registry.modelsByIdData, stateOf, old(modlist), old(scale)).0 &&
                    modlist == RotateResult(a.value, registry.modelsByIdData, stateOf, old(modlist), old(scale)).1 &&
                    databits == old(databits) && variableMaps == a.value.vars))
    {
      var a := ParseArgs(Rotate, InitialArgs(databits, variableMaps), Split(rest, {','}));
      if a.Err? {
        return Thrown(a.error);
      }
      var bs := stateOf(LastName(a.value.names), if a.value.data > 0 then a.value.data else 0);
      if bs.AirState? {
        return Abort;
      }
      if |modlist| == 0 {
        return Continue;
      }
      var models := registry.modelsByIdData;
      if JRem(a.value.rot, 90) == 0 && bs.index in models && models[bs.index].shape.Volumetric? {
        RotateModels(models[bs.index].shape.cells, a.value.rot);
        return Continue;
      }
      return Abort;
    }

    /** `pmodlist.clear()` and one box-list model per named block that is not air. */
    method NewBoxList(names: seq<string>, lookup: BlockLookup, boxes: seq<BoxLimits>)
      modifies this`pmodlist
      ensures pmodlist == NewBoxModels(lookup, names, databits, boxes)
    {
      pmodlist := [];
      var i := 0;
      while i < |names|
        invariant 0 <= i <= |names|
        invariant pmodlist == NewBoxModels(lookup, names[..i], databits, boxes)
      {
        assert names[..i + 1][..i] == names[..i];
        var b := lookup(names[i]);
        if b.Block? {
          pmodlist := pmodlist + [BoxModel(b.states, databits, boxes)];
        }
        i := i + 1;
      }
      assert names[..i] == names;
    }

    /** `boxlist:` with the text after its prefix: the current box-list models, one per named block. */
    method BoxListLine(rest: string, lookup: BlockLookup) returns (out: LineOutcome)
      modifies this`databits, this`variableMaps, this`pmodlist
      ensures var a := ArgsFrom(BoxList, old(modname), InitialArgs({}, old(variableMaps)), Split(rest, {','}));
        (a.Err? ==> out == Thrown(a.error)) &&
        (a.Ok? ==> (out == Continue && databits == a.value.bits && variableMaps == a.value.vars &&
                    pmodlist == NewBoxModels(lookup, a.value.names, a.value.bits, a.value.boxes)))
    {
      databits := {};
      var a := ParseArgs(BoxList, InitialArgs({}, variableMaps), Split(rest, {','}));
      if a.Err? {
        return Thrown(a.error);
      }
      NewBoxList(a.value.names, lookup, a.value.boxes);
      return Continue;
    }

    /** The loop over the named blocks of `ignore-updates:`, flagging their selected states. */
    method IgnoreBlocks(names: seq<string>, lookup: BlockLookup)
      modifies registry`changeIgnoredBlocks
      ensures registry.changeIgnoredBlocks == old(registry.changeIgnoredBlocks) + IgnoredStates(lookup, names, databits)
    {
      var k := 0;
      while k < |names|
        invariant 0 <= k <= |names|
        invariant registry.changeIgnoredBlocks == old(registry.changeIgnoredBlocks) + IgnoredStates(lookup, names[..k], databits)
      {
        assert names[..k + 1][..k] == names[..k];
        ghost var before := registry.changeIgnoredBlocks;
        var b := lookup(names[k]);
        if b.Block? {
          var i := 0;
          while i < |b.states|
            invariant 0 <= i <= |b.states|
            invariant registry.changeIgnoredBlocks == before + SelectedBelow(b.states, databits, i)
          {
            SelectedStep(b.states, databits, i);
            if databits == {} || i in databits {
              registry.changeIgnoredBlocks := registry.changeIgnoredBlocks + {b.states[i]};
            }
            i := i + 1;
          }
        }
        k := k + 1;
      }
      assert names[..k] == names;
    }

    /** An `ignore-updates:` line: the states of the named blocks whose updates are ignored. */
    method IgnoreUpdatesLine(line: string, lookup: BlockLookup) returns (out: LineOutcome)
      modifies this`databits, this`variableMaps, registry`changeIgnoredBlocks
      ensures var a := ArgsFrom(IgnoreUpdates, old(modname), InitialArgs({}, old(variableMaps)),
                                Split(AfterColon(line), {','}));
        (a.Err? ==> out == Thrown(a.error) && registry.changeIgnoredBlocks == old(registry.changeIgnoredBlocks)) &&
        (a.Ok? ==> (out == Continue && databits == a.value.bits && variableMaps == a.value.vars &&
                    registry.changeIgnoredBlocks == old(registry.changeIgnoredBlocks) + IgnoredStates(lookup, a.value.names, a.value.bits)))
    {
      databits := {};
      var a := ParseArgs(IgnoreUpdates, InitialArgs({}, variableMaps), Split(AfterColon(line), {','}));
      if a.Err? {
        return Thrown(a.error);
      }
      IgnoreBlocks(a.value.names, lookup);
      return Continue;
    }
  }
}

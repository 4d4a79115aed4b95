/**
 * JSON values as json-simple represents them, and `JSONUtils`: get, put and
 * append by a '/'-separated path.
 *
 * Objects are modelled as values: an update returns the new top-level object
 * instead of mutating shared `JSONObject` instances in place.
 */
module JSONUtils {
  import opened JavaLang

  /**
   * A JSON value. `JNull` is Java's `null`; `JNum` carries the text that the
   * number's `toString()` produces. An object holds one entry per key, as a
   * sequence with new keys added at the end; json-simple's `JSONObject` is a
   * `HashMap`, whose own member order is its hash order.
   */
  datatype JValue =
    | JNull
    | JBool(b: bool)
    | JNum(text: string)
    | JStr(s: string)
    | JObj(fields: seq<(string, JValue)>)
    | JArr(items: seq<JValue>)

  type Fields = seq<(string, JValue)>

  predicate UniqueKeys(o: Fields) {
    forall i, j :: 0 <= i < j < |o| ==> o[i].0 != o[j].0
  }

  /** `JSONObject.get(k)`: the value stored under `k`, or null. */
  function Get(o: Fields, k: string): JValue {
    if |o| == 0 then JNull
    else if o[0].0 == k then o[0].1
    else Get(o[1..], k)
  }

  /** `get` finds the entry stored under the key, and null when there is none. */
  lemma {:induction false} GetFindsEntry(o: Fields, k: string)
    ensures Get(o, k) != JNull ==> exists i :: 0 <= i < |o| && o[i] == (k, Get(o, k))
    ensures (forall i :: 0 <= i < |o| ==> o[i].0 != k) ==> Get(o, k) == JNull
  {
    if |o| > 0 && o[0].0 != k {
      GetFindsEntry(o[1..], k);
      if Get(o, k) != JNull {
        var i :| 0 <= i < |o[1..]| && o[1..][i] == (k, Get(o, k));
        assert o[i + 1] == (k, Get(o, k));
      }
      if forall i :: 0 <= i < |o| ==> o[i].0 != k {
        assert forall i :: 0 <= i < |o[1..]| ==> o[1..][i].0 == o[i + 1].0;
      }
    }
  }

  /** `JSONObject.put(k, v)`: replaces the entry for `k`, or adds one at the end. */
  function Put(o: Fields, k: string, v: JValue): (r: Fields)
    ensures Get(r, k) == v
    ensures forall k' :: k' != k ==> Get(r, k') == Get(o, k')
  {
    if |o| == 0 then [(k, v)]
    else if o[0].0 == k then [(k, v)] + o[1..]
    else [o[0]] + Put(o[1..], k, v)
  }

  /** The keys after a put are the old keys plus `k`. */
  lemma {:induction false} PutKeys(o: Fields, k: string, v: JValue)
    ensures Keys(Put(o, k, v)) == Keys(o) + {k}
    ensures UniqueKeys(o) ==> UniqueKeys(Put(o, k, v))
  {
    if |o| > 0 && o[0].0 != k {
      PutKeys(o[1..], k, v);
      KeysCons(o);
      KeysCons(Put(o, k, v));
    } else if |o| > 0 {
      KeysCons(o);
      KeysCons(Put(o, k, v));
    }
  }

  function Keys(o: Fields): set<string> {
    set i | 0 <= i < |o| :: o[i].0
  }

  lemma KeysCons(o: Fields)
    requires |o| > 0
    ensures Keys(o) == {o[0].0} + Keys(o[1..])
    ensures UniqueKeys(o) <==> o[0].0 !in Keys(o[1..]) && UniqueKeys(o[1..])
  {
    assert forall i :: 0 < i < |o| ==> o[i].0 == o[1..][i - 1].0;
    assert forall i :: 0 <= i < |o| - 1 ==> o[1..][i].0 == o[i + 1].0;
  }

  /** `JSONObject.remove(k)`. */
  function Remove(o: Fields, k: string): (r: Fields)
    ensures Get(r, k) == JNull
    ensures forall k' :: k' != k ==> Get(r, k') == Get(o, k')
  {
    if |o| == 0 then []
    else if o[0].0 == k then Remove(o[1..], k)
    else [o[0]] + Remove(o[1..], k)
  }

  /**
   * Splitting a path at its first '/', as `indexOf('/')` followed by two
   * `substring` calls does: the first segment and the rest, or None when the
   * path has no '/'.
   */
  function SplitFirst(path: string): (r: Option<(string, string)>)
    ensures r.None? <==> '/' !in path
    ensures r.Some? ==> '/' !in r.value.0 && path == r.value.0 + "/" + r.value.1
  {
    var i := IndexOf(path, '/');
    if i == -1 then None
    else
      assert path == path[..i] + "/" + path[i + 1..];
      Some((path[..i], path[i + 1..]))
  }

  /** A path written as "key/rest" with a slash-free key splits back into that key and rest. */
  lemma SplitFirstOf(k: string, rest: string)
    requires '/' !in k
    ensures SplitFirst(k + "/" + rest) == Some((k, rest))
  {
    var p := k + "/" + rest;
    IndexOfConcat(k, '/', rest);
    assert p[..|k|] == k && p[|k| + 1..] == rest;
  }

  /** The text after the last '/' of a path (the whole path when it has none). */
  function LastSegment(path: string): (r: string)
    ensures '/' !in r
    ensures |r| <= |path| && r == path[|path| - |r|..]
    ensures r == path || path[|path| - |r| - 1] == '/'
    decreases |path|
  {
    match SplitFirst(path)
    case None => path
    case Some((_, rest)) =>
      var r := LastSegment(rest);
      assert path[|path| - |rest|..] == rest;
      assert rest[|rest| - |r|..] == path[|path| - |r|..];
      r
  }

  /** Every segment before the last names a non-null member of `o`. */
  predicate PrefixKeysPresent(o: Fields, path: string)
    decreases |path|
  {
    match SplitFirst(path)
    case None => true
    case Some((key, rest)) => Get(o, key) != JNull && PrefixKeysPresent(o, rest)
  }

  /**
   * `getValue(o, path)`. As in the source, after checking the first segment it
   * looks the rest of the path up in the same object `o`, not in the child.
   */
  function GetValue(o: Fields, path: string): (r: JValue)
    ensures '/' !in path ==> r == Get(o, path)
    decreases |path|
  {
    match SplitFirst(path)
    case None => Get(o, path)
    case Some((key, subpath)) => if Get(o, key) == JNull then JNull else GetValue(o, subpath)
  }

  /** The lookup the path notation describes: walk into each named child object. */
  function NestedGet(o: Fields, path: string): JValue
    decreases |path|
  {
    match SplitFirst(path)
    case None => Get(o, path)
    case Some((key, subpath)) =>
      match Get(o, key)
      case JObj(child) => NestedGet(child, subpath)
      case _ => JNull
  }

  /**
   * Closed form of `getValue`: when every leading segment is a member of `o`,
   * the result is `o`'s member named by the last segment; otherwise null.
   */
  lemma {:induction false} GetValueClosedForm(o: Fields, path: string)
    ensures GetValue(o, path) == if PrefixKeysPresent(o, path) then Get(o, LastSegment(path)) else JNull
    decreases |path|
  {
    match SplitFirst(path)
    case None =>
    case Some((key, sub)) =>
      if Get(o, key) != JNull {
        GetValueClosedForm(o, sub);
      }
  }

  /** With "a" present, `getValue(o, "a/b")` is `o.get("b")`, whatever "a" holds. */
  lemma GetValueSkipsChild(o: Fields, a: string, b: string)
    requires '/' !in a && '/' !in b
    requires Get(o, a) != JNull
    ensures GetValue(o, a + "/" + b) == Get(o, b)
  {
    SplitFirstOf(a, b);
  }

  /**
   * `setValue(o, path, value)`: a path without '/' is a plain put; otherwise a
   * missing (or null) first segment gets a fresh object, an existing object is
   * descended into, and anything else fails the cast to `JSONObject`.
   */
  function SetValue(o: Fields, path: string, value: JValue): (r: Result<Fields>)
    ensures '/' !in path ==> r == Ok(Put(o, path, value))
    ensures r.Err? ==> r.error == ClassCastException
    decreases |path|
  {
    match SplitFirst(path)
    case None => Ok(Put(o, path, value))
    case Some((key, subpath)) =>
      match Get(o, key)
      case JNull =>
        var sub := SetValue([], subpath, value);
        if sub.Err? then sub else Ok(Put(o, key, JObj(sub.value)))
      case JObj(child) =>
        var sub := SetValue(child, subpath, value);
        if sub.Err? then sub else Ok(Put(o, key, JObj(sub.value)))
      case _ => Err(ClassCastException)
  }

  /** The object `setValue` descends into for member `key`: the member itself, or a fresh one. */
  function ChildFor(o: Fields, key: string): Fields {
    if Get(o, key).JObj? then Get(o, key).fields else []
  }

  /** A successful `setValue` on "key/rest" puts the child's updated object under `key`. */
  lemma SetValueStepOk(o: Fields, key: string, rest: string, value: JValue)
    requires '/' !in key
    requires SetValue(o, key + "/" + rest, value).Ok?
    ensures SetValue(ChildFor(o, key), rest, value).Ok?
    ensures SetValue(o, key + "/" + rest, value) == Ok(Put(o, key, JObj(SetValue(ChildFor(o, key), rest, value).value)))
  {
    SplitFirstOf(key, rest);
    var path := key + "/" + rest;
    match Get(o, key)
    case JNull =>
      assert SetValue(o, path, value) == (var sub := SetValue([], rest, value); if sub.Err? then sub else Ok(Put(o, key, JObj(sub.value))));
    case JObj(child) =>
      assert SetValue(o, path, value) == (var sub := SetValue(child, rest, value); if sub.Err? then sub else Ok(Put(o, key, JObj(sub.value))));
    case _ =>
  }

  /** After a successful `setValue`, walking the path finds the value stored. */
  lemma {:induction false} SetValueReadsBack(o: Fields, path: string, value: JValue)
    requires SetValue(o, path, value).Ok?
    ensures NestedGet(SetValue(o, path, value).value, path) == value
    decreases |path|
  {
    match SplitFirst(path)
    case None =>
    case Some((key, rest)) =>
      SetValueStepOk(o, key, rest, value);
      var sub := SetValue(ChildFor(o, key), rest, value);
      SetValueReadsBack(ChildFor(o, key), rest, value);
      assert Get(Put(o, key, JObj(sub.value)), key) == JObj(sub.value);
  }

  /** A successful `setValue` keeps one entry per key, at every level it writes. */
  lemma {:induction false} SetValueKeepsUnique(o: Fields, path: string, value: JValue)
    requires UniqueKeys(o)
    requires SetValue(o, path, value).Ok?
    ensures UniqueKeys(SetValue(o, path, value).value)
  {
    match SplitFirst(path)
    case None =>
      PutKeys(o, path, value);
    case Some((key, rest)) =>
      SetValueStepOk(o, key, rest, value);
      PutKeys(o, key, JObj(SetValue(ChildFor(o, key), rest, value).value));
  }

  /** The first segment of a path: the member `setValue` creates or descends into. */
  function FirstSegment(path: string): string {
    match SplitFirst(path)
    case None => path
    case Some((key, _)) => key
  }

  /** `setValue` only touches the member named by the path's first segment. */
  lemma SetValueKeepsOtherMembers(o: Fields, path: string, value: JValue, k: string)
    requires SetValue(o, path, value).Ok?
    requires k != FirstSegment(path)
    ensures Get(SetValue(o, path, value).value, k) == Get(o, k)
  {
    match SplitFirst(path)
    case None =>
    case Some((key, rest)) =>
      SetValueStepOk(o, key, rest, value);
  }

  /** Setting into a fresh object never fails: every level below is created. */
  lemma {:induction false} SetValueOnEmptySucceeds(path: string, value: JValue)
    ensures SetValue([], path, value).Ok?
    decreases |path|
  {
    match SplitFirst(path)
    case None =>
    case Some((key, rest)) =>
      SetValueOnEmptySucceeds(rest, value);
      assert Get([], key) == JNull;
  }

  /** "k/rest" with `k` absent: `k` becomes an object holding `rest`. */
  lemma SetValueCreatesChild(o: Fields, k: string, rest: string, value: JValue)
    requires '/' !in k
    requires Get(o, k) == JNull
    ensures SetValue(o, k + "/" + rest, value).Ok?
    ensures SetValue([], rest, value).Ok?
    ensures Get(SetValue(o, k + "/" + rest, value).value, k) == JObj(SetValue([], rest, value).value)
  {
    SplitFirstOf(k, rest);
    SetValueOnEmptySucceeds(rest, value);
  }

  /** "k/rest" with a non-null, non-object member `k`: the cast fails. */
  lemma SetValueCastFails(o: Fields, k: string, rest: string, value: JValue)
    requires '/' !in k
    requires Get(o, k) != JNull && !Get(o, k).JObj?
    ensures SetValue(o, k + "/" + rest, value) == Err(ClassCastException)
  {
    SplitFirstOf(k, rest);
  }

  /**
   * `array(o, path, value)`: finds the array with `getValue`; when nothing is
   * found, a new array is stored with `setValue`. A non-null `value` is then
   * appended. The array `getValue` finds is `o`'s member named by the path's
   * last segment (see `GetValueClosedForm`), so that member is the one that grows.
   */
  function Array(o: Fields, path: string, value: JValue): (r: Result<Fields>)
    ensures r.Err? ==> r.error == ClassCastException
  {
    var oo := GetValue(o, path);
    var added := if value == JNull then [] else [value];
    if oo == JNull then SetValue(o, path, JArr(added))
    else if oo.JArr? then Ok(Put(o, LastSegment(path), JArr(oo.items + added)))
    else Err(ClassCastException)
  }

  /** On a plain key, `array` appends a non-null value to the member's array, creating it if needed. */
  lemma ArrayOnPlainKey(o: Fields, k: string, value: JValue)
    requires '/' !in k
    requires Get(o, k) == JNull || Get(o, k).JArr?
    ensures Array(o, k, value).Ok?
    ensures var before := if Get(o, k) == JNull then [] else Get(o, k).items;
            Get(Array(o, k, value).value, k) == JArr(before + if value == JNull then [] else [value])
    ensures forall k' :: k' != k ==> Get(Array(o, k, value).value, k') == Get(o, k')
  {
    assert LastSegment(k) == k;
  }

  /** A member that is neither null nor an array makes `array` fail. */
  lemma ArrayOnNonArray(o: Fields, k: string, value: JValue)
    requires '/' !in k
    requires Get(o, k) != JNull && !Get(o, k).JArr?
    ensures Array(o, k, value) == Err(ClassCastException)
  {
  }

  /**
   * Because `getValue` skips into the same object, appending twice through
   * "a/b" (with no top-level "b") creates a fresh array each time: the second
   * call replaces the first value instead of adding to it.
   */
  lemma ArrayNestedPathForgets(o: Fields, a: string, b: string, v1: JValue, v2: JValue)
    requires '/' !in a && '/' !in b && a != b
    requires Get(o, a) == JNull || Get(o, a).JObj?
    requires Get(o, b) == JNull && v2 != JNull
    ensures var o1 := Array(o, a + "/" + b, v1);
            o1.Ok? && Array(o1.value, a + "/" + b, v2).Ok? &&
            NestedGet(Array(o1.value, a + "/" + b, v2).value, a + "/" + b) == JArr([v2])
  {
    var p := a + "/" + b;
    SplitFirstOf(a, b);
    var added := if v1 == JNull then [] else [v1];
    assert GetValue(o, p) == JNull;
    var c1 := Put(ChildFor(o, a), b, JArr(added));
    assert SetValue(o, p, JArr(added)) == Ok(Put(o, a, JObj(c1)));
    var o1 := Put(o, a, JObj(c1));
    assert Array(o, p, v1) == Ok(o1);
    assert Get(o1, a) == JObj(c1) && Get(o1, b) == JNull;
    assert GetValue(o1, p) == JNull;
    var c2 := Put(c1, b, JArr([v2]));
    assert ChildFor(o1, a) == c1;
    assert SetValue(o1, p, JArr([v2])) == Ok(Put(o1, a, JObj(c2)));
    var o2 := Put(o1, a, JObj(c2));
    assert Array(o1, p, v2) == Ok(o2);
    assert NestedGet(o2, p) == NestedGet(c2, b);
  }

  /** `makeJSONArray(items...)`: an array holding exactly the items, in order. */
  function MakeJSONArray(items: seq<JValue>): (r: JValue)
    ensures r.JArr? && |r.items| == |items|
    ensures forall i :: 0 <= i < |items| ==> r.items[i] == items[i]
  {
    JArr(items)
  }
}

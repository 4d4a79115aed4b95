/**
 * `ClientComponent`: turns a component's configuration tree into the JSON
 * object the web client reads, and adds it to the "components" array of the
 * client configuration unless the component has been disabled.
 *
 * A configuration tree has the same shape as a JSON value (maps, lists and
 * scalars), so it is modelled as a `JValue`. Storing through `setValue` can
 * fail with a cast error, so conversions return a `Result`.
 */
module ClientComponents {
  import opened JavaLang
  import opened JSONUtils

  /**
   * `convert(o)`: a map goes through `convertMap`, a list through
   * `convertList`, and anything else is returned as it is.
   */
  function Convert(v: JValue): (r: Result<JValue>)
    ensures !v.JObj? && !v.JArr? ==> r == Ok(v)
    ensures r.Err? ==> r.error == ClassCastException
    decreases v, 1
  {
    match v
    case JObj(fields) =>
      var m := StoreAll([], fields, v);
      if m.Err? then Err(m.error) else Ok(JObj(m.value))
    case JArr(items) =>
      var l := ConvertItems(items, v);
      if l.Err? then Err(l.error) else Ok(JArr(l.value))
    case _ => Ok(v)
  }

  /**
   * The loop of `convertMap` from object `o` on: each entry's converted value
   * is stored with `setValue` under the entry's key, in order.
   */
  function StoreAll(o: Fields, entries: seq<(string, JValue)>, ghost parent: JValue): (r: Result<Fields>)
    requires forall i :: 0 <= i < |entries| ==> entries[i].1 < parent
    ensures r.Err? ==> r.error == ClassCastException
    decreases parent, 0, |entries|
  {
    if |entries| == 0 then Ok(o)
    else
      var c := Convert(entries[0].1);
      if c.Err? then Err(c.error)
      else
        var next := SetValue(o, entries[0].0, c.value);
        if next.Err? then Err(next.error) else StoreAll(next.value, entries[1..], parent)
  }

  /** `convertList(list)`: each element converted, in order. */
  function ConvertItems(items: seq<JValue>, ghost parent: JValue): (r: Result<seq<JValue>>)
    requires forall i :: 0 <= i < |items| ==> items[i] < parent
    ensures r.Ok? ==> |r.value| == |items|
    ensures r.Ok? ==> forall i :: 0 <= i < |items| ==> Convert(items[i]) == Ok(r.value[i])
    ensures r.Err? ==> r.error == ClassCastException
    decreases parent, 0, |items|
  {
    if |items| == 0 then Ok([])
    else
      var head := Convert(items[0]);
      var tail := ConvertItems(items[1..], parent);
      if head.Err? then Err(head.error)
      else if tail.Err? then Err(tail.error)
      else
        assert forall i :: 1 <= i < |items| ==> items[i] == items[1..][i - 1];
        Ok([head.value] + tail.value)
  }

  /** `convertList` fails exactly when converting one of the elements fails. */
  lemma {:induction false} ConvertItemsFails(items: seq<JValue>, parent: JValue)
    requires forall i :: 0 <= i < |items| ==> items[i] < parent
    ensures ConvertItems(items, parent).Err? <==> exists i :: 0 <= i < |items| && Convert(items[i]).Err?
    decreases |items|
  {
    if |items| > 0 {
      ConvertItemsFails(items[1..], parent);
      if exists i :: 1 <= i < |items| && Convert(items[i]).Err? {
        var i :| 1 <= i < |items| && Convert(items[i]).Err?;
        assert items[1..][i - 1] == items[i];
      }
    }
  }

  /**
   * `convertMap(m)`: a fresh object filled entry by entry with `setValue`.
   * A key with '/' therefore becomes a path into nested objects.
   */
  method ConvertMap(m: Fields) returns (r: Result<Fields>)
    ensures r == StoreAll([], m, JObj(m))
  {
    var o: Fields := [];
    var i := 0;
    while i < |m|
      invariant 0 <= i <= |m|
      invariant StoreAll([], m, JObj(m)) == StoreAll(o, m[i..], JObj(m))
    {
      var c := Convert(m[i].1);
      if c.Err? {
        return Err(c.error);
      }
      var next := SetValue(o, m[i].0, c.value);
      if next.Err? {
        return Err(next.error);
      }
      assert m[i..][1..] == m[i + 1..];
      o := next.value;
      i := i + 1;
    }
    r := Ok(o);
  }

  /** Keys that name a single member: no map anywhere in the tree has a key with '/'. */
  predicate FlatKeys(v: JValue) {
    match v
    case JObj(fields) => forall i :: 0 <= i < |fields| ==> '/' !in fields[i].0 && FlatKeys(fields[i].1)
    case JArr(items) => forall i :: 0 <= i < |items| ==> FlatKeys(items[i])
    case _ => true
  }

  /** A tree whose keys are all plain names always converts: every store is a plain put. */
  lemma {:induction false} ConvertFlatSucceeds(v: JValue)
    requires FlatKeys(v)
    ensures Convert(v).Ok?
    decreases v, 1
  {
    match v {
      case JObj(fields) =>
        StoreAllFlat([], fields, v);
      case JArr(items) =>
        forall i | 0 <= i < |items|
          ensures Convert(items[i]).Ok?
        {
          ConvertFlatSucceeds(items[i]);
        }
        ConvertItemsFails(items, v);
      case _ =>
    }
  }

  /** With plain keys, storing the entries one after another never fails. */
  lemma {:induction false} StoreAllFlat(o: Fields, entries: seq<(string, JValue)>, parent: JValue)
    requires forall i :: 0 <= i < |entries| ==> entries[i].1 < parent
    requires forall i :: 0 <= i < |entries| ==> '/' !in entries[i].0 && FlatKeys(entries[i].1)
    ensures StoreAll(o, entries, parent).Ok?
    decreases parent, 0, |entries|
  {
    if |entries| > 0 {
      ConvertFlatSucceeds(entries[0].1);
      var c := Convert(entries[0].1);
      StoreAllFlat(Put(o, entries[0].0, c.value), entries[1..], parent);
    }
  }

  /** With plain keys, a key no entry names keeps the value it had. */
  lemma {:induction false} StoreAllFlatAbsent(o: Fields, entries: seq<(string, JValue)>, parent: JValue, k: string)
    requires forall i :: 0 <= i < |entries| ==> entries[i].1 < parent
    requires forall i :: 0 <= i < |entries| ==> '/' !in entries[i].0 && FlatKeys(entries[i].1)
    requires forall i :: 0 <= i < |entries| ==> entries[i].0 != k
    ensures StoreAll(o, entries, parent).Ok?
    ensures Get(StoreAll(o, entries, parent).value, k) == Get(o, k)
    decreases |entries|
  {
    StoreAllFlat(o, entries, parent);
    if |entries| > 0 {
      ConvertFlatSucceeds(entries[0].1);
      var o' := Put(o, entries[0].0, Convert(entries[0].1).value);
      StoreAllFlatAbsent(o', entries[1..], parent, k);
    }
  }

  /**
   * With plain keys, the key of entry `i` ends up holding entry `i`'s converted
   * value when no later entry has the same key.
   */
  lemma {:induction false} StoreAllFlatGet(o: Fields, entries: seq<(string, JValue)>, parent: JValue, i: int)
    requires forall i :: 0 <= i < |entries| ==> entries[i].1 < parent
    requires forall i :: 0 <= i < |entries| ==> '/' !in entries[i].0 && FlatKeys(entries[i].1)
    requires 0 <= i < |entries|
    requires forall j :: i < j < |entries| ==> entries[j].0 != entries[i].0
    ensures StoreAll(o, entries, parent).Ok?
    ensures Ok(Get(StoreAll(o, entries, parent).value, entries[i].0)) == Convert(entries[i].1)
    decreases i
  {
    StoreAllFlat(o, entries, parent);
    ConvertFlatSucceeds(entries[0].1);
    var o' := Put(o, entries[0].0, Convert(entries[0].1).value);
    var rest := entries[1..];
    if i == 0 {
      StoreAllFlatAbsent(o', rest, parent, entries[0].0);
    } else {
      assert rest[i - 1] == entries[i];
      StoreAllFlatGet(o', rest, parent, i - 1);
    }
  }

  /** The last entry `convertMap` stores can be read back along its key's path. */
  lemma {:induction false} StoreAllLastReadsBack(o: Fields, entries: seq<(string, JValue)>, parent: JValue)
    requires forall i :: 0 <= i < |entries| ==> entries[i].1 < parent
    requires |entries| > 0
    requires StoreAll(o, entries, parent).Ok?
    ensures Ok(NestedGet(StoreAll(o, entries, parent).value, entries[|entries| - 1].0)) == Convert(entries[|entries| - 1].1)
    decreases |entries|
  {
    var c := Convert(entries[0].1);
    var next := SetValue(o, entries[0].0, c.value);
    if |entries| == 1 {
      SetValueReadsBack(o, entries[0].0, c.value);
    } else {
      var rest := entries[1..];
      StoreAllLastReadsBack(next.value, rest, parent);
      assert rest[|rest| - 1] == entries[|entries| - 1];
    }
  }

  /** A component as the web client sees it: its configuration and whether it was disabled. */
  class ClientComponent {
    var disabled: bool
    const configuration: Fields

    constructor (configuration: Fields)
      ensures this.configuration == configuration && !disabled
    {
      this.configuration := configuration;
      disabled := false;
    }

    /** `disableComponent()`. */
    method DisableComponent()
      modifies this
      ensures disabled
    {
      disabled := true;
    }

    /** The converted configuration without its top-level "class" key. */
    function ClientConfiguration(): (r: Result<Fields>)
      reads this
      ensures r.Err? <==> StoreAll([], configuration, JObj(configuration)).Err?
      ensures r.Ok? ==> Get(r.value, "class") == JNull
      ensures r.Ok? ==> forall k :: k != "class" ==> Get(r.value, k) == Get(StoreAll([], configuration, JObj(configuration)).value, k)
    {
      var m := StoreAll([], configuration, JObj(configuration));
      if m.Err? then Err(m.error) else Ok(Remove(m.value, "class"))
    }

    /** `createClientConfiguration()`: `convertMap(configuration)`, then `remove("class")`. */
    method CreateClientConfiguration() returns (r: Result<Fields>)
      ensures r == ClientConfiguration()
    {
      var o := ConvertMap(configuration);
      if o.Err? {
        return Err(o.error);
      }
      r := Ok(Remove(o.value, "class"));
    }

    /** `buildClientConfiguration(root)`: the client configuration appended to root's "components". */
    method BuildClientConfiguration(root: Fields) returns (r: Result<Fields>)
      ensures ClientConfiguration().Ok? ==> r == Array(root, "components", JObj(ClientConfiguration().value))
      ensures ClientConfiguration().Err? ==> r == Err(ClientConfiguration().error)
    {
      var o := CreateClientConfiguration();
      if o.Err? {
        return Err(o.error);
      }
      r := Array(root, "components", JObj(o.value));
    }

    /** The "buildclientconfiguration" listener: builds only while the component is enabled. */
    method OnBuildClientConfiguration(root: Fields) returns (r: Result<Fields>)
      ensures disabled ==> r == Ok(root)
      ensures !disabled && ClientConfiguration().Ok? ==> r == Array(root, "components", JObj(ClientConfiguration().value))
      ensures !disabled && ClientConfiguration().Err? ==> r == Err(ClientConfiguration().error)
    {
      if disabled {
        return Ok(root);
      }
      r := BuildClientConfiguration(root);
    }
  }

  /**
   * One build appends exactly one object to the "components" array (creating
   * the array when root has none) and leaves root's other members alone.
   */
  lemma BuildAppendsOne(root: Fields, conf: Fields)
    requires Get(root, "components") == JNull || Get(root, "components").JArr?
    ensures var before := if Get(root, "components") == JNull then [] else Get(root, "components").items;
            var r := Array(root, "components", JObj(conf));
            r.Ok? && Get(r.value, "components") == JArr(before + [JObj(conf)]) &&
            forall k :: k != "components" ==> Get(r.value, k) == Get(root, k)
  {
    ArrayOnPlainKey(root, "components", JObj(conf));
  }
}

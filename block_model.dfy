/**
 * `BlockModelImpl` of the mod-support API: the block ids and names a model
 * applies to, and the mask of metadata values it matches, rendered as the
 * `id=...,data=...` head of a model definition line.
 *
 * `METAMASK_ALL` is declared in the `BlockModel` interface, which is not part
 * of this model; it is taken as -1 (all 32 bits set), the mask's initial value.
 * The mask is held as the set of its one bits.
 */
module BlockModels {
  import opened JavaLang
  import Json

  const METAMASK_ALL: set<int> := ALL_BITS

  /** No value occurs twice. */
  predicate Distinct<T(==)>(s: seq<T>) {
    forall i, j :: 0 <= i < j < |s| ==> s[i] != s[j]
  }

  /** The metadata values 0..15 whose bits are set in a mask. */
  function MetaValues(mask: set<int>): (r: set<int>)
    ensures forall d :: d in r <==> d in mask && 0 <= d < 16
  {
    set d | d in mask && 0 <= d < 16
  }

  /** The `,data=i` entries of the 16-step loop, from bit `i` on. */
  function MetaEntries(mask: set<int>, i: int): string
    requires 0 <= i <= 16
    decreases 16 - i
  {
    if i == 16 then ""
    else (if i in mask then ",data=" + IntToString(i) else "") + MetaEntries(mask, i + 1)
  }

  /** The metadata part: ",data=*" for the all-values mask, else one entry per set bit in ascending order. */
  function MetaSuffix(mask: set<int>): string {
    if mask == METAMASK_ALL then ",data=*" else MetaEntries(mask, 0)
  }

  function IdText(id: int): string { "id=" + IntToString(id) }

  function NameText(name: string): string { "id=%" + name }

  /** The id part as written: each id is used as an index into the id array. */
  function IdsPart(ids: seq<int>): (r: Result<string>)
    ensures r.Err? <==> exists k :: 0 <= k < |ids| && !(0 <= ids[k] < |ids|)
    ensures r.Err? ==> r.error == ArrayIndexOutOfBoundsException
  {
    if exists k :: 0 <= k < |ids| && !(0 <= ids[k] < |ids|) then Err(ArrayIndexOutOfBoundsException)
    else Ok(Json.JoinComma(seq(|ids|, k requires 0 <= k < |ids| => IdText(ids[ids[k]]))))
  }

  function NamesPart(names: seq<string>): string {
    Json.JoinComma(seq(|names|, k requires 0 <= k < |names| => NameText(names[k])))
  }

  /** `getIDsAndMeta()` as written: null for a model with neither ids nor names. */
  function IDsAndMeta(ids: seq<int>, names: seq<string>, mask: set<int>): (r: Result<Option<string>>)
    ensures r == Ok(None) <==> ids == [] && names == []
    ensures r.Err? <==> IdsPart(ids).Err?
  {
    if ids == [] && names == [] then Ok(None)
    else
      var idPart := IdsPart(ids);
      if idPart.Err? then Err(idPart.error)
      else Ok(Some(idPart.value + NamesPart(names) + MetaSuffix(mask)))
  }

  /** Distinct positive values below `b` number fewer than `b`. */
  lemma {:induction false} DistinctBelow(s: seq<int>, b: int)
    requires b >= 1 && Distinct(s)
    requires forall k :: 0 <= k < |s| ==> 1 <= s[k] < b
    ensures |s| <= b - 1
    decreases b
  {
    if b == 1 {
    } else if b - 1 in s {
      var j :| 0 <= j < |s| && s[j] == b - 1;
      var rest := s[..j] + s[j + 1..];
      assert forall k :: 0 <= k < |rest| ==> rest[k] == (if k < j then s[k] else s[k + 1]);
      DistinctBelow(rest, b - 1);
    } else {
      DistinctBelow(s, b - 1);
    }
  }

  /**
   * With distinct positive ids, as `addBlockID` keeps them, some id is at least
   * the number of ids, so indexing by value always fails once there is an id.
   */
  lemma IdsByValueAlwaysFail(ids: seq<int>)
    requires |ids| > 0 && Distinct(ids)
    requires forall k :: 0 <= k < |ids| ==> ids[k] > 0
    ensures IdsPart(ids) == Err(ArrayIndexOutOfBoundsException)
  {
    if forall k :: 0 <= k < |ids| ==> ids[k] < |ids| {
      DistinctBelow(ids, |ids|);
      assert false;
    }
  }

  /** The id part as evidently intended: each id written by value. */
  function IdsPartIntended(ids: seq<int>): string {
    Json.JoinComma(seq(|ids|, k requires 0 <= k < |ids| => IdText(ids[k])))
  }

  /** `getIDsAndMeta()` as evidently intended: ids by value, and a comma between ids and names. */
  function IDsAndMetaIntended(ids: seq<int>, names: seq<string>, mask: set<int>): (r: Option<string>)
    ensures r.None? <==> ids == [] && names == []
  {
    if ids == [] && names == [] then None
    else
      var texts := seq(|ids|, k requires 0 <= k < |ids| => IdText(ids[k])) +
                   seq(|names|, k requires 0 <= k < |names| => NameText(names[k]));
      Some(Json.JoinComma(texts) + MetaSuffix(mask))
  }

  lemma {:induction false} JoinSnoc(parts: seq<string>, sep: char, last: string)
    requires |parts| >= 1
    ensures Join(parts + [last], sep) == Join(parts, sep) + [sep] + last
    decreases |parts|
  {
    if |parts| > 1 {
      assert (parts + [last])[1..] == parts[1..] + [last];
      JoinSnoc(parts[1..], sep, last);
    }
  }

  /** Comma-joining, built from the back, agrees with `Join` built from the front. */
  lemma {:induction false} JoinCommaIsJoin(parts: seq<string>)
    requires |parts| >= 1
    ensures Json.JoinComma(parts) == Join(parts, ',')
    decreases |parts|
  {
    if |parts| > 1 {
      var init := parts[..|parts| - 1];
      JoinCommaIsJoin(init);
      JoinSnoc(init, ',', parts[|parts| - 1]);
      assert init + [parts[|parts| - 1]] == parts;
    }
  }

  /**
   * In the intended line, with names free of ',', the comma-separated fields
   * before the metadata are exactly the ids, then the names, in order.
   */
  lemma IntendedFieldsRecoverEntries(ids: seq<int>, names: seq<string>)
    requires |ids| + |names| >= 1
    requires forall k :: 0 <= k < |names| ==> ',' !in names[k]
    ensures var texts := seq(|ids|, k requires 0 <= k < |ids| => IdText(ids[k])) +
                         seq(|names|, k requires 0 <= k < |names| => NameText(names[k]));
            Split(Json.JoinComma(texts), {','}) == texts
  {
    var texts := seq(|ids|, k requires 0 <= k < |ids| => IdText(ids[k])) +
                 seq(|names|, k requires 0 <= k < |names| => NameText(names[k]));
    forall k, c | 0 <= k < |texts| && c in texts[k]
      ensures c !in {','}
    {
      if k < |ids| {
        assert texts[k] == "id=" + IntToString(ids[k]);
      } else {
        assert texts[k] == "id=%" + names[k - |ids|];
      }
    }
    JoinCommaIsJoin(texts);
    SplitOfJoin(texts, ',', {','});
  }

  /** The ids, the names and the metadata mask of one block model. */
  class BlockModelImpl {
    var ids: seq<int>
    var names: seq<string>
    var metaMask: set<int>

    /** Ids are positive and distinct, names distinct; a mask is all-values or within bits 0..15. */
    ghost predicate Valid()
      reads this
    {
      Distinct(ids) && (forall k :: 0 <= k < |ids| ==> ids[k] > 0) && Distinct(names) &&
      (metaMask == METAMASK_ALL || forall d :: d in metaMask ==> 0 <= d < 16)
    }

    /** `BlockModelImpl(blkid, mdf)`. */
    constructor WithID(blkid: int)
      ensures ids == (if blkid > 0 then [blkid] else []) && names == [] && metaMask == METAMASK_ALL
      ensures Valid()
    {
      ids := [];
      names := [];
      metaMask := METAMASK_ALL;
      new;
      AddBlockID(blkid);
    }

    /** `BlockModelImpl(blkname, mdf)`. */
    constructor WithName(blkname: string)
      ensures ids == [] && names == [blkname] && metaMask == METAMASK_ALL
      ensures Valid()
    {
      ids := [];
      names := [];
      metaMask := METAMASK_ALL;
      new;
      AddBlockName(blkname);
    }

    /** `addBlockID(blockID)`: ids <= 0 and ids already present are ignored; others go at the end. */
    method AddBlockID(blockID: int)
      requires Valid()
      modifies this
      ensures blockID > 0 && blockID !in old(ids) ==> ids == old(ids) + [blockID]
      ensures !(blockID > 0 && blockID !in old(ids)) ==> ids == old(ids)
      ensures names == old(names) && metaMask == old(metaMask)
      ensures Valid()
    {
      if blockID > 0 {
        var found := blockID in ids;
        if found {
          return;
        }
        ids := ids + [blockID];
      }
    }

    /** `addBlockName(blockname)`: appended only if not already present. */
    method AddBlockName(blockname: string)
      requires Valid()
      modifies this
      ensures blockname !in old(names) ==> names == old(names) + [blockname]
      ensures blockname in old(names) ==> names == old(names)
      ensures ids == old(ids) && metaMask == old(metaMask)
      ensures Valid()
    {
      var found := blockname in names;
      if found {
        return;
      }
      names := names + [blockname];
    }

    /**
     * `setMetaValue(data)`: a negative value selects all values; 0..15 adds
     * that value, dropping the all-values mask first; larger values are ignored.
     */
    method SetMetaValue(data: int)
      requires Valid()
      modifies this
      ensures data < 0 ==> metaMask == METAMASK_ALL
      ensures 0 <= data < 16 ==> metaMask == (if old(metaMask) == METAMASK_ALL then {} else old(metaMask)) + {data}
      ensures data >= 16 ==> metaMask == old(metaMask)
      ensures ids == old(ids) && names == old(names)
      ensures Valid()
    {
      if data < 0 {
        metaMask := METAMASK_ALL;
      } else if data < 16 {
        if metaMask == METAMASK_ALL {
          metaMask := {};
        }
        metaMask := metaMask + {data};
      }
    }

    /** `getIDsAndMeta()`. */
    method GetIDsAndMeta() returns (r: Result<Option<string>>)
      ensures r == IDsAndMeta(ids, names, metaMask)
    {
      if |ids| == 0 && |names| == 0 {
        return Ok(None);
      }
      var idPart := IdsPart(ids);
      if idPart.Err? {
        return Err(idPart.error);
      }
      var s := idPart.value + NamesPart(names);
      if metaMask == METAMASK_ALL {
        s := s + ",data=*";
      } else {
        s := AppendMetaEntries(s, metaMask);
      }
      r := Ok(Some(s));
    }

    /** `getIDsAndMeta()` as evidently intended: every id by value, then every name, comma-separated. */
    method GetIDsAndMetaIntended() returns (r: Option<string>)
      ensures r == IDsAndMetaIntended(ids, names, metaMask)
    {
      if |ids| == 0 && |names| == 0 {
        return None;
      }
      var idList, nameList := ids, names;
      var texts := seq(|idList|, k requires 0 <= k < |idList| => IdText(idList[k])) +
                   seq(|nameList|, k requires 0 <= k < |nameList| => NameText(nameList[k]));
      var s := Json.JoinComma(texts);
      if metaMask == METAMASK_ALL {
        s := s + ",data=*";
      } else {
        s := AppendMetaEntries(s, metaMask);
      }
      r := Some(s);
    }
  }

  /** The 16-step loop of `getIDsAndMeta()`: one ",data=i" per set bit i, ascending. */
  method AppendMetaEntries(s0: string, mask: set<int>) returns (s: string)
    ensures s == s0 + MetaEntries(mask, 0)
  {
    s := s0;
    var i := 0;
    while i < 16
      invariant 0 <= i <= 16
      invariant s + MetaEntries(mask, i) == s0 + MetaEntries(mask, 0)
    {
      MetaEntriesStep(s, mask, i);
      if i in mask {
        s := s + ",data=" + IntToString(i);
      }
      i := i + 1;
    }
    assert MetaEntries(mask, 16) == "";
  }

  lemma MetaEntriesStep(s: string, mask: set<int>, i: int)
    requires 0 <= i < 16
    ensures i in mask ==> s + MetaEntries(mask, i) == s + ",data=" + IntToString(i) + MetaEntries(mask, i + 1)
    ensures i !in mask ==> s + MetaEntries(mask, i) == s + MetaEntries(mask, i + 1)
  {
    if i in mask {
      Json.AppendAssoc(s, ",data=" + IntToString(i), MetaEntries(mask, i + 1));
      Json.AppendAssoc(s, ",data=", IntToString(i));
    }
  }

  /** Adding a value 0..15 puts it among the mask's values; from the all-values mask it is the only one. */
  lemma SetMetaValueAdds(mask: set<int>, data: int)
    requires 0 <= data < 16
    ensures var m := (if mask == METAMASK_ALL then {} else mask) + {data};
            MetaValues(m) == (if mask == METAMASK_ALL then {} else MetaValues(mask)) + {data}
  {
  }

  /**
   * Setting one value on a fresh model (whose mask is all-values) makes the
   * metadata part exactly that value's entry.
   */
  lemma {:induction false} SingleMetaEntry(data: int, i: int)
    requires 0 <= data < 16 && 0 <= i <= 16
    ensures MetaEntries({data}, i) == if i <= data then ",data=" + IntToString(data) else ""
    decreases 16 - i
  {
    if i < 16 {
      SingleMetaEntry(data, i + 1);
    }
  }
}

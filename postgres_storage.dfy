/**
 * The PostgreSQL back end's `write` over its tiles table. The table is a map
 * from (map key, x, y, zoom) to the stored hash and image; the SQL statements
 * become updates of that map.
 */
module PostgresStorage {
  import opened JavaLang

  /** The primary key of a tile row. */
  datatype TileKey = TileKey(mapKey: int, x: int, y: int, zoom: int)

  datatype TileRow = TileRow(hash: int, image: seq<bv8>)

  /**
   * The rows after a `write`, with whether it succeeded: refused without a
   * map key or for a delete of a missing row, otherwise delete or upsert.
   */
  function WriteOutcome(rows: map<TileKey, TileRow>, mapKey: Option<int>, x: int, y: int, zoom: int,
                        hash: int, encImage: Option<seq<bv8>>): (r: (bool, map<TileKey, TileRow>))
    ensures !r.0 ==> r.1 == rows
    ensures r.0 ==> mapKey.Some?
    ensures r.0 && encImage.Some? ==> TileKey(mapKey.value, x, y, zoom) in r.1 &&
                                      r.1[TileKey(mapKey.value, x, y, zoom)] == TileRow(hash, encImage.value)
    ensures r.0 && encImage.None? ==> TileKey(mapKey.value, x, y, zoom) !in r.1
    ensures r.0 ==> forall k :: k != TileKey(mapKey.value, x, y, zoom) ==> (k in r.1 <==> k in rows)
  {
    if mapKey.None? then (false, rows)
    else
      var key := TileKey(mapKey.value, x, y, zoom);
      if encImage.None? then
        if key in rows then (true, rows - {key}) else (false, rows)
      else (true, rows[key := TileRow(hash, encImage.value)])
  }

  /** Deleting a tile twice: the second delete is refused and changes nothing. */
  lemma DeleteTwiceRefused(rows: map<TileKey, TileRow>, mapKey: int, x: int, y: int, zoom: int, h1: int, h2: int)
    ensures var first := WriteOutcome(rows, Some(mapKey), x, y, zoom, h1, None);
            var second := WriteOutcome(first.1, Some(mapKey), x, y, zoom, h2, None);
            !second.0 && second.1 == first.1
  {
  }

  /** A write never touches another tile's row. */
  lemma WriteIsLocal(rows: map<TileKey, TileRow>, mapKey: Option<int>, x: int, y: int, zoom: int,
                     hash: int, encImage: Option<seq<bv8>>, k: TileKey)
    requires k in rows && (mapKey.None? || k != TileKey(mapKey.value, x, y, zoom))
    ensures var r := WriteOutcome(rows, mapKey, x, y, zoom, hash, encImage).1;
            k in r && r[k] == rows[k]
  {
  }

  class TileTable {
    var rows: map<TileKey, TileRow>
    /** The tiles handed to the world's `enqueueZoomOutUpdate`, oldest first. */
    var zoomOutRequests: seq<TileKey>

    constructor ()
      ensures rows == map[] && zoomOutRequests == []
    {
      rows := map[];
      zoomOutRequests := [];
    }

    /** `exists()`: a tile without a map key never exists. */
    function Exists(mapKey: Option<int>, x: int, y: int, zoom: int): (r: bool)
      reads this
      ensures r ==> mapKey.Some?
      ensures mapKey.Some? ==> (r <==> TileKey(mapKey.value, x, y, zoom) in rows)
    {
      mapKey.Some? && TileKey(mapKey.value, x, y, zoom) in rows
    }

    /**
     * `write(hash, encImage)`: refused without a map key, or when deleting a
     * tile that does not exist; otherwise a null image deletes the row, and an
     * image replaces an existing row or inserts a new one. A successful
     * write of a zoom-0 tile then signals the world to update its zoom-out.
     */
    method Write(mapKey: Option<int>, x: int, y: int, zoom: int, hash: int, encImage: Option<seq<bv8>>) returns (ok: bool)
      modifies this
      ensures !ok <==> mapKey.None? || (encImage.None? && !old(Exists(mapKey, x, y, zoom)))
      ensures (ok, rows) == WriteOutcome(old(rows), mapKey, x, y, zoom, hash, encImage)
      ensures zoomOutRequests == old(zoomOutRequests) + if ok && zoom == 0 then [TileKey(mapKey.value, x, y, zoom)] else []
    {
      if mapKey.None? {
        return false;
      }
      var present := Exists(mapKey, x, y, zoom);
      if encImage.None? && !present {
        return false;
      }
      var key := TileKey(mapKey.value, x, y, zoom);
      if encImage.None? {
        rows := rows - {key};
      } else if present {
        rows := rows[key := TileRow(hash, encImage.value)];
      } else {
        rows := rows[key := TileRow(hash, encImage.value)];
      }
      if zoom == 0 {
        zoomOutRequests := zoomOutRequests + [key];
      }
      ok := true;
    }
  }
}

/**
 * The SQLite back end beyond tile addressing: the length of a stored image.
 * A tile row's `ImageLen` column, when positive, is the image length; older
 * rows leave it at 0 and pad the BLOB with zero bytes, which `read` trims.
 */
module SQLiteStorage {

  /** The BLOB without its trailing zero bytes: the reference the trim loop is held to. */
  function TrimZeros(img: seq<bv8>): (r: seq<bv8>)
    ensures |r| <= |img| && r == img[..|r|]
    ensures forall k :: |r| <= k < |img| ==> img[k] == 0
    ensures |r| == 0 || r[|r| - 1] != 0
  {
    if |img| == 0 || img[|img| - 1] != 0 then img
    else TrimZeros(img[..|img| - 1])
  }

  /** `len` cuts off exactly the trailing zero bytes of `img`. */
  predicate IsTrimmedLength(img: seq<bv8>, len: int) {
    0 <= len <= |img| && (forall k :: len <= k < |img| ==> img[k] == 0) && (len == 0 || img[len - 1] != 0)
  }

  /** Only one length cuts off exactly the trailing zeros, and it is the reference's. */
  lemma TrimmedLengthUnique(img: seq<bv8>, len: int)
    requires IsTrimmedLength(img, len)
    ensures len == |TrimZeros(img)|
  {
  }

  /** What `read` hands out: the BLOB and the number of its bytes that form the image. */
  datatype TileImage = TileImage(buf: seq<bv8>, len: int)

  /** The image `read` returns for a row: `ImageLen` when positive, else the trimmed BLOB length. */
  function TileImageOf(img: seq<bv8>, imageLen: int): (r: TileImage)
    ensures r.buf == img
    ensures imageLen <= 0 ==> 0 <= r.len <= |img| && img[..r.len] == TrimZeros(img)
    ensures imageLen > 0 ==> r.len == imageLen
  {
    if imageLen > 0 then TileImage(img, imageLen) else TileImage(img, |TrimZeros(img)|)
  }

  /** The length computation in `read` (and `getMarkerImage`), with its trim loop. */
  method ImageLength(img: seq<bv8>, imageLen: int) returns (len: int)
    ensures imageLen > 0 ==> len == imageLen
    ensures imageLen <= 0 ==> IsTrimmedLength(img, len)
  {
    len := imageLen;
    if len <= 0 {
      len := |img|;
      while len > 0 && img[len - 1] == 0
        invariant 0 <= len <= |img|
        invariant forall k :: len <= k < |img| ==> img[k] == 0
      {
        len := len - 1;
      }
    }
  }

  /** `read` on a row that exists: the BLOB with the computed image length. */
  method ReadTileImage(img: seq<bv8>, imageLen: int) returns (image: TileImage)
    ensures image == TileImageOf(img, imageLen)
  {
    var len := ImageLength(img, imageLen);
    if imageLen <= 0 {
      TrimmedLengthUnique(img, len);
    }
    image := TileImage(img, len);
  }

  /** `getMarkerImage`: the length is computed but the stream wraps the whole BLOB. */
  method MarkerImage(img: seq<bv8>, imageLen: int) returns (image: TileImage)
    ensures image == TileImage(img, |img|)
  {
    var len := ImageLength(img, imageLen);
    image := TileImage(img, |img|);
  }

  /** A padded BLOB: `read` trims the padding off a tile, but a marker icon keeps it. */
  lemma MarkerKeepsPadding(img: seq<bv8>, imageLen: int)
    requires imageLen <= 0 && |img| > 0 && img[|img| - 1] == 0
    ensures TileImageOf(img, imageLen).len < |img|
  {
  }
}

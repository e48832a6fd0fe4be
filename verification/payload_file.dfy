/** payload.bin (src/Storage/Binary/PayloadFile.php): an append-only file of
    JSON documents, each addressed by the (offset, length) locator `append`
    returns. JSON encoding and decoding are parameters: `encode` gives None
    where `json_encode` returns false, and `decode` gives None where
    `json_decode` reports an error. */
module PayloadFile {
  import opened Types

  datatype Locator = Locator(offset: int, length: int)

  /** `append`: encode, then write the bytes at the end of the file. */
  function Append<T>(f: Bytes, metadata: T, encode: T -> Option<Bytes>): (r: Result<(Bytes, Locator)>)
    ensures r.Err? <==> encode(metadata).None?
    ensures r.Err? ==> r.error == EncodeFailed
    ensures r.Ok? ==> var (g, loc) := r.value;
      && loc.offset == |f|
      && loc.length >= 0
      && |g| == |f| + loc.length
      && g[..|f|] == f
      && g[loc.offset..loc.offset + loc.length] == encode(metadata).value
  {
    match encode(metadata)
    case None => Err(EncodeFailed)
    case Some(json) =>
      assert (f + json)[..|f|] == f && (f + json)[|f|..|f| + |json|] == json;
      Ok((f + json, Locator(|f|, |json|)))
  }

  /** `read`: null for a negative offset, a non-positive length or a range
      running past the end of the file; otherwise decode the range, failing
      when the bytes are not valid JSON. */
  function Read<T>(f: Bytes, offset: int, length: int, decode: Bytes -> Option<T>): (r: Result<Option<T>>)
    ensures offset < 0 || length <= 0 || offset + length > |f| ==> r == Ok(None)
    ensures 0 <= offset && 0 < length && offset + length <= |f| ==>
      (r.Err? <==> decode(f[offset..offset + length]).None?) &&
      (r.Ok? ==> r.value == decode(f[offset..offset + length]))
    ensures r.Err? ==> r.error == DecodeFailed
  {
    if offset < 0 || length <= 0 then Ok(None)
    else if offset + length > |f| then Ok(None)
    else
      match decode(f[offset..offset + length])
      case None => Err(DecodeFailed)
      case Some(v) => Ok(Some(v))
  }

  /** Reading the locator of a fresh append decodes exactly the appended
      bytes; when decoding undoes encoding it gives the metadata back. */
  lemma {:induction false} AppendThenRead<T>(f: Bytes, metadata: T, encode: T -> Option<Bytes>, decode: Bytes -> Option<T>)
    requires Append(f, metadata, encode).Ok?
    requires |encode(metadata).value| > 0
    ensures var (g, loc) := Append(f, metadata, encode).value;
      Read(g, loc.offset, loc.length, decode) ==
        (if decode(encode(metadata).value).Some? then Ok(decode(encode(metadata).value))
         else Err(DecodeFailed))
    ensures decode(encode(metadata).value) == Some(metadata) ==>
      var (g, loc) := Append(f, metadata, encode).value;
      Read(g, loc.offset, loc.length, decode) == Ok(Some(metadata))
  {
  }

  /** An append never alters bytes already written, so every read inside
      the old file gives what it gave before. */
  lemma {:induction false} AppendKeepsEarlier<T>(f: Bytes, metadata: T, encode: T -> Option<Bytes>, decode: Bytes -> Option<T>,
                              offset: int, length: int)
    requires Append(f, metadata, encode).Ok?
    requires offset + length <= |f|
    ensures Read(Append(f, metadata, encode).value.0, offset, length, decode) == Read(f, offset, length, decode)
  {
    var g := Append(f, metadata, encode).value.0;
    if 0 <= offset && 0 < length {
      assert g[offset..offset + length] == f[offset..offset + length];
    }
  }

  /** Two successive appends get adjacent, non-overlapping ranges. */
  lemma {:induction false} AppendsAreContiguous<T>(f: Bytes, a: T, b: T, encode: T -> Option<Bytes>)
    requires Append(f, a, encode).Ok?
    requires Append(Append(f, a, encode).value.0, b, encode).Ok?
    ensures var (g, first) := Append(f, a, encode).value;
      var (h, second) := Append(g, b, encode).value;
      && first.offset + first.length == second.offset
      && second.offset + second.length == |h|
      && h[first.offset..first.offset + first.length] == encode(a).value
  {
  }
}

/** vector.bin (src/Storage/Binary/VectorFile.php): an append-only file of
    fixed-size rows. Row i starts at byte i * VECTOR_ROW_SIZE and holds a flag
    byte (0 active, anything else deleted), the external id NUL-padded to 36
    bytes, and the vector as DIMENSION packed floats.

    The file is modelled as its bytes, so a trailing partial row (a file whose
    size is not a multiple of the row size) is read exactly as the PHP reads
    it: short `fread`s at the end of the file and `unpack('f*')` dropping an
    incomplete float. */
module VectorFile {
  import opened Types
  import opened ByteString
  import opened Config

  type File = Bytes

  const ACTIVE: Byte := 0
  const DELETED: Byte := 1

  /** What `read` and `scan` return for a row. */
  datatype Record = Record(id: Bytes, vector: Vector)

  /** `pack('f*', ...$vector)`. */
  function EncodeFloats(v: Vector): (b: Bytes)
    ensures |b| == 4 * |v|
  {
    if |v| == 0 then [] else v[0] + EncodeFloats(v[1..])
  }

  /** `array_values(unpack('f*', $b))`: one float per complete group of four
      bytes; an incomplete trailing group is ignored. */
  function DecodeFloats(b: Bytes): (v: Vector)
    ensures |v| == |b| / 4
  {
    if |b| < 4 then [] else [b[..4]] + DecodeFloats(b[4..])
  }

  lemma {:induction false} DecodeEncode(v: Vector)
    ensures DecodeFloats(EncodeFloats(v)) == v
  {
    if |v| > 0 {
      var b := EncodeFloats(v);
      assert b[..4] == v[0] && b[4..] == EncodeFloats(v[1..]);
      DecodeEncode(v[1..]);
    }
  }

  lemma {:induction false} EncodeDecode(b: Bytes)
    requires |b| % 4 == 0
    ensures EncodeFloats(DecodeFloats(b)) == b
  {
    if |b| >= 4 {
      EncodeDecode(b[4..]);
      assert DecodeFloats(b)[1..] == DecodeFloats(b[4..]);
      assert b == b[..4] + b[4..];
    }
  }

  /** The bytes an `fread` of b - a bytes at offset a returns: fewer at the end
      of the file, none past it. */
  function Clip(f: File, a: nat, b: nat): Bytes
    requires a <= b
  {
    if a >= |f| then [] else f[a..Min(b, |f|)]
  }

  function Offset(id: nat): nat {
    id * VECTOR_ROW_SIZE
  }

  /** The file holds whole rows only. */
  predicate Aligned(f: File) {
    |f| % VECTOR_ROW_SIZE == 0
  }

  /** `append`: the checks in the order the source makes them, then one row
      at the end of the file; the new internal id is the old row count. */
  function Append(f: File, externalId: Bytes, vector: Vector): (r: Result<(File, nat)>)
    ensures r == Err(IdTooLong) <==> |externalId| > VECTOR_ID_SIZE
    ensures r == Err(DimensionMismatch) <==> |externalId| <= VECTOR_ID_SIZE && |vector| != DIMENSION
    ensures r == Err(Corrupted) <==>
      |externalId| <= VECTOR_ID_SIZE && |vector| == DIMENSION && !Aligned(f)
    ensures r.Ok? <==> |externalId| <= VECTOR_ID_SIZE && |vector| == DIMENSION && Aligned(f)
    ensures r.Ok? ==> Aligned(f) && Aligned(r.value.0)
    ensures r.Ok? ==> |r.value.0| == |f| + VECTOR_ROW_SIZE && r.value.0[..|f|] == f
    ensures r.Ok? ==> Offset(r.value.1) == |f|
  {
    if |externalId| > VECTOR_ID_SIZE then Err(IdTooLong)
    else if |vector| != DIMENSION then Err(DimensionMismatch)
    else if !Aligned(f) then Err(Corrupted)
    else
      var row := [ACTIVE] + Fit(externalId, VECTOR_ID_SIZE, NUL) + EncodeFloats(vector);
      assert (f + row)[..|f|] == f;
      Ok((f + row, |f| / VECTOR_ROW_SIZE))
  }

  /** `read`: null past the end of the file and for a row whose flag is not
      0; otherwise the id without its NUL padding and the vector. */
  function Read(f: File, id: nat): (r: Option<Record>)
    ensures r.Some? <==> Offset(id) < |f| && f[Offset(id)] == ACTIVE
    ensures r.Some? ==> |r.value.id| <= VECTOR_ID_SIZE && FitsField(r.value.id, VECTOR_ID_SIZE)
  {
    var off := Offset(id);
    if off >= |f| || f[off] != ACTIVE then None
    else
      Some(Record(RTrimNul(Clip(f, off + 1, off + 1 + VECTOR_ID_SIZE)),
                  DecodeFloats(Clip(f, off + 1 + VECTOR_ID_SIZE, off + VECTOR_ROW_SIZE))))
  }

  /** `readVectorOnly`: the vector part of a row, whatever its flag; null only
      when the vector part starts past the end of the file. */
  function ReadVectorOnly(f: File, id: nat): (r: Option<Vector>)
    ensures r.Some? <==> Offset(id) + VECTOR_FLAG_SIZE + VECTOR_ID_SIZE < |f|
    ensures r.Some? ==> |r.value| <= DIMENSION
  {
    var off := Offset(id) + VECTOR_FLAG_SIZE + VECTOR_ID_SIZE;
    if off >= |f| then None
    else Some(DecodeFloats(Clip(f, off, off + VECTOR_DATA_SIZE)))
  }

  /** `delete`: set the flag byte of a row inside the file; a no-op past the end. */
  function Delete(f: File, id: nat): (r: File)
    ensures |r| == |f|
    ensures forall k :: 0 <= k < |f| && k != Offset(id) ==> r[k] == f[k]
    ensures Offset(id) < |f| ==> r[Offset(id)] == DELETED
  {
    if Offset(id) >= |f| then f else f[Offset(id) := DELETED]
  }

  // ---------------------------------------------------------------------
  // Round trip and frame properties

  /** A row of an aligned file lies wholly inside it. */
  lemma {:induction false} RowInside(f: File, id: nat)
    requires Aligned(f) && Offset(id) < |f|
    ensures Offset(id) + VECTOR_ROW_SIZE <= |f|
  {
    var n := |f| / VECTOR_ROW_SIZE;
    assert |f| == n * VECTOR_ROW_SIZE;
    assert id < n;
  }

  /** Reading a freshly appended row gives back the id as the fixed 36-byte
      field stores it (exactly the id when it does not end in NUL) and the
      vector. */
  lemma {:induction false} AppendThenRead(f: File, externalId: Bytes, vector: Vector)
    requires Append(f, externalId, vector).Ok?
    ensures var (g, id) := Append(f, externalId, vector).value;
      && Read(g, id) == Some(Record(StoredField(externalId, VECTOR_ID_SIZE), vector))
      && ReadVectorOnly(g, id) == Some(vector)
    ensures FitsField(externalId, VECTOR_ID_SIZE) ==>
      Read(Append(f, externalId, vector).value.0, Append(f, externalId, vector).value.1)
        == Some(Record(externalId, vector))
  {
    var (g, id) := Append(f, externalId, vector).value;
    var off := |f|;
    var field := Fit(externalId, VECTOR_ID_SIZE, NUL);
    var data := EncodeFloats(vector);
    assert g == f + [ACTIVE] + field + data;
    assert g[off] == ACTIVE;
    assert Clip(g, off + 1, off + 1 + VECTOR_ID_SIZE) == field;
    assert Clip(g, off + 1 + VECTOR_ID_SIZE, off + VECTOR_ROW_SIZE) == data;
    assert Clip(g, off + 1 + VECTOR_ID_SIZE, off + 1 + VECTOR_ID_SIZE + VECTOR_DATA_SIZE) == data;
    DecodeEncode(vector);
  }

  /** Appending leaves every other row as it reads. */
  lemma {:induction false} AppendKeepsOthers(f: File, externalId: Bytes, vector: Vector, other: nat)
    requires Append(f, externalId, vector).Ok?
    requires other != Append(f, externalId, vector).value.1
    ensures var g := Append(f, externalId, vector).value.0;
      Read(g, other) == Read(f, other) && ReadVectorOnly(g, other) == ReadVectorOnly(f, other)
  {
    var (g, id) := Append(f, externalId, vector).value;
    if other < id {
      assert Offset(other) + VECTOR_ROW_SIZE <= Offset(id);
      var off := Offset(other);
      assert Clip(g, off + 1, off + 1 + VECTOR_ID_SIZE) == Clip(f, off + 1, off + 1 + VECTOR_ID_SIZE);
      assert Clip(g, off + 1 + VECTOR_ID_SIZE, off + VECTOR_ROW_SIZE)
          == Clip(f, off + 1 + VECTOR_ID_SIZE, off + VECTOR_ROW_SIZE);
      assert Clip(g, off + 1 + VECTOR_ID_SIZE, off + 1 + VECTOR_ID_SIZE + VECTOR_DATA_SIZE)
          == Clip(f, off + 1 + VECTOR_ID_SIZE, off + 1 + VECTOR_ID_SIZE + VECTOR_DATA_SIZE);
    } else {
      assert Offset(other) >= Offset(id) + VECTOR_ROW_SIZE;
    }
  }

  /** A deleted row reads as null. */
  lemma {:induction false} DeleteThenRead(f: File, id: nat)
    ensures Read(Delete(f, id), id).None?
  {
  }

  /** Deleting a row changes no other row, and leaves every vector readable
      through `readVectorOnly` as it was, the deleted row's included. */
  lemma {:induction false} DeleteKeepsOthers(f: File, id: nat, other: nat)
    ensures other != id ==> Read(Delete(f, id), other) == Read(f, other)
    ensures ReadVectorOnly(Delete(f, id), other) == ReadVectorOnly(f, other)
  {
    var g := Delete(f, id);
    var off := Offset(other);
    if off < |f| {
      assert off + 1 > Offset(id) || off + 1 + VECTOR_ID_SIZE + VECTOR_DATA_SIZE <= Offset(id)
        || other == id;
      if other != id {
        assert off + VECTOR_ROW_SIZE <= Offset(id) || off >= Offset(id) + VECTOR_ROW_SIZE;
        assert Clip(g, off + 1, off + 1 + VECTOR_ID_SIZE) == Clip(f, off + 1, off + 1 + VECTOR_ID_SIZE);
        assert Clip(g, off + 1 + VECTOR_ID_SIZE, off + VECTOR_ROW_SIZE)
            == Clip(f, off + 1 + VECTOR_ID_SIZE, off + VECTOR_ROW_SIZE);
      }
      assert Clip(g, off + 1 + VECTOR_ID_SIZE, off + 1 + VECTOR_ID_SIZE + VECTOR_DATA_SIZE)
          == Clip(f, off + 1 + VECTOR_ID_SIZE, off + 1 + VECTOR_ID_SIZE + VECTOR_DATA_SIZE);
    }
  }

  /** Deleting twice is deleting once. */
  lemma {:induction false} DeleteIdempotent(f: File, id: nat)
    ensures Delete(Delete(f, id), id) == Delete(f, id)
  {
  }

  /** In an aligned file, `readVectorOnly` of a readable row is its vector. */
  lemma {:induction false} ReadVectorOnlyAgrees(f: File, id: nat)
    requires Aligned(f) && Read(f, id).Some?
    ensures ReadVectorOnly(f, id) == Some(Read(f, id).value.vector)
  {
    RowInside(f, id);
  }

  /** In an aligned file every row's vector has DIMENSION elements when the
      row was written by `append`: reading a row inside the file gives a full
      vector. */
  lemma {:induction false} AlignedRowsAreFull(f: File, id: nat)
    requires Aligned(f) && Offset(id) < |f|
    ensures ReadVectorOnly(f, id).Some? && |ReadVectorOnly(f, id).value| == DIMENSION
  {
    RowInside(f, id);
  }

  // ---------------------------------------------------------------------
  // scan

  /** Internal ids of the readable rows at or after `from`, in file order. */
  function ActiveIdsFrom(f: File, from: nat): (ids: seq<nat>)
    decreases |f| - Offset(from)
  {
    if Offset(from) >= |f| then []
    else (if Read(f, from).Some? then [from] else []) + ActiveIdsFrom(f, from + 1)
  }

  function ActiveIds(f: File): seq<nat> {
    ActiveIdsFrom(f, 0)
  }

  /** The ids `scan` reports are exactly the readable rows, each once, in
      increasing order. */
  lemma {:induction false} ActiveIdsFromMembers(f: File, from: nat)
    ensures forall id :: id in ActiveIdsFrom(f, from) <==> from <= id && Read(f, id).Some?
    decreases |f| - Offset(from)
  {
    if Offset(from) < |f| {
      ActiveIdsFromMembers(f, from + 1);
      MembersStep(f, from);
    } else {
      MembersPastEnd(f, from);
    }
  }

  lemma {:induction false} MembersStep(f: File, from: nat)
    requires Offset(from) < |f|
    requires forall id :: id in ActiveIdsFrom(f, from + 1) <==> from + 1 <= id && Read(f, id).Some?
    ensures forall id :: id in ActiveIdsFrom(f, from) <==> from <= id && Read(f, id).Some?
  {
    ActiveIdsFromSplit(f, from);
    var head: seq<nat> := if Read(f, from).Some? then [from] else [];
    var rest := ActiveIdsFrom(f, from + 1);
    assert ActiveIdsFrom(f, from) == head + rest;
    forall id
      ensures id in ActiveIdsFrom(f, from) <==> from <= id && Read(f, id).Some?
    {
      assert id in head + rest <==> id in head || id in rest;
      assert id in rest <==> from + 1 <= id && Read(f, id).Some?;
      assert id in head <==> id == from && Read(f, from).Some?;
    }
  }

  lemma {:induction false} MembersPastEnd(f: File, from: nat)
    requires Offset(from) >= |f|
    ensures forall id :: id in ActiveIdsFrom(f, from) <==> from <= id && Read(f, id).Some?
  {
    forall id | from <= id
      ensures Read(f, id).None?
    {
      assert Offset(id) >= Offset(from);
    }
  }

  lemma {:induction false} ActiveIdsFromSorted(f: File, from: nat)
    ensures forall a, b :: 0 <= a < b < |ActiveIdsFrom(f, from)| ==>
      ActiveIdsFrom(f, from)[a] < ActiveIdsFrom(f, from)[b]
    decreases |f| - Offset(from)
  {
    if Offset(from) < |f| {
      ActiveIdsFromSorted(f, from + 1);
      ActiveIdsFromAbove(f, from + 1);
      ActiveIdsFromSplit(f, from);
      SortedCons(if Read(f, from).Some? then [from] else [], from, ActiveIdsFrom(f, from + 1));
    }
  }

  /** Every id listed from `from` on is at least `from`. */
  lemma {:induction false} ActiveIdsFromAbove(f: File, from: nat)
    ensures forall k :: 0 <= k < |ActiveIdsFrom(f, from)| ==> ActiveIdsFrom(f, from)[k] >= from
    decreases |f| - Offset(from)
  {
    if Offset(from) < |f| {
      ActiveIdsFromAbove(f, from + 1);
      ActiveIdsFromSplit(f, from);
      var head: seq<nat> := if Read(f, from).Some? then [from] else [];
      var rest := ActiveIdsFrom(f, from + 1);
      forall k | 0 <= k < |head + rest|
        ensures (head + rest)[k] >= from
      {
        if k >= |head| {
          assert (head + rest)[k] == rest[k - |head|];
        }
      }
    }
  }

  /** An increasing sequence above `x`, with at most `x` in front of it, is
      increasing. */
  lemma {:induction false} SortedCons(head: seq<nat>, x: nat, rest: seq<nat>)
    requires head == [] || head == [x]
    requires forall a, b :: 0 <= a < b < |rest| ==> rest[a] < rest[b]
    requires forall k :: 0 <= k < |rest| ==> rest[k] >= x + 1
    ensures forall a, b :: 0 <= a < b < |head + rest| ==> (head + rest)[a] < (head + rest)[b]
  {
    forall a, b | 0 <= a < b < |head + rest|
      ensures (head + rest)[a] < (head + rest)[b]
    {
      assert (head + rest)[b] == rest[b - |head|];
      if a >= |head| {
        assert (head + rest)[a] == rest[a - |head|];
      }
    }
  }

  lemma {:induction false} ActiveIdsExact(f: File)
    ensures forall id :: id in ActiveIds(f) <==> Read(f, id).Some?
    ensures forall a, b :: 0 <= a < b < |ActiveIds(f)| ==> ActiveIds(f)[a] < ActiveIds(f)[b]
  {
    ActiveIdsFromMembers(f, 0);
    ActiveIdsFromSorted(f, 0);
  }

  /** What `scan` yields: the readable rows in file order. */
  function Scanned(f: File): (r: seq<Record>)
    ensures |r| == |ActiveIds(f)|
    ensures forall k :: 0 <= k < |r| ==> Read(f, ActiveIds(f)[k]) == Some(r[k])
    ensures forall k :: 0 <= k < |r| ==> FitsField(r[k].id, VECTOR_ID_SIZE)
  {
    var ids := ActiveIds(f);
    ActiveIdsExact(f);
    seq(|ids|, k requires 0 <= k < |ids| => Read(f, ids[k]).value)
  }

  lemma {:induction false} ActiveIdsFromSplit(f: File, from: nat)
    requires Offset(from) < |f|
    ensures ActiveIdsFrom(f, from) ==
      (if Read(f, from).Some? then [from] else []) + ActiveIdsFrom(f, from + 1)
  {
  }

  /** `scan`: walk the file row by row from the start and yield every row
      whose flag is 0. */
  method Scan(f: File) returns (records: seq<Record>)
    ensures records == Scanned(f)
  {
    ghost var ids: seq<nat> := [];
    records := [];
    var pos: nat := 0;
    var id: nat := 0;
    while pos < |f|
      invariant pos == Offset(id)
      invariant ids + ActiveIdsFrom(f, id) == ActiveIds(f)
      invariant |records| == |ids|
      invariant forall k :: 0 <= k < |ids| ==> Read(f, ids[k]) == Some(records[k])
      decreases |f| - pos
    {
      ScanAdvance(f, ids, id);
      ScanRow(f, id);
      var flag := f[pos];
      var idData := Clip(f, pos + 1, pos + 1 + VECTOR_ID_SIZE);
      var externalId := RTrimNul(idData);
      var vectorData := Clip(f, pos + 1 + VECTOR_ID_SIZE, pos + VECTOR_ROW_SIZE);
      if flag == ACTIVE {
        records := records + [Record(externalId, DecodeFloats(vectorData))];
        ids := ids + [id];
      }
      pos := pos + VECTOR_ROW_SIZE;
      id := id + 1;
    }
    assert ids == ActiveIds(f);
    ScannedExactly(f, records);
  }

  lemma {:induction false} ScanAdvance(f: File, ids: seq<nat>, id: nat)
    requires Offset(id) < |f|
    requires ids + ActiveIdsFrom(f, id) == ActiveIds(f)
    ensures (if Read(f, id).Some? then ids + [id] else ids) + ActiveIdsFrom(f, id + 1) == ActiveIds(f)
  {
    ActiveIdsFromSplit(f, id);
    ShiftHead(ids, id, Read(f, id).Some?, ActiveIdsFrom(f, id + 1));
  }

  lemma {:induction false} ShiftHead(ids: seq<nat>, id: nat, keep: bool, rest: seq<nat>)
    ensures (if keep then ids + [id] else ids) + rest == ids + ((if keep then [id] else []) + rest)
  {
    if keep {
      assert (ids + [id]) + rest == ids + ([id] + rest);
    } else {
      assert [] + rest == rest;
    }
  }

  /** The row `scan` decodes at a position inside the file is what `read`
      gives for it. */
  lemma {:induction false} ScanRow(f: File, id: nat)
    requires Offset(id) < |f|
    ensures var pos := Offset(id);
      Read(f, id) == if f[pos] != ACTIVE then None
        else Some(Record(RTrimNul(Clip(f, pos + 1, pos + 1 + VECTOR_ID_SIZE)),
                         DecodeFloats(Clip(f, pos + 1 + VECTOR_ID_SIZE, pos + VECTOR_ROW_SIZE))))
  {
  }

  /** Scanned is the only list holding, in order, the record of every
      readable row. */
  lemma {:induction false} ScannedExactly(f: File, records: seq<Record>)
    requires |records| == |ActiveIds(f)|
    requires forall k :: 0 <= k < |records| ==> Read(f, ActiveIds(f)[k]) == Some(records[k])
    ensures records == Scanned(f)
  {
  }
}

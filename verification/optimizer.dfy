/** Compaction (src/Services/Optimizer.php): every live row of the vector
    file is inserted, in file order, into empty stores; the old files are
    then swapped out for the new ones. A failing insert aborts the run and
    no file is swapped.

    The temporary file names, the backups, the renames and the exclusive
    lock are file-system work and not modelled: the result is the new
    stores, or the error that aborted the run. */
module Optimizer {
  import opened Types
  import opened ByteString
  import opened Config
  import VectorFile
  import opened GraphFile
  import MetaFile
  import opened HnswLogic
  import Indexer

  /** `run`: re-index the records `scan` yields. `coins(i)` are the level
      draws of the i-th insert, and one vector cache serves the whole run,
      as one indexer does.

      The rebuilt vector file holds exactly the live rows, densely numbered
      from 0 in their old order; the meta tree maps each external id to its
      new row, so ids are distinct; the graph has one node per row and its
      header counts them. When every live row holds a full vector, the run
      succeeds exactly when the live rows' external ids are distinct. */
  method Run(source: VectorFile.File, sim: Similarity, coins: nat -> seq<bool>) returns (r: Result<Indexer.Stores>)
    ensures r.Ok? ==> Indexer.Consistent(r.value)
    ensures r.Ok? ==> var out := r.value; var records := VectorFile.Scanned(source);
      && |out.vectors| == |records| * VECTOR_ROW_SIZE
      && (forall i :: 0 <= i < |records| ==> VectorFile.Read(out.vectors, i) == Some(records[i]))
      && (forall i :: 0 <= i < |records| ==> MetaFile.Find(out.meta, records[i].id) == Some(i))
      && |out.graph.nodes| == |records|
      && out.graph.header.total == |records|
      && (|records| == 0 <==> out.graph.header.entry == EMPTY_SLOT)
      && (|records| > 0 ==> 0 <= out.graph.header.entry < |records|)
    ensures r.Ok? ==> var records := VectorFile.Scanned(source);
      && (forall key :: MetaFile.Find(r.value.meta, key).Some? ==> exists i :: 0 <= i < |records| && records[i].id == key)
      && (forall i, j :: 0 <= i < j < |records| ==> records[i].id != records[j].id)
    ensures var records := VectorFile.Scanned(source);
      && (forall i, j :: 0 <= i < j < |records| ==> records[i].id != records[j].id)
      && (forall i :: 0 <= i < |records| ==> |records[i].vector| == DIMENSION)
      ==> r.Ok?
  {
    var records := VectorFile.Scan(source);
    var st := Indexer.Empty();
    var cache: Cache := map[];
    var i := 0;
    while i < |records|
      invariant 0 <= i <= |records|
      invariant Indexer.Consistent(st)
      invariant Coherent(SpaceOf(st.vectors, st.graph, sim), cache)
      invariant |st.vectors| == i * VECTOR_ROW_SIZE
      invariant forall j :: 0 <= j < i ==> VectorFile.Read(st.vectors, j) == Some(records[j])
      invariant forall j :: 0 <= j < i ==> MetaFile.Find(st.meta, records[j].id) == Some(j)
      invariant forall key :: MetaFile.Find(st.meta, key).Some? ==> exists j :: 0 <= j < i && records[j].id == key
      invariant |st.graph.nodes| == i && st.graph.header.total == i
      invariant i == 0 <==> st.graph.header.entry == EMPTY_SLOT
      invariant i > 0 ==> 0 <= st.graph.header.entry < i
    {
      var status, st', cache' := Indexer.Insert(st, sim, cache, records[i].id, records[i].vector, coins(i));
      if status.Err? {
        return Err(status.error);
      }
      ghost var (g, id) := VectorFile.Append(st.vectors, records[i].id, records[i].vector).value;
      AppendedRow(st.vectors, g, id, records, i);
      Mapped(st.meta, st'.meta, records, i);
      OnlyRecorded(st.meta, st'.meta, records, i);
      st, cache := st', cache';
      i := i + 1;
    }
    r := Ok(st);
    forall a, b | 0 <= a < b < |records|
      ensures records[a].id != records[b].id
    {
      assert MetaFile.Find(st.meta, records[a].id) == Some(a);
    }
  }

  /** The keys the meta tree maps are those of the records inserted so far:
      the i-th insert adds its own id and leaves every other key alone. */
  lemma {:induction false} OnlyRecorded(meta: MetaFile.Meta, meta': MetaFile.Meta, records: seq<VectorFile.Record>, i: nat)
    requires i < |records|
    requires FitsField(records[i].id, VECTOR_ID_SIZE)
    requires MetaFile.WellFormed(meta) && MetaFile.WellFormed(meta')
    requires forall key :: MetaFile.Find(meta, key).Some? ==> exists j :: 0 <= j < i && records[j].id == key
    requires forall other :: other != records[i].id && other != MetaFile.StoredKey(records[i].id) ==>
      MetaFile.Find(meta', other) == MetaFile.Find(meta, other)
    ensures forall key :: MetaFile.Find(meta', key).Some? ==> exists j :: 0 <= j < i + 1 && records[j].id == key
  {
    assert MetaFile.StoredKey(records[i].id) == records[i].id;
    forall key | MetaFile.Find(meta', key).Some?
      ensures exists j :: 0 <= j < i + 1 && records[j].id == key
    {
      if key != records[i].id {
        var j :| 0 <= j < i && records[j].id == key;
        assert 0 <= j < i + 1 && records[j].id == key;
      }
    }
  }

  /** The mapping step of the loop: the i-th insert maps its id to row i
      and, its id being new, keeps the mappings of the records before it. */
  lemma {:induction false} Mapped(meta: MetaFile.Meta, meta': MetaFile.Meta, records: seq<VectorFile.Record>, i: nat)
    requires i < |records|
    requires FitsField(records[i].id, VECTOR_ID_SIZE)
    requires MetaFile.WellFormed(meta) && MetaFile.WellFormed(meta')
    requires forall j :: 0 <= j < i ==> MetaFile.Find(meta, records[j].id) == Some(j)
    requires !(MetaFile.Find(meta, records[i].id).Some? && MetaFile.Find(meta, records[i].id).value != Indexer.TOMBSTONE)
    requires MetaFile.Find(meta', records[i].id) == Some(i)
    requires forall other :: other != records[i].id && other != MetaFile.StoredKey(records[i].id) ==>
      MetaFile.Find(meta', other) == MetaFile.Find(meta, other)
    ensures forall j :: 0 <= j < i + 1 ==> MetaFile.Find(meta', records[j].id) == Some(j)
  {
    var x := records[i];
    assert MetaFile.StoredKey(x.id) == x.id;
    forall j | 0 <= j < i
      ensures MetaFile.Find(meta', records[j].id) == Some(j)
    {
      assert records[j].id != x.id;
    }
  }

  /** Appending the i-th record to a file holding the first i lands it in
      row i and keeps the rows before it. */
  lemma {:induction false} AppendedRow(f: VectorFile.File, g: VectorFile.File, id: nat, records: seq<VectorFile.Record>, i: nat)
    requires i < |records|
    requires FitsField(records[i].id, VECTOR_ID_SIZE)
    requires |f| == i * VECTOR_ROW_SIZE
    requires forall j :: 0 <= j < i ==> VectorFile.Read(f, j) == Some(records[j])
    requires VectorFile.Append(f, records[i].id, records[i].vector) == Ok((g, id))
    ensures id == i
    ensures |g| == (i + 1) * VECTOR_ROW_SIZE
    ensures forall j :: 0 <= j < i + 1 ==> VectorFile.Read(g, j) == Some(records[j])
  {
    var x := records[i];
    AppendedAt(f, x, i);
    AppendedReads(f, g, x, i);
    forall j | 0 <= j < i + 1
      ensures VectorFile.Read(g, j) == Some(records[j])
    {
      if j < i {
        AppendedKeeps(f, g, x, i, j);
      }
    }
  }

  /** The appended row is row i, one row past the end of an i-row file. */
  lemma {:induction false} AppendedAt(f: VectorFile.File, x: VectorFile.Record, i: nat)
    requires |f| == i * VECTOR_ROW_SIZE
    requires VectorFile.Append(f, x.id, x.vector).Ok?
    ensures VectorFile.Append(f, x.id, x.vector).value.1 == i
    ensures |VectorFile.Append(f, x.id, x.vector).value.0| == (i + 1) * VECTOR_ROW_SIZE
  {
    var id := VectorFile.Append(f, x.id, x.vector).value.1;
    assert VectorFile.Offset(id) == VectorFile.Offset(i);
  }

  lemma {:induction false} AppendedReads(f: VectorFile.File, g: VectorFile.File, x: VectorFile.Record, i: nat)
    requires FitsField(x.id, VECTOR_ID_SIZE)
    requires VectorFile.Append(f, x.id, x.vector) == Ok((g, i))
    ensures VectorFile.Read(g, i) == Some(x)
  {
    VectorFile.AppendThenRead(f, x.id, x.vector);
  }

  lemma {:induction false} AppendedKeeps(f: VectorFile.File, g: VectorFile.File, x: VectorFile.Record, i: nat, j: nat)
    requires VectorFile.Append(f, x.id, x.vector) == Ok((g, i))
    requires j < i
    ensures VectorFile.Read(g, j) == VectorFile.Read(f, j)
  {
    VectorFile.AppendKeepsOthers(f, x.id, x.vector, j);
  }
}

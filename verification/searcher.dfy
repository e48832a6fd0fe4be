/** Reading the index (src/Services/Searcher.php): oversample the HNSW
    search to make room for soft-deleted rows, then hydrate the results from
    the vector file, skipping deleted rows, until k are kept.

    The shared lock and the metadata lookup (`includeMetadata`) are not
    modelled; the vector is attached when asked for. */
module Searcher {
  import opened Types
  import opened Ranking
  import VectorFile
  import opened GraphFile
  import opened HnswLogic
  import Indexer

  /** One search result: the external id, the similarity, and the stored
      vector when it was asked for. */
  datatype Hit = Hit(id: Bytes, score: real, vector: Option<Vector>)

  /** A row reader: `read` of a result id. */
  type Rows = int -> Option<VectorFile.Record>

  /** `read` of a vector file; a negative id has no row. */
  function RowsOf(f: VectorFile.File): (rows: Rows)
    ensures forall id: nat :: rows(id) == VectorFile.Read(f, id)
    ensures forall id :: id < 0 ==> rows(id).None?
  {
    id => if id < 0 then None else VectorFile.Read(f, id)
  }

  /** Hits ordered best first. */
  predicate HitsDesc(hs: seq<Hit>) {
    forall i, j :: 0 <= i < j < |hs| ==> hs[i].score >= hs[j].score
  }

  function HitOf(rec: VectorFile.Record, score: real, includeVector: bool): Hit {
    Hit(rec.id, score, if includeVector then Some(rec.vector) else None)
  }

  /** Hydration without the early stop: every result whose row is live, in
      order. */
  function Live(rows: Rows, results: seq<Scored>, includeVector: bool): (r: seq<Hit>)
    ensures |r| <= |results|
    ensures forall h :: h in r ==>
      (exists x :: x in results && rows(x.id).Some? && h == HitOf(rows(x.id).value, x.score, includeVector))
  {
    if |results| == 0 then []
    else
      var init := results[..|results| - 1];
      var last := results[|results| - 1];
      var rest := Live(rows, init, includeVector);
      assert forall x :: x in init ==> x in results;
      match rows(last.id)
      case None => rest
      case Some(rec) => rest + [HitOf(rec, last.score, includeVector)]
  }

  /** Hydrating a prefix of the results gives a prefix of the hydration of
      all of them. */
  lemma {:induction false} LivePrefix(rows: Rows, results: seq<Scored>, i: nat, includeVector: bool)
    requires i <= |results|
    ensures Live(rows, results[..i], includeVector) <= Live(rows, results, includeVector)
    decreases |results| - i
  {
    if i < |results| {
      LivePrefix(rows, results, i + 1, includeVector);
      assert results[..i + 1][..i] == results[..i];
    } else {
      assert results[..i] == results;
    }
  }

  /** Results in order of similarity hydrate to hits in order of similarity. */
  lemma {:induction false} LiveSorted(rows: Rows, results: seq<Scored>, includeVector: bool)
    requires SortedDesc(results)
    ensures HitsDesc(Live(rows, results, includeVector))
  {
    if |results| > 0 {
      var init := results[..|results| - 1];
      var last := results[|results| - 1];
      LiveSorted(rows, init, includeVector);
      var rest := Live(rows, init, includeVector);
      forall h | h in rest
        ensures h.score >= last.score
      {
        var x :| x in init && rows(x.id).Some? && h == HitOf(rows(x.id).value, x.score, includeVector);
        var a :| 0 <= a < |init| && init[a] == x;
        assert results[a] == x;
      }
      var r := Live(rows, results, includeVector);
      forall i, j | 0 <= i < j < |r|
        ensures r[i].score >= r[j].score
      {
        assert HitsDesc(rest);
        if rows(last.id).Some? {
          var hit := HitOf(rows(last.id).value, last.score, includeVector);
          assert r == rest + [hit];
          if j < |rest| {
            assert r[i] == rest[i] && r[j] == rest[j];
          } else {
            assert r[i] == rest[i] && rest[i] in rest && r[j] == hit;
          }
        } else {
          assert r == rest;
          assert r[i] == rest[i] && r[j] == rest[j];
        }
      }
    }
  }

  /** The hydration loop: read each result's row, keep the live ones, and
      stop once k are kept. The count is checked after every result, so
      with k below 1 only the first result is looked at. */
  method Hydrate(rows: Rows, results: seq<Scored>, k: int, includeVector: bool) returns (hits: seq<Hit>)
    ensures k >= 1 ==> hits == Live(rows, results, includeVector)[..Min(|Live(rows, results, includeVector)|, k)]
    ensures k < 1 ==> hits == Live(rows, results[..Min(|results|, 1)], includeVector)
    ensures |hits| <= Max(k, 1)
  {
    hits := [];
    var i := 0;
    while i < |results| && (i == 0 || |hits| < k)
      invariant 0 <= i <= |results|
      invariant hits == Live(rows, results[..i], includeVector)
      invariant i == 0 ==> hits == []
      invariant k < 1 ==> i <= 1
      invariant |hits| <= Max(k, 1)
    {
      var res := results[i];
      match rows(res.id) {
        case Some(rec) =>
          hits := hits + [HitOf(rec, res.score, includeVector)];
        case None =>
      }
      assert results[..i + 1][..i] == results[..i];
      i := i + 1;
    }
    LivePrefix(rows, results, i, includeVector);
    var all := Live(rows, results, includeVector);
    if i == |results| {
      assert results[..i] == results;
    } else if k >= 1 {
      assert |hits| == k && hits <= all;
      assert hits == all[..k];
    } else {
      assert i == 1;
    }
  }

  /** `search`: oversample (k + 20 results, ef at least 50), hydrate, keep
      at most max(k, 1). `results` is what the HNSW search answered: the
      hits are its live rows in its order, the first k of them (only the
      first result is looked at when k is below 1). Every hit is a live row
      of the vector file carrying its vector's similarity to the query, hits
      come best first, an empty index gives no hits, and consistent stores
      always give an answer. Searching writes nothing. */
  method Search(st: Indexer.Stores, sim: Similarity, cache: Cache, q: Vector, k: int, includeVector: bool)
    returns (r: Result<seq<Hit>>, cache': Cache, ghost results: seq<Scored>)
    requires Coherent(SpaceOf(st.vectors, st.graph, sim), cache)
    ensures Coherent(SpaceOf(st.vectors, st.graph, sim), cache')
    ensures r.Err? ==> r.error.Lookup()
    ensures Indexer.Consistent(st) ==> r.Ok?
    ensures r.Ok? ==> Answer(SpaceOf(st.vectors, st.graph, sim), q, k + 20, Max(k + 20, 50), results)
    ensures r.Ok? && k >= 1 ==> var live := Live(RowsOf(st.vectors), results, includeVector);
      r.value == live[..Min(|live|, k)]
    ensures r.Ok? && k < 1 ==> r.value == Live(RowsOf(st.vectors), results[..Min(|results|, 1)], includeVector)
    ensures st.graph.header.entry == EMPTY_SLOT ==> r == Ok([])
    ensures r.Ok? ==> |r.value| <= Max(k, 1)
    ensures r.Ok? ==> HitsDesc(r.value)
    ensures r.Ok? ==> forall h :: h in r.value ==>
      exists id: nat ::
        (VectorFile.Read(st.vectors, id).Some?
         && h == HitOf(VectorFile.Read(st.vectors, id).value, h.score, includeVector)
         && ScoreOf(SpaceOf(st.vectors, st.graph, sim), q, id) == Ok(h.score))
  {
    results := [];
    var sp := SpaceOf(st.vectors, st.graph, sim);
    if Indexer.Consistent(st) {
      Indexer.ConsistentClosed(st, sim);
    }
    var searchK := k + 20;
    var ef := Max(searchK, 50);
    var found;
    found, cache' :- HnswLogic.Search(sp, cache, q, searchK, ef);
    results := found;
    var hits := Hydrate(RowsOf(st.vectors), found, k, includeVector);
    HitsFacts(st.vectors, sp, q, found, k, includeVector, hits);
    r := Ok(hits);
  }

  lemma {:induction false} HitsFacts(f: VectorFile.File, sp: Space, q: Vector, results: seq<Scored>, k: int, includeVector: bool,
                  hits: seq<Hit>)
    requires SortedDesc(results)
    requires forall x :: x in results ==> ScoreOf(sp, q, x.id) == Ok(x.score)
    requires k >= 1 ==>
      hits == Live(RowsOf(f), results, includeVector)[..Min(|Live(RowsOf(f), results, includeVector)|, k)]
    requires k < 1 ==> hits == Live(RowsOf(f), results[..Min(|results|, 1)], includeVector)
    ensures HitsDesc(hits)
    ensures forall h :: h in hits ==>
      exists id: nat ::
        (VectorFile.Read(f, id).Some?
         && h == HitOf(VectorFile.Read(f, id).value, h.score, includeVector)
         && ScoreOf(sp, q, id) == Ok(h.score))
  {
    var rows := RowsOf(f);
    var source := if k >= 1 then results else results[..Min(|results|, 1)];
    var live := Live(rows, source, includeVector);
    assert SortedDesc(source);
    LiveSorted(rows, source, includeVector);
    assert forall h :: h in hits ==> h in live;
    forall i, j | 0 <= i < j < |hits|
      ensures hits[i].score >= hits[j].score
    {
      assert hits[i] == live[i] && hits[j] == live[j];
    }
    forall h | h in hits
      ensures exists id: nat ::
        (VectorFile.Read(f, id).Some?
         && h == HitOf(VectorFile.Read(f, id).value, h.score, includeVector)
         && ScoreOf(sp, q, id) == Ok(h.score))
    {
      var x :| x in source && rows(x.id).Some? && h == HitOf(rows(x.id).value, x.score, includeVector);
      assert x in results;
      var id: nat := x.id;
      assert VectorFile.Read(f, id).Some?;
    }
  }
}

/** Writing to the index (src/Services/Indexer.php): `insert` appends the
    vector, maps the external id to the new internal id, creates the graph
    node at a random level and links it both ways on every level it shares
    with the entry point; `delete` is a soft delete.

    A failure part-way leaves in the stores whatever was written before it,
    as the source's files do: every operation returns the stores with its
    status. The lock around each call is not modelled. */
module Indexer {
  import opened Types
  import opened ByteString
  import opened Config
  import opened Ranking
  import VectorFile
  import opened GraphFile
  import MetaFile
  import opened HnswLogic

  /** The three files an indexer writes. */
  datatype Stores = Stores(vectors: VectorFile.File, graph: Graph, meta: MetaFile.Meta)

  /** What holds of stores this code writes: the meta tree's links point
      forward, every graph row has its four blocks, and every mapping is an
      internal id or the tombstone -1. */
  predicate Valid(st: Stores) {
    && MetaFile.WellFormed(st.meta)
    && GraphFile.WellFormed(st.graph)
    && forall j :: 0 <= j < |st.meta| ==> st.meta[j].value >= TOMBSTONE
  }

  /** The mapping of a deleted id. */
  const TOMBSTONE: int := -1

  /** Stores an insert and a search cannot fail on: valid, the vector file
      holds whole rows and at least one per graph node, and the entry point
      and every link name a node. */
  predicate Consistent(st: Stores) {
    && Valid(st)
    && VectorFile.Aligned(st.vectors)
    && |st.graph.nodes| * VECTOR_ROW_SIZE <= |st.vectors|
    && LinksIn(st.graph, |st.graph.nodes|)
    && EntryIn(st.graph)
  }

  /** Empty stores, as the constructors create them. */
  function Empty(): (st: Stores)
    ensures Consistent(st)
  {
    Stores([], GraphFile.New(), [])
  }

  /** The first n rows of an aligned file of at least n rows have vectors. */
  lemma {:induction false} RowsHaveVectors(f: VectorFile.File, g: Graph, sim: Similarity, n: nat)
    requires VectorFile.Aligned(f) && n * VECTOR_ROW_SIZE <= |f|
    ensures HasVectors(SpaceOf(f, g, sim), n)
  {
    forall i | 0 <= i < n
      ensures VectorAt(SpaceOf(f, g, sim), i).Ok?
    {
      assert VectorFile.Offset(i) < |f| by {
        assert VectorFile.Offset(i) + VECTOR_ROW_SIZE == (i + 1) * VECTOR_ROW_SIZE <= n * VECTOR_ROW_SIZE;
      }
      VectorFile.AlignedRowsAreFull(f, i);
    }
  }

  /** Consistent stores give a space a search cannot fail in. */
  lemma {:induction false} ConsistentClosed(st: Stores, sim: Similarity)
    requires Consistent(st)
    ensures Closed(SpaceOf(st.vectors, st.graph, sim))
  {
    RowsHaveVectors(st.vectors, st.graph, sim, |st.graph.nodes|);
  }

  // ---------------------------------------------------------------------
  // Level

  /** `getRandomLevel`: one more level for every draw below 0.5, stopping at
      the first draw that is not or at level L - 1. `coins[i]` says whether
      the i-th draw was below 0.5. */
  function RandomLevel(coins: seq<bool>): (level: nat)
    ensures level < L
  {
    LevelFrom(coins, 0)
  }

  function LevelFrom(coins: seq<bool>, level: nat): (r: nat)
    requires level < L
    ensures level <= r < L
    decreases |coins|
  {
    if |coins| == 0 || !coins[0] || level >= L - 1 then level
    else LevelFrom(coins[1..], level + 1)
  }

  /** The number of leading draws below 0.5. */
  function Heads(coins: seq<bool>): nat {
    if |coins| == 0 || !coins[0] then 0 else 1 + Heads(coins[1..])
  }

  /** The level is the run of leading heads, capped at the top level. */
  lemma {:induction false} RandomLevelIsCappedHeads(coins: seq<bool>)
    ensures RandomLevel(coins) == Min(Heads(coins), L - 1)
  {
    LevelFromCounts(coins, 0);
  }

  lemma {:induction false} LevelFromCounts(coins: seq<bool>, level: nat)
    requires level < L
    ensures LevelFrom(coins, level) == Min(level + Heads(coins), L - 1)
    decreases |coins|
  {
    if |coins| > 0 && coins[0] && level < L - 1 {
      LevelFromCounts(coins[1..], level + 1);
    }
  }

  // ---------------------------------------------------------------------
  // Pruning a neighbour's list

  /** Each id with the similarity of `v` to its vector, in order; the first
      id without a vector fails. */
  function ScoreAll(sp: Space, v: Vector, ids: seq<int>): (r: Result<seq<Scored>>)
    ensures r.Ok? ==> Ids(r.value) == ids
    ensures r.Ok? ==> forall i :: 0 <= i < |ids| ==>
      VectorAt(sp, ids[i]).Ok? && r.value[i].score == sp.sim(v, VectorAt(sp, ids[i]).value)
    ensures r.Err? <==> exists i :: 0 <= i < |ids| && VectorAt(sp, ids[i]).Err?
    ensures r.Err? ==> r.error.Lookup()
  {
    if |ids| == 0 then Ok([])
    else
      var first :- VectorAt(sp, ids[0]);
      var rest :- ScoreAll(sp, v, ids[1..]);
      assert forall i :: 1 <= i < |ids| ==> ids[i] == ids[1..][i - 1];
      Ok([Scored(ids[0], sp.sim(v, first))] + rest)
  }

  /** The similarity of the vector of `a` to the vector of `b`. */
  function Between(sp: Space, a: int, b: int): real
    requires VectorAt(sp, a).Ok? && VectorAt(sp, b).Ok?
  {
    sp.sim(VectorAt(sp, a).value, VectorAt(sp, b).value)
  }

  /** Shrinking an over-full list: score each distinct link against the
      owner's vector (a PHP array keyed by link id keeps each id once, at its
      first position), sort best first (stable) and keep `cap`. */
  function Prune(sp: Space, owner: int, links: seq<int>, cap: nat): (r: Result<seq<int>>)
    ensures r.Err? ==> r.error.Lookup()
    ensures r.Ok? ==> |r.value| <= cap
    ensures r.Ok? ==> forall x :: x in r.value ==> x in links
    ensures r.Ok? ==> forall i, j :: 0 <= i < j < |r.value| ==> r.value[i] != r.value[j]
    ensures r.Ok? && |r.value| < cap ==> forall x :: x in links ==> x in r.value
    ensures VectorAt(sp, owner).Ok? && (forall x :: x in links ==> VectorAt(sp, x).Ok?) ==> r.Ok?
  {
    var v :- VectorAt(sp, owner);
    assert forall i :: 0 <= i < |Dedup(links)| ==> Dedup(links)[i] in links;
    var scored :- ScoreAll(sp, v, Dedup(links));
    PrunedFacts(scored, Dedup(links), cap);
    PrunedAll(scored, Dedup(links), cap);
    Ok(TopIds(scored, cap))
  }

  /** Keeping fewer than `cap` means keeping every id. */
  lemma {:induction false} PrunedAll(scored: seq<Scored>, ids: seq<int>, cap: nat)
    requires Ids(scored) == ids
    ensures |TopIds(scored, cap)| < cap ==> forall x :: x in ids ==> x in TopIds(scored, cap)
  {
    if |TopIds(scored, cap)| < cap {
      var sorted := SortDesc(scored);
      SortDescSameElements(scored);
      forall x | x in ids
        ensures x in TopIds(scored, cap)
      {
        var i :| 0 <= i < |ids| && ids[i] == x;
        assert scored[i] in sorted;
        var j :| 0 <= j < |sorted| && sorted[j] == scored[i];
        assert Ids(sorted)[j] == x;
      }
    }
  }

  lemma {:induction false} PrunedFacts(scored: seq<Scored>, ids: seq<int>, cap: nat)
    requires Ids(scored) == ids
    requires forall i, j :: 0 <= i < j < |ids| ==> ids[i] != ids[j]
    ensures DistinctIds(scored)
    ensures forall x :: x in TopIds(scored, cap) ==> x in ids
    ensures forall i, j :: 0 <= i < j < |TopIds(scored, cap)| ==> TopIds(scored, cap)[i] != TopIds(scored, cap)[j]
    ensures forall x, y :: x in scored && y in scored && x.id in TopIds(scored, cap) && y.id !in TopIds(scored, cap) ==>
      x.score >= y.score
  {
    assert DistinctIds(scored) by {
      forall i, j | 0 <= i < j < |scored|
        ensures scored[i].id != scored[j].id
      {
        assert ids[i] == scored[i].id && ids[j] == scored[j].id;
      }
    }
    TopIdsBest(scored, cap);
  }

  /** Pruning keeps the links most similar to the owner: every kept link is
      at least as similar to it as every link dropped. */
  lemma {:induction false} PruneKeepsBest(sp: Space, owner: int, links: seq<int>, cap: nat)
    requires Prune(sp, owner, links, cap).Ok?
    ensures var kept := Prune(sp, owner, links, cap).value;
      forall x, y :: x in kept && y in links && y !in kept ==>
        VectorAt(sp, owner).Ok? && VectorAt(sp, x).Ok? && VectorAt(sp, y).Ok? &&
        Between(sp, owner, x) >= Between(sp, owner, y)
  {
    var v := VectorAt(sp, owner).value;
    var ids := Dedup(links);
    var scored := ScoreAll(sp, v, ids).value;
    var kept := Prune(sp, owner, links, cap).value;
    PrunedFacts(scored, ids, cap);
    forall x, y | x in kept && y in links && y !in kept
      ensures VectorAt(sp, owner).Ok? && VectorAt(sp, x).Ok? && VectorAt(sp, y).Ok?
      ensures Between(sp, owner, x) >= Between(sp, owner, y)
    {
      assert x in ids && y in ids;
      var i :| 0 <= i < |ids| && ids[i] == x;
      var j :| 0 <= j < |ids| && ids[j] == y;
      assert scored[i].id == x && scored[j].id == y;
      assert scored[i] in scored && scored[j] in scored;
    }
  }

  // ---------------------------------------------------------------------
  // Linking

  /** Node x lists `id` on level lc, or it was full and pruned `id` out: it
      keeps a whole block of links, each at least as similar to x as `id`. */
  predicate BackLinked(sp: Space, g: Graph, id: int, lc: nat, x: int) {
    && 0 <= x < |g.nodes|
    && var theirs := Neighbors(ReadNode(g, x).value, lc);
       (|| id in theirs
        || (&& |theirs| == Capacity(lc)
            && forall y :: y in theirs ==>
                 && VectorAt(sp, x).Ok? && VectorAt(sp, y).Ok? && VectorAt(sp, id).Ok?
                 && Between(sp, x, y) >= Between(sp, x, id)))
  }

  /** Node `id` is linked both ways on level lc: it has a neighbour there,
      none of its neighbours is itself, and each links back to it or pruned
      it out. */
  predicate LinkedBoth(sp: Space, g: Graph, id: int, lc: nat) {
    && 0 <= id < |g.nodes|
    && var own := Neighbors(ReadNode(g, id).value, lc);
       (&& |own| >= 1
        && forall x :: x in own ==> x != id && BackLinked(sp, g, id, lc, x))
  }

  /** Back-links only read vectors and similarity, not the space's graph. */
  lemma {:induction false} LinkedBothSpaces(sp1: Space, sp2: Space, g: Graph, id: int)
    requires sp1.read == sp2.read && sp1.sim == sp2.sim
    ensures forall lc: nat :: LinkedBoth(sp1, g, id, lc) ==> LinkedBoth(sp2, g, id, lc)
    ensures forall lc: nat, x :: BackLinked(sp1, g, id, lc, x) ==> BackLinked(sp2, g, id, lc, x)
  {
    forall lc: nat, x | BackLinked(sp1, g, id, lc, x)
      ensures BackLinked(sp2, g, id, lc, x)
    {
      assert forall y :: VectorAt(sp1, y) == VectorAt(sp2, y);
    }
  }

  /** A row left as it was keeps its back-link. */
  lemma {:induction false} BackLinkedKept(sp: Space, g: Graph, h: Graph, id: int, lc: nat, x: int)
    requires BackLinked(sp, g, id, lc, x)
    requires |h.nodes| == |g.nodes| && h.nodes[x] == g.nodes[x]
    ensures BackLinked(sp, h, id, lc, x)
  {
    assert ReadNode(h, x) == ReadNode(g, x);
  }

  /** Graphs equal on block lc agree on who is linked both ways there. */
  lemma {:induction false} LinkedBothKept(sp: Space, g: Graph, h: Graph, id: int, lc: nat)
    requires SameBlock(g, h, lc)
    ensures LinkedBoth(sp, g, id, lc) ==> LinkedBoth(sp, h, id, lc)
  {
    if LinkedBoth(sp, g, id, lc) {
      SameBlockReads(g, h, lc, id);
      forall x | x in Neighbors(ReadNode(h, id).value, lc)
        ensures x != id && BackLinked(sp, h, id, lc, x)
      {
        assert BackLinked(sp, g, id, lc, x);
        SameBlockReads(g, h, lc, x);
      }
    }
  }

  /** Linking `neighbor` back to the new node `id` on level `lc`: its list
      plus `id`, pruned to `maxM` when that overflows, then written. */
  function LinkBack(sp: Space, g: Graph, id: nat, lc: nat, neighbor: int, maxM: nat): (r: Result<Graph>)
    requires maxM == Capacity(lc)
    ensures r.Err? ==> r.error.Lookup()
    ensures r.Ok? ==> 0 <= neighbor < |g.nodes|
    ensures r.Ok? ==> r.value.header == g.header && |r.value.nodes| == |g.nodes|
    ensures r.Ok? ==> (WellFormed(g) ==> WellFormed(r.value))
    ensures r.Ok? ==> forall i :: 0 <= i < |g.nodes| ==> r.value.nodes[i].maxLevel == g.nodes[i].maxLevel
    ensures r.Ok? ==> forall i :: 0 <= i < |g.nodes| && i != neighbor ==> r.value.nodes[i] == g.nodes[i]
    ensures r.Ok? && WellFormed(g) && 0 <= neighbor && lc < L ==>
      var before := Neighbors(ReadNode(g, neighbor).value, lc);
      var after := ReadNode(r.value, neighbor).value.connections[lc];
      && |after| <= maxM
      && (|before| < maxM ==> after == before + [id])
    ensures LinksIn(g, |g.nodes|) && id < |g.nodes| && 0 <= neighbor < |g.nodes| && HasVectors(sp, |g.nodes|) ==>
      r.Ok? && LinksIn(r.value, |g.nodes|)
    ensures r.Ok? ==> forall b :: b != Block(lc) ==> SameBlock(g, r.value, b)
    ensures r.Ok? && WellFormed(g) && lc < L ==> BackLinked(sp, r.value, id, lc, neighbor)
  {
    if neighbor < 0 then Err(NodeNotFound(neighbor))
    else
      var node :- ReadNode(g, neighbor);
      var links := Neighbors(node, lc) + [id];
      NeighborsAreNodes(g, neighbor, lc, id);
      var kept :- if |links| > maxM then Prune(sp, neighbor, links, maxM) else Ok(links);
      var written := UpdateLinks(g, neighbor, lc, kept);
      LinkBackReads(g, neighbor, lc, kept, links, maxM);
      WrittenNameNodes(g, neighbor, lc, id, kept);
      UpdateKeepsBlock(g, neighbor, lc, kept);
      WrittenBackLinked(sp, g, id, lc, neighbor, maxM, links, kept);
      Ok(written)
  }

  /** The list written back holds `id`, or is a full block of links pruned
      by similarity to the neighbour, which `id` did not make. */
  lemma {:induction false} WrittenBackLinked(sp: Space, g: Graph, id: nat, lc: nat, neighbor: nat, maxM: nat,
                                             links: seq<int>, kept: seq<int>)
    requires maxM == Capacity(lc) && neighbor < |g.nodes|
    requires links == Neighbors(ReadNode(g, neighbor).value, lc) + [id]
    requires |links| <= maxM ==> kept == links
    requires |links| > maxM ==> Prune(sp, neighbor, links, maxM) == Ok(kept)
    ensures WellFormed(g) && lc < L ==> BackLinked(sp, UpdateLinks(g, neighbor, lc, kept), id, lc, neighbor)
  {
    if WellFormed(g) && lc < L {
      assert EMPTY_SLOT !in links;
      assert forall x :: x in kept ==> x in links;
      UpdateThenRead(g, neighbor, lc, kept);
      var h := UpdateLinks(g, neighbor, lc, kept);
      assert kept[..Min(|kept|, Capacity(lc))] == kept;
      assert Neighbors(ReadNode(h, neighbor).value, lc) == kept;
      if |links| > maxM && id !in kept {
        PruneKeepsBest(sp, neighbor, links, maxM);
      }
    }
  }

  /** Writing back part of a node's links plus the new node keeps every link
      naming a node. */
  lemma {:induction false} WrittenNameNodes(g: Graph, neighbor: nat, lc: nat, id: nat, kept: seq<int>)
    requires neighbor < |g.nodes|
    requires forall x :: x in kept ==> x in Neighbors(ReadNode(g, neighbor).value, lc) + [id]
    ensures LinksIn(g, |g.nodes|) && id < |g.nodes| ==> LinksIn(UpdateLinks(g, neighbor, lc, kept), |g.nodes|)
  {
    if LinksIn(g, |g.nodes|) && id < |g.nodes| {
      NeighborsAreNodes(g, neighbor, lc, id);
      UpdateKeepsLinksIn(g, neighbor, lc, kept, |g.nodes|);
    }
  }

  /** A node's links on a level, and the new node, name nodes of a graph
      whose links all do. */
  lemma {:induction false} NeighborsAreNodes(g: Graph, neighbor: nat, lc: nat, id: nat)
    requires neighbor < |g.nodes|
    ensures LinksIn(g, |g.nodes|) && id < |g.nodes| ==>
      forall x :: x in Neighbors(ReadNode(g, neighbor).value, lc) + [id] ==> 0 <= x < |g.nodes|
  {
    if LinksIn(g, |g.nodes|) && id < |g.nodes| {
      assert LinksAt(g, neighbor, lc) == Ok(Neighbors(ReadNode(g, neighbor).value, lc));
      LinksNameNodes(g, neighbor, lc);
    }
  }

  lemma {:induction false} LinkBackReads(g: Graph, neighbor: nat, lc: nat, kept: seq<int>, links: seq<int>, maxM: nat)
    requires maxM == Capacity(lc) && neighbor < |g.nodes|
    requires |kept| <= maxM
    requires |links| <= maxM ==> kept == links
    ensures WellFormed(g) && lc < L && EMPTY_SLOT !in kept ==>
      var after := ReadNode(UpdateLinks(g, neighbor, lc, kept), neighbor).value.connections[lc];
      |after| <= maxM && (|links| <= maxM ==> after == links)
  {
    if WellFormed(g) && lc < L && EMPTY_SLOT !in kept {
      UpdateThenRead(g, neighbor, lc, kept);
    }
  }

  /** One level of `insert`'s linking: search the level from `curr` (ef 100,
      k = M), keep the first maxM ids, write them as the new node's links,
      link each of them back, and go on from the best one. The graph is
      returned also on failure, holding the writes made before it. Only
      this level's block changes; on success the new node, when the search
      did not find it, is linked both ways on the level. */
  method LinkLevel(f: VectorFile.File, sim: Similarity, cache: Cache, g: Graph, id: nat, vector: Vector,
                   curr: int, lc: nat)
    returns (r: Result<(int, seq<int>)>, ghost found: seq<Scored>, g': Graph, cache': Cache)
    requires Coherent(SpaceOf(f, g, sim), cache)
    requires WellFormed(g) && id < |g.nodes| && lc < L
    ensures forall h :: Coherent(SpaceOf(f, h, sim), cache')
    ensures WellFormed(g') && g'.header == g.header && |g'.nodes| == |g.nodes|
    ensures forall i :: 0 <= i < |g.nodes| ==> g'.nodes[i].maxLevel == g.nodes[i].maxLevel
    ensures forall b :: b != Block(lc) ==> SameBlock(g, g', b)
    ensures r.Err? ==> r.error.Lookup()
    ensures r.Ok? ==> LayerResult(SpaceOf(f, g, sim), vector, curr, 100, lc, Some(M), found)
    ensures r.Ok? ==> var (next, selected) := r.value;
      && selected == Select(found, Capacity(lc))
      && 1 <= |selected| <= M
      && next == selected[0]
      && (forall i, j :: 0 <= i < j < |selected| ==> selected[i] != selected[j])
      && (id !in selected ==> ReadNode(g', id).value.connections[lc] == selected)
      && (id !in selected ==> LinkedBoth(SpaceOf(f, g, sim), g', id, lc))
      && (Unlinked(g, id, lc) && curr != id ==> id !in selected)
    ensures Closed(SpaceOf(f, g, sim)) && 0 <= curr < |g.nodes| ==>
      r.Ok? && Closed(SpaceOf(f, g', sim)) && 0 <= r.value.0 < |g.nodes|
  {
    g' := g;
    var maxM := if lc == 0 then M0 else M;
    var selected;
    selected, found, cache' := Candidates(f, sim, cache, g, vector, curr, lc, maxM);
    if selected.Err? {
      return Err(selected.error), found, g', cache';
    }
    var err;
    err, g' := WriteLevel(f, sim, g, id, lc, selected.value);
    if err.Some? {
      return Err(err.value), found, g', cache';
    }
    assert selected.value[0] in selected.value;
    r := Ok((selected.value[0], selected.value));
  }

  /** The writes of one level: the new node's links, then each selected
      node's link back. */
  method WriteLevel(f: VectorFile.File, sim: Similarity, g: Graph, id: nat, lc: nat, selected: seq<int>)
    returns (err: Option<Error>, g': Graph)
    requires WellFormed(g) && id < |g.nodes| && lc < L
    requires 1 <= |selected| <= Capacity(lc) && EMPTY_SLOT !in selected
    ensures WellFormed(g') && g'.header == g.header && |g'.nodes| == |g.nodes|
    ensures forall i :: 0 <= i < |g.nodes| ==> g'.nodes[i].maxLevel == g.nodes[i].maxLevel
    ensures forall b :: b != Block(lc) ==> SameBlock(g, g', b)
    ensures err.Some? ==> err.value.Lookup()
    ensures err.None? && id !in selected ==> ReadNode(g', id).value.connections[lc] == selected
    ensures err.None? && id !in selected ==> LinkedBoth(SpaceOf(f, g, sim), g', id, lc)
    ensures Closed(SpaceOf(f, g, sim)) && (forall x :: x in selected ==> 0 <= x < |g.nodes|) ==>
      err.None? && Closed(SpaceOf(f, g', sim))
  {
    var written := UpdateLinks(g, id, lc, selected);
    UpdateKeepsBlock(g, id, lc, selected);
    WrittenClosed(f, g, id, lc, selected, sim);
    err, g' := LinkAll(f, sim, written, id, lc, selected, Capacity(lc));
    LevelFrame(g, written, g', lc);
    if err.None? {
      LinkedLevel(SpaceOf(f, g, sim), SpaceOf(f, written, sim), g, g', id, lc, selected);
    }
  }

  lemma {:induction false} LevelFrame(g: Graph, h: Graph, k: Graph, lc: nat)
    requires forall b :: b != Block(lc) ==> SameBlock(g, h, b)
    requires forall b :: b != Block(lc) ==> SameBlock(h, k, b)
    ensures forall b :: b != Block(lc) ==> SameBlock(g, k, b)
  {
    forall b | b != Block(lc)
      ensures SameBlock(g, k, b)
    {
      SameBlockTrans(g, h, k, b);
    }
  }

  /** The new node's own list is the selection, and each selected node
      links back: the node is linked both ways on the level. */
  lemma {:induction false} LinkedLevel(sp: Space, sp1: Space, g: Graph, h: Graph, id: nat, lc: nat,
                                       selected: seq<int>)
    requires sp1.read == sp.read && sp1.sim == sp.sim
    requires WellFormed(g) && lc < L && id < |g.nodes| && |h.nodes| == |g.nodes| && WellFormed(h)
    requires 1 <= |selected| <= Capacity(lc) && EMPTY_SLOT !in selected
    requires id !in selected ==> h.nodes[id] == UpdateLinks(g, id, lc, selected).nodes[id]
    requires forall x :: x in selected && x != id ==> BackLinked(sp1, h, id, lc, x)
    ensures id !in selected ==> ReadNode(h, id).value.connections[lc] == selected
    ensures id !in selected ==> LinkedBoth(sp, h, id, lc)
  {
    if id !in selected {
      UpdateThenRead(g, id, lc, selected);
      assert ReadNode(h, id) == ReadNode(UpdateLinks(g, id, lc, selected), id);
      LinkedBothSpaces(sp1, sp, h, id);
      assert WellFormedNode(h.nodes[id]);
      assert Neighbors(ReadNode(h, id).value, lc) == selected;
    }
  }

  /** Writing links that name nodes keeps a closed space closed. */
  lemma {:induction false} WrittenClosed(f: VectorFile.File, g: Graph, id: nat, lc: nat, selected: seq<int>, sim: Similarity)
    requires id < |g.nodes|
    ensures Closed(SpaceOf(f, g, sim)) && (forall x :: x in selected ==> 0 <= x < |g.nodes|) ==>
      Closed(SpaceOf(f, UpdateLinks(g, id, lc, selected), sim))
  {
    if Closed(SpaceOf(f, g, sim)) && (forall x :: x in selected ==> 0 <= x < |g.nodes|) {
      UpdateKeepsLinksIn(g, id, lc, selected, |g.nodes|);
      ClosedOf(f, g, UpdateLinks(g, id, lc, selected), sim);
    }
  }

  /** The search of one level for the new node's links: ef 100, k = M, the
      first `maxM` of what it finds. */
  method Candidates(f: VectorFile.File, sim: Similarity, cache: Cache, g: Graph, vector: Vector, curr: int,
                    lc: nat, maxM: nat)
    returns (r: Result<seq<int>>, ghost found: seq<Scored>, cache': Cache)
    requires Coherent(SpaceOf(f, g, sim), cache)
    ensures forall h :: Coherent(SpaceOf(f, h, sim), cache')
    ensures r.Err? ==> r.error.Lookup()
    ensures r.Ok? ==> LayerResult(SpaceOf(f, g, sim), vector, curr, 100, lc, Some(M), found)
    ensures r.Ok? ==> r.value == Select(found, maxM)
    ensures r.Ok? ==> var selected := r.value;
      && |selected| <= M && |selected| <= maxM
      && (maxM >= 1 ==> |selected| >= 1)
      && (forall i, j :: 0 <= i < j < |selected| ==> selected[i] != selected[j])
      && EMPTY_SLOT !in selected
      && (forall x :: x in selected && x != curr ==> !Unlinked(g, x, lc))
    ensures Closed(SpaceOf(f, g, sim)) && 0 <= curr < |g.nodes| ==>
      r.Ok? && forall x :: x in r.value ==> 0 <= x < |g.nodes|
  {
    cache' := cache;
    found := [];
    var searched;
    searched, cache' := SearchLayer(SpaceOf(f, g, sim), cache', vector, curr, 100, lc, Some(M));
    if searched.Err? {
      return Err(searched.error), found, cache';
    }
    found := searched.value;
    CoherentAnyGraph(f, g, sim, cache');
    SelectedAreNodes(SpaceOf(f, g, sim), vector, found, maxM);
    r := Ok(Select(searched.value, maxM));
    SelectedReached(SpaceOf(f, g, sim), vector, curr, lc, found, maxM);
  }

  /** What the search of a level finds was reached along its links: a node
      other than the start is linked to on that level, and in a closed space
      it is a node. */
  lemma {:induction false} SelectedReached(sp: Space, q: Vector, curr: int, lc: nat, found: seq<Scored>, maxM: nat)
    requires LayerResult(sp, q, curr, 100, lc, Some(M), found)
    ensures forall x :: x in Select(found, maxM) && x != curr ==> !Unlinked(sp.graph, x, lc)
    ensures Closed(sp) && 0 <= curr < |sp.graph.nodes| ==>
      forall x :: x in Select(found, maxM) ==> 0 <= x < |sp.graph.nodes|
  {
    var s := Select(found, maxM);
    forall x | x in s
      ensures Reaches(sp.graph, lc, curr, x)
    {
      var i :| 0 <= i < |s| && s[i] == x;
      assert found[i] in found;
    }
    forall x | x in s && x != curr
      ensures !Unlinked(sp.graph, x, lc)
    {
      ReachedIsLinked(sp.graph, lc, curr, x);
    }
    if Closed(sp) && 0 <= curr < |sp.graph.nodes| {
      forall x | x in s
        ensures 0 <= x < |sp.graph.nodes|
      {
        ReachedInRange(sp.graph, lc, curr, x);
      }
    }
  }

  /** The new node's links on a level: the first `maxM` ids found. */
  function Select(found: seq<Scored>, maxM: nat): (s: seq<int>)
    requires DistinctIds(found)
    ensures |s| == Min(|found|, maxM)
    ensures forall i :: 0 <= i < |s| ==> s[i] == found[i].id
    ensures forall i, j :: 0 <= i < j < |s| ==> s[i] != s[j]
  {
    Ids(found)[..Min(|found|, maxM)]
  }

  lemma {:induction false} SelectedAreNodes(sp: Space, q: Vector, found: seq<Scored>, maxM: nat)
    requires DistinctIds(found)
    requires forall id :: id < 0 ==> sp.read(id).None?
    requires forall x :: x in found ==> ScoreOf(sp, q, x.id).Ok?
    ensures EMPTY_SLOT !in Select(found, maxM)
  {
    var s := Select(found, maxM);
    forall i | 0 <= i < |s|
      ensures s[i] != EMPTY_SLOT
    {
      assert found[i] in found;
    }
  }

  /** Link every selected node back to `id`, in order; the first failure
      stops, keeping the writes made before it. */
  method LinkAll(f: VectorFile.File, sim: Similarity, g: Graph, id: nat, lc: nat, selected: seq<int>, maxM: nat)
    returns (err: Option<Error>, g': Graph)
    requires WellFormed(g) && id < |g.nodes| && lc < L && maxM == Capacity(lc)
    ensures WellFormed(g') && g'.header == g.header && |g'.nodes| == |g.nodes|
    ensures forall i :: 0 <= i < |g.nodes| ==> g'.nodes[i].maxLevel == g.nodes[i].maxLevel
    ensures id !in selected ==> g'.nodes[id] == g.nodes[id]
    ensures forall b :: b != Block(lc) ==> SameBlock(g, g', b)
    ensures err.Some? ==> err.value.Lookup()
    ensures err.None? ==> forall x :: x in selected && x != id ==> BackLinked(SpaceOf(f, g, sim), g', id, lc, x)
    ensures Closed(SpaceOf(f, g, sim)) && (forall x :: x in selected ==> 0 <= x < |g.nodes|) ==>
      err.None? && Closed(SpaceOf(f, g', sim))
  {
    var sp := SpaceOf(f, g, sim);
    g' := g;
    var i := 0;
    while i < |selected|
      invariant 0 <= i <= |selected|
      invariant WellFormed(g') && g'.header == g.header && |g'.nodes| == |g.nodes|
      invariant forall j :: 0 <= j < |g.nodes| ==> g'.nodes[j].maxLevel == g.nodes[j].maxLevel
      invariant id !in selected ==> g'.nodes[id] == g.nodes[id]
      invariant forall b :: b != Block(lc) ==> SameBlock(g, g', b)
      invariant forall j :: 0 <= j < i && selected[j] != id ==> BackLinked(sp, g', id, lc, selected[j])
      invariant Closed(sp) && (forall x :: x in selected ==> 0 <= x < |g.nodes|) ==>
        Closed(SpaceOf(f, g', sim))
    {
      assert selected[i] in selected;
      var linked := LinkBack(sp, g', id, lc, selected[i], maxM);
      if linked.Err? {
        return Some(linked.error), g';
      }
      assert id !in selected ==> selected[i] != id;
      if Closed(sp) && (forall x :: x in selected ==> 0 <= x < |g.nodes|) {
        ClosedOf(f, g, linked.value, sim);
      }
      LinkedAllStep(sp, g, g', linked.value, id, lc, selected, i);
      g' := linked.value;
      i := i + 1;
    }
    err := None;
  }

  /** One back-link keeps the others: it rewrites one row, in one block. */
  lemma {:induction false} LinkedAllStep(sp: Space, g: Graph, g1: Graph, g2: Graph, id: nat, lc: nat,
                                         selected: seq<int>, i: nat)
    requires i < |selected| && |g1.nodes| == |g.nodes| && 0 <= selected[i] < |g.nodes|
    requires |g2.nodes| == |g1.nodes|
    requires forall k :: 0 <= k < |g1.nodes| && k != selected[i] ==> g2.nodes[k] == g1.nodes[k]
    requires forall b :: b != Block(lc) ==> SameBlock(g, g1, b)
    requires forall b :: b != Block(lc) ==> SameBlock(g1, g2, b)
    requires forall j :: 0 <= j < i && selected[j] != id ==> BackLinked(sp, g1, id, lc, selected[j])
    requires selected[i] != id ==> BackLinked(sp, g2, id, lc, selected[i])
    ensures forall b :: b != Block(lc) ==> SameBlock(g, g2, b)
    ensures forall j :: 0 <= j < i + 1 && selected[j] != id ==> BackLinked(sp, g2, id, lc, selected[j])
  {
    forall b | b != Block(lc)
      ensures SameBlock(g, g2, b)
    {
      SameBlockTrans(g, g1, g2, b);
    }
    forall j | 0 <= j < i + 1 && selected[j] != id
      ensures BackLinked(sp, g2, id, lc, selected[j])
    {
      if selected[j] != selected[i] {
        BackLinkedKept(sp, g1, g2, id, lc, selected[j]);
      }
    }
  }

  /** The cache holds vectors only, so it stays coherent whatever the graph. */
  lemma {:induction false} CoherentAnyGraph(f: VectorFile.File, g: Graph, sim: Similarity, cache: Cache)
    requires Coherent(SpaceOf(f, g, sim), cache)
    ensures forall h :: Coherent(SpaceOf(f, h, sim), cache)
  {
    forall h, id | id in cache
      ensures VectorAt(SpaceOf(f, h, sim), id) == Ok(cache[id])
    {
      assert VectorAt(SpaceOf(f, g, sim), id) == Ok(cache[id]);
    }
  }

  // ---------------------------------------------------------------------
  // insert

  /** The level of the entry point's node, -1 for an empty graph (and for a
      graph whose entry point cannot be read). */
  function EntryLevel(g: Graph): int {
    var e := g.header.entry;
    if e < 0 then -1
    else match ReadNode(g, e)
      case Ok(node) => node.maxLevel
      case Err(_) => -1
  }

  /** `insert`, up to the node creation: refuse a live duplicate, append the
      vector, write the mapping (an update when the id was tombstoned, an
      insert otherwise), read the entry point and create the node. */
  method Insert(st: Stores, sim: Similarity, cache: Cache, externalId: Bytes, vector: Vector, coins: seq<bool>)
    returns (status: Result<nat>, out: Stores, cache': Cache)
    requires Valid(st)
    requires Coherent(SpaceOf(st.vectors, st.graph, sim), cache)
    ensures Valid(out)
    ensures Consistent(st) ==> Consistent(out)
    ensures Consistent(st) && |externalId| <= VECTOR_ID_SIZE && |vector| == DIMENSION ==>
      (status.Ok? <==> !(MetaFile.Find(st.meta, externalId).Some? && MetaFile.Find(st.meta, externalId).value != TOMBSTONE))
    ensures Coherent(SpaceOf(out.vectors, out.graph, sim), cache')
    ensures status == Err(Duplicate) <==>
      MetaFile.Find(st.meta, externalId).Some? && MetaFile.Find(st.meta, externalId).value != TOMBSTONE
    ensures status == Err(Duplicate) ==> out == st
    ensures forall other :: other != externalId && other != MetaFile.StoredKey(externalId) ==>
      MetaFile.Find(out.meta, other) == MetaFile.Find(st.meta, other)
    ensures status != Err(Duplicate) && VectorFile.Append(st.vectors, externalId, vector).Err? ==>
      status == Err(VectorFile.Append(st.vectors, externalId, vector).error) && out == st
    ensures status.Ok? ==>
      var (vectors, id) := VectorFile.Append(st.vectors, externalId, vector).value;
      && status.value == id
      && out.vectors == vectors
      && (FitsField(externalId, VECTOR_ID_SIZE) ==> MetaFile.Find(out.meta, externalId) == Some(id))
      && |out.graph.nodes| == Max(|st.graph.nodes|, id + 1)
      && ReadNode(out.graph, id).Ok? && ReadNode(out.graph, id).value.maxLevel == RandomLevel(coins)
      && (st.graph.header.entry == EMPTY_SLOT ==> out.graph.header == Header(id, 1))
      && (st.graph.header.entry != EMPTY_SLOT ==>
            && out.graph.header.total == st.graph.header.total + 1
            && out.graph.header.entry ==
                 if RandomLevel(coins) > EntryLevel(st.graph) then id else st.graph.header.entry)
    ensures status.Ok? && st.graph.header.entry == EMPTY_SLOT ==>
      ReadNode(out.graph, status.value).value.connections == [[], [], [], []]
    ensures Consistent(st) && status.Ok? && st.graph.header.entry != EMPTY_SLOT ==>
      forall l :: 0 <= l <= Min(RandomLevel(coins), EntryLevel(st.graph)) ==>
        LinkedBoth(SpaceOf(out.vectors, out.graph, sim), out.graph, status.value, l)
  {
    out, cache' := st, cache;
    var existing := MetaFile.Find(st.meta, externalId);
    var isUpdate := false;
    if existing.Some? {
      if existing.value == TOMBSTONE {
        isUpdate := true;
      } else {
        return Err(Duplicate), out, cache';
      }
    }
    var appended := VectorFile.Append(st.vectors, externalId, vector);
    if appended.Err? {
      return Err(appended.error), out, cache';
    }
    var (vectors, id) := appended.value;
    AppendKeepsCoherent(st.vectors, st.graph, st.graph, sim, cache, externalId, vector);
    out := Stores(vectors, st.graph, Map(st.meta, externalId, id, isUpdate));
    if Consistent(st) {
      AppendedRows(st, externalId, vector);
      RowsHaveVectors(vectors, st.graph, sim, id + 1);
    }
    var graph;
    status, graph, cache' := Place(vectors, sim, cache', st.graph, id, vector, RandomLevel(coins));
    out := out.(graph := graph);
  }

  /** Appending to consistent stores adds row `id`, one past every graph
      node. */
  lemma {:induction false} AppendedRows(st: Stores, externalId: Bytes, vector: Vector)
    requires Consistent(st)
    requires VectorFile.Append(st.vectors, externalId, vector).Ok?
    ensures var (vectors, id) := VectorFile.Append(st.vectors, externalId, vector).value;
      |st.graph.nodes| <= id && (id + 1) * VECTOR_ROW_SIZE == |vectors|
  {
    var (vectors, id) := VectorFile.Append(st.vectors, externalId, vector).value;
    assert id * VECTOR_ROW_SIZE == |st.vectors|;
    assert (id + 1) * VECTOR_ROW_SIZE == |vectors|;
  }

  /** The graph part of `insert`: read the entry point's level, create the
      node, and either make it the entry point of an empty graph or connect
      it and, when it tops the entry point, make it the new entry point. */
  method Place(f: VectorFile.File, sim: Similarity, cache: Cache, g: Graph, id: nat, vector: Vector, level: nat)
    returns (status: Result<nat>, g': Graph, cache': Cache)
    requires Coherent(SpaceOf(f, g, sim), cache)
    requires WellFormed(g) && level < L
    ensures Coherent(SpaceOf(f, g', sim), cache')
    ensures WellFormed(g')
    ensures status.Err? ==> status.error.Lookup()
    ensures status.Ok? ==>
      && status.value == id
      && |g'.nodes| == Max(|g.nodes|, id + 1)
      && ReadNode(g', id).Ok? && ReadNode(g', id).value.maxLevel == level
      && (g.header.entry == EMPTY_SLOT ==> g'.header == Header(id, 1))
      && (g.header.entry != EMPTY_SLOT ==>
            && g'.header.total == g.header.total + 1
            && g'.header.entry == if level > EntryLevel(g) then id else g.header.entry)
    ensures LinksIn(g, |g.nodes|) && EntryIn(g) && |g.nodes| <= id + 1 && HasVectors(SpaceOf(f, g, sim), id + 1) ==>
      status.Ok? && Closed(SpaceOf(f, g', sim))
    ensures status.Ok? && g.header.entry == EMPTY_SLOT ==> ReadNode(g', id).value.connections == [[], [], [], []]
    ensures LinksIn(g, |g.nodes|) && EntryIn(g) && |g.nodes| <= id && HasVectors(SpaceOf(f, g, sim), id + 1) &&
            g.header.entry != EMPTY_SLOT ==>
      forall l :: 0 <= l <= Min(level, EntryLevel(g)) ==> LinkedBoth(SpaceOf(f, g', sim), g', id, l)
  {
    g', cache' := g, cache;
    var header := ReadHeader(g);
    var entry := header.entry;
    var maxLevel: int := -1;
    if entry != EMPTY_SLOT {
      if entry < 0 {
        return Err(NodeNotFound(entry)), g', cache';
      }
      var node := ReadNode(g, entry);
      if node.Err? {
        return Err(node.error), g', cache';
      }
      maxLevel := node.value.maxLevel;
    }
    assert entry != EMPTY_SLOT ==> maxLevel == EntryLevel(g);
    var created := CreateNode(g, id, level);
    CreatedLevel(g, id, level);
    CoherentAnyGraph(f, g, sim, cache');
    CreatedClosed(f, g, id, level, sim);
    CreatedUnseen(g, id, level);
    CreateThenRead(g, id, level);
    status, g', cache' := Attach(f, sim, cache', created, id, vector, level, maxLevel);
    assert g'.nodes[id].maxLevel == created.nodes[id].maxLevel;
    ReadLevel(g', id);
    LinkedBothSpaces(SpaceOf(f, created, sim), SpaceOf(f, g', sim), g', id);
  }

  /** A node created past every row of a graph whose links name its rows
      is linked from no block. */
  lemma {:induction false} CreatedUnseen(g: Graph, id: nat, level: nat)
    ensures LinksIn(g, |g.nodes|) && |g.nodes| <= id ==> forall b :: Unlinked(CreateNode(g, id, level), id, b)
  {
    if LinksIn(g, |g.nodes|) && |g.nodes| <= id {
      forall b
        ensures Unlinked(CreateNode(g, id, level), id, b)
      {
        CreateUnlinked(g, id, level, b);
      }
    }
  }

  /** What follows the node's creation: in an empty graph it becomes the
      entry point with a total of 1; otherwise it is connected and, when its
      level tops the entry point's, it becomes the entry point. */
  method Attach(f: VectorFile.File, sim: Similarity, cache: Cache, g: Graph, id: nat, vector: Vector,
                level: nat, maxLevel: int)
    returns (status: Result<nat>, g': Graph, cache': Cache)
    requires Coherent(SpaceOf(f, g, sim), cache)
    requires WellFormed(g) && id < |g.nodes| && level < L
    ensures Coherent(SpaceOf(f, g', sim), cache')
    ensures WellFormed(g') && |g'.nodes| == |g.nodes|
    ensures forall i :: 0 <= i < |g.nodes| ==> g'.nodes[i].maxLevel == g.nodes[i].maxLevel
    ensures status.Err? ==> status.error.Lookup()
    ensures status.Ok? ==> status.value == id
    ensures status.Ok? && g.header.entry == EMPTY_SLOT ==> g'.header == Header(id, 1)
    ensures status.Ok? && g.header.entry != EMPTY_SLOT ==>
      g'.header == if level > maxLevel then Header(id, g.header.total) else g.header
    ensures Closed(SpaceOf(f, g, sim)) ==> status.Ok? && Closed(SpaceOf(f, g', sim))
    ensures g.header.entry == EMPTY_SLOT ==> g'.nodes == g.nodes
    ensures Closed(SpaceOf(f, g, sim)) && g.header.entry != EMPTY_SLOT && g.header.entry != id &&
            (forall b :: Unlinked(g, id, b)) ==>
      forall l :: 0 <= l <= Min(level, maxLevel) ==> LinkedBoth(SpaceOf(f, g, sim), g', id, l)
  {
    var entry := g.header.entry;
    if entry == EMPTY_SLOT {
      NewEntryClosed(f, g, id, 1, sim);
      return Ok(id), WriteHeader(g, id, 1), cache;
    }
    status, g', cache' := Connect(f, sim, cache, g, id, vector, level, entry, maxLevel);
    if status.Ok? && level > maxLevel {
      NewEntryClosed(f, g', id, g.header.total, sim);
      HeaderKeepsLinks(SpaceOf(f, g, sim), g', WriteHeader(g', id, g.header.total), id);
      g' := WriteHeader(g', id, g.header.total);
    }
  }

  /** Rewriting the header keeps every node's links. */
  lemma {:induction false} HeaderKeepsLinks(sp: Space, g: Graph, h: Graph, id: int)
    requires h.nodes == g.nodes
    ensures forall l: nat :: LinkedBoth(sp, g, id, l) ==> LinkedBoth(sp, h, id, l)
  {
    forall l: nat | LinkedBoth(sp, g, id, l)
      ensures LinkedBoth(sp, h, id, l)
    {
      LinkedBothKept(sp, g, h, id, l);
    }
  }

  /** Creating node `id` over a vector file holding its row keeps the space
      closed. */
  lemma {:induction false} CreatedClosed(f: VectorFile.File, g: Graph, id: nat, level: nat, sim: Similarity)
    ensures LinksIn(g, |g.nodes|) && EntryIn(g) && |g.nodes| <= id + 1 && HasVectors(SpaceOf(f, g, sim), id + 1) ==>
      Closed(SpaceOf(f, CreateNode(g, id, level), sim))
  {
    if LinksIn(g, |g.nodes|) && EntryIn(g) && |g.nodes| <= id + 1 && HasVectors(SpaceOf(f, g, sim), id + 1) {
      CreateKeepsLinksIn(g, id, level);
      ClosedOf(f, g, CreateNode(g, id, level), sim);
    }
  }

  /** Making a node the entry point keeps a closed space closed. */
  lemma {:induction false} NewEntryClosed(f: VectorFile.File, g: Graph, id: nat, total: int, sim: Similarity)
    ensures Closed(SpaceOf(f, g, sim)) && id < |g.nodes| ==> Closed(SpaceOf(f, WriteHeader(g, id, total), sim))
  {
    if Closed(SpaceOf(f, g, sim)) && id < |g.nodes| {
      ClosedOf(f, g, WriteHeader(g, id, total), sim);
    }
  }

  /** The mapping write of `insert`. */
  function Map(meta: MetaFile.Meta, externalId: Bytes, id: nat, isUpdate: bool): (r: MetaFile.Meta)
    requires MetaFile.WellFormed(meta)
    requires forall j :: 0 <= j < |meta| ==> meta[j].value >= TOMBSTONE
    requires isUpdate ==> MetaFile.Find(meta, externalId) == Some(TOMBSTONE)
    requires !isUpdate ==> MetaFile.Find(meta, externalId).None?
    ensures MetaFile.WellFormed(r)
    ensures forall j :: 0 <= j < |r| ==> r[j].value >= TOMBSTONE
    ensures FitsField(externalId, VECTOR_ID_SIZE) ==> MetaFile.Find(r, externalId) == Some(id)
    ensures forall other :: other != externalId && other != MetaFile.StoredKey(externalId) ==>
      MetaFile.Find(r, other) == MetaFile.Find(meta, other)
  {
    if isUpdate then
      forall other | other != externalId
        ensures MetaFile.Find(MetaFile.Update(meta, externalId, id).0, other) == MetaFile.Find(meta, other)
      {
        MetaFile.UpdateThenFind(meta, externalId, id, other);
      }
      MetaFile.UpdateThenFind(meta, externalId, id, externalId);
      MetaFile.Update(meta, externalId, id).0
    else
      forall other | other != MetaFile.StoredKey(externalId)
        ensures MetaFile.Find(MetaFile.Insert(meta, externalId, id), other) == MetaFile.Find(meta, other)
      {
        MetaFile.InsertKeepsOthers(meta, externalId, id, other);
      }
      MetaFile.InsertThenFind(meta, externalId, id);
      MetaFile.Insert(meta, externalId, id)
  }

  /** The rest of `insert` on a non-empty graph: the greedy descent from the
      entry point down to level + 1 (reading vectors directly, without the
      cache), then linking on every level from min(level, maxLevel) down to
      0. Returns the new internal id. When the entry point is a node other
      than the new one, nothing links to the new node yet and the space is
      closed, the new node ends up linked both ways on every level it
      shares with the entry point. */
  method Connect(f: VectorFile.File, sim: Similarity, cache: Cache, g: Graph, id: nat, vector: Vector,
                 level: nat, entry: int, maxLevel: int)
    returns (status: Result<nat>, g': Graph, cache': Cache)
    requires Coherent(SpaceOf(f, g, sim), cache)
    requires WellFormed(g) && id < |g.nodes| && level < L
    ensures Coherent(SpaceOf(f, g', sim), cache')
    ensures WellFormed(g') && g'.header == g.header && |g'.nodes| == |g.nodes|
    ensures forall i :: 0 <= i < |g.nodes| ==> g'.nodes[i].maxLevel == g.nodes[i].maxLevel
    ensures status.Ok? ==> status.value == id
    ensures status.Err? ==> status.error.Lookup()
    ensures Closed(SpaceOf(f, g, sim)) && 0 <= entry < |g.nodes| ==> status.Ok? && Closed(SpaceOf(f, g', sim))
    ensures Closed(SpaceOf(f, g, sim)) && 0 <= entry < |g.nodes| && entry != id && (forall b :: Unlinked(g, id, b)) ==>
      forall l :: 0 <= l <= Min(level, maxLevel) ==> LinkedBoth(SpaceOf(f, g, sim), g', id, l)
  {
    g', cache' := g, cache;
    var sp := SpaceOf(f, g, sim);
    ghost var unseen := Closed(sp) && 0 <= entry < |g.nodes| && entry != id && (forall b :: Unlinked(g, id, b));
    var entrySim := ScoreOf(sp, vector, entry);
    if entrySim.Err? {
      return Err(entrySim.error), g', cache';
    }
    var descended, _ := Descend(sp, map[], vector, entry, entrySim.value, maxLevel, level);
    if descended.Err? {
      return Err(descended.error), g', cache';
    }
    var curr := descended.value.0;
    if unseen {
      UnlinkedNotLinked(g, id);
    }
    var lc := Min(level, maxLevel);
    while lc >= 0
      invariant lc < L
      invariant forall h :: Coherent(SpaceOf(f, h, sim), cache')
      invariant WellFormed(g') && g'.header == g.header && |g'.nodes| == |g.nodes|
      invariant forall i :: 0 <= i < |g.nodes| ==> g'.nodes[i].maxLevel == g.nodes[i].maxLevel
      invariant Closed(SpaceOf(f, g, sim)) && 0 <= entry < |g.nodes| ==>
        Closed(SpaceOf(f, g', sim)) && 0 <= curr < |g.nodes|
      invariant unseen ==> Linking(sp, g', id, curr, lc, Min(level, maxLevel))
    {
      var linked;
      ghost var found;
      var before := g';
      linked, found, g', cache' := LinkLevel(f, sim, cache', g', id, vector, curr, lc);
      if linked.Err? {
        return Err(linked.error), g', cache';
      }
      if unseen {
        LinkingStep(sp, SpaceOf(f, before, sim), before, g', id, curr, lc, Min(level, maxLevel), linked.value.1);
      }
      curr := linked.value.0;
      lc := lc - 1;
    }
    CoherentAnyGraph(f, g, sim, cache);
    status := Ok(id);
  }

  /** The state of `insert`'s linking loop above level lc: the current
      node is not the new one, nothing links to the new node on levels
      0..lc yet, and it is linked both ways on levels lc + 1..top. */
  ghost predicate Linking(sp: Space, g: Graph, id: nat, curr: int, lc: int, top: int) {
    && curr != id
    && (forall l :: 0 <= l <= lc ==> Unlinked(g, id, l))
    && (forall l :: 0 <= l && lc < l <= top ==> LinkedBoth(sp, g, id, l))
  }

  /** Linking level lc moves the loop's state down one level. */
  lemma {:induction false} LinkingStep(sp: Space, sp1: Space, g1: Graph, g2: Graph, id: nat, curr: int, lc: nat,
                                       top: int, selected: seq<int>)
    requires sp1.read == sp.read && sp1.sim == sp.sim
    requires lc < L && top < L && Linking(sp, g1, id, curr, lc, top)
    requires forall b :: b != Block(lc) ==> SameBlock(g1, g2, b)
    requires 1 <= |selected|
    requires Unlinked(g1, id, lc) && curr != id ==> id !in selected
    requires id !in selected ==> LinkedBoth(sp1, g2, id, lc)
    ensures Linking(sp, g2, id, selected[0], lc - 1, top)
  {
    assert Unlinked(g1, id, lc);
    assert id !in selected;
    LinkedBothSpaces(sp1, sp, g2, id);
    forall l | 0 <= l <= lc - 1
      ensures Unlinked(g2, id, l)
    {
      assert Unlinked(g1, id, l);
      SameBlockUnlinked(g1, g2, l, id);
    }
    forall l | 0 <= l && lc - 1 < l <= top
      ensures LinkedBoth(sp, g2, id, l)
    {
      if l != lc {
        assert LinkedBoth(sp, g1, id, l);
        LinkedBothKept(sp, g1, g2, id, l);
      }
    }
    assert selected[0] in selected;
  }

  // ---------------------------------------------------------------------
  // delete

  /** `delete`: nothing for an absent or tombstoned id; otherwise flag the
      vector row deleted and map the id to -1. The graph is not touched. */
  function Delete(st: Stores, externalId: Bytes): (r: (Stores, bool))
    requires Valid(st)
    ensures Valid(r.0)
    ensures Consistent(st) ==> Consistent(r.0)
    ensures r.1 <==> MetaFile.Find(st.meta, externalId).Some? && MetaFile.Find(st.meta, externalId).value != TOMBSTONE
    ensures !r.1 ==> r.0 == st
    ensures r.0.graph == st.graph
    ensures r.1 ==> MetaFile.Find(r.0.meta, externalId) == Some(TOMBSTONE)
    ensures r.1 ==> VectorFile.Read(r.0.vectors, MetaFile.Find(st.meta, externalId).value).None?
  {
    match MetaFile.Find(st.meta, externalId)
    case None => (st, false)
    case Some(internalId) =>
      if internalId == TOMBSTONE then (st, false)
      else
        assert internalId >= 0 by {
          var i :| 0 <= i < |st.meta| && st.meta[i].key == externalId && st.meta[i].value == internalId;
        }
        MetaFile.UpdateThenFind(st.meta, externalId, TOMBSTONE, externalId);
        VectorFile.DeleteThenRead(st.vectors, internalId);
        (Stores(VectorFile.Delete(st.vectors, internalId), st.graph,
                MetaFile.Update(st.meta, externalId, TOMBSTONE).0), true)
  }

  /** A delete changes no other row of the vector file, and `find` of every
      other key is unchanged. */
  lemma {:induction false} DeleteKeepsOthers(st: Stores, externalId: Bytes, other: Bytes, row: nat)
    requires Valid(st)
    requires other != externalId
    requires Delete(st, externalId).1 ==> row != MetaFile.Find(st.meta, externalId).value
    ensures MetaFile.Find(Delete(st, externalId).0.meta, other) == MetaFile.Find(st.meta, other)
    ensures VectorFile.Read(Delete(st, externalId).0.vectors, row) == VectorFile.Read(st.vectors, row)
  {
    if Delete(st, externalId).1 {
      var internalId := MetaFile.Find(st.meta, externalId).value;
      MetaFile.UpdateThenFind(st.meta, externalId, TOMBSTONE, other);
      VectorFile.DeleteKeepsOthers(st.vectors, internalId, row);
    }
  }

  /** A second delete of the same id reports false and changes nothing. */
  lemma {:induction false} DeleteTwice(st: Stores, externalId: Bytes)
    requires Valid(st)
    ensures var (once, _) := Delete(st, externalId);
      Delete(once, externalId) == (once, false)
  {
  }
}

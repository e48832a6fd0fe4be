/** The HNSW searches (src/Core/HnswLogic.php): the greedy climb through the
    upper levels and the beam search of one level.

    Similarity is a parameter (`Space.sim`), a total function of two vectors.
    The vector store is seen through its reader, `readVectorOnly` (`SpaceOf`
    builds the space of a vector file and a graph). A vector the store
    cannot give (`readVectorOnly` returns null, which the source's `array`
    return type turns into a TypeError) and a node past the end of the graph
    both end the search with an error. */
module HnswLogic {
  import opened Types
  import VectorFile
  import opened GraphFile
  import opened Ranking

  type Similarity = (Vector, Vector) -> real

  /** The stores a search reads, and the similarity measure. */
  datatype Space = Space(read: int -> Option<Vector>, graph: Graph, sim: Similarity)

  /** `readVectorOnly` of a vector file; an id below zero reads nothing. */
  function Reader(f: VectorFile.File): int -> Option<Vector> {
    id => if id < 0 then None else VectorFile.ReadVectorOnly(f, id)
  }

  function SpaceOf(f: VectorFile.File, g: Graph, sim: Similarity): (sp: Space)
    ensures sp.graph == g && sp.sim == sim
    ensures forall id: nat :: sp.read(id) == VectorFile.ReadVectorOnly(f, id)
    ensures forall id :: id < 0 ==> sp.read(id).None?
  {
    Space(Reader(f), g, sim)
  }

  // ---------------------------------------------------------------------
  // Reading vectors and links

  /** The vector a search compares with, where null is an error. */
  function VectorAt(sp: Space, id: int): (r: Result<Vector>)
    ensures r.Ok? <==> sp.read(id).Some?
    ensures r.Ok? ==> sp.read(id) == Some(r.value)
    ensures r.Err? ==> r.error == MissingVector(id)
  {
    match sp.read(id)
    case None => Err(MissingVector(id))
    case Some(v) => Ok(v)
  }

  /** The similarity of the query to the vector of `id`. */
  function ScoreOf(sp: Space, q: Vector, id: int): Result<real> {
    var v :- VectorAt(sp, id);
    Ok(sp.sim(q, v))
  }

  /** Every id some slot of the graph holds. */
  function Linked(g: Graph): set<int> {
    set i, b, s | 0 <= i < |g.nodes| && 0 <= b < |g.nodes[i].blocks| && 0 <= s < |g.nodes[i].blocks[b]|
      :: g.nodes[i].blocks[b][s]
  }

  /** `readNode($id)['connections'][$level] ?? []`. */
  function LinksAt(g: Graph, id: int, level: int): (r: Result<seq<int>>)
    ensures r.Err? <==> id < 0 || id >= |g.nodes|
    ensures r.Err? ==> r.error == NodeNotFound(id)
    ensures r.Ok? ==> forall x :: x in r.value ==> x != EMPTY_SLOT && x in Linked(g)
  {
    if id < 0 then Err(NodeNotFound(id))
    else
      var node :- ReadNode(g, id);
      var links := Neighbors(node, level);
      assert forall x :: x in links ==> x != EMPTY_SLOT && x in Linked(g) by {
        forall x | x in links
          ensures x != EMPTY_SLOT && x in Linked(g)
        {
          var b := level;
          assert x in Clean(g.nodes[id].blocks[b]);
          var s :| 0 <= s < |g.nodes[id].blocks[b]| && g.nodes[id].blocks[b][s] == x;
        }
      }
      Ok(links)
  }

  /** A walk along the links of one level. */
  predicate IsPath(g: Graph, level: int, p: seq<int>) {
    && |p| > 0
    && forall i :: 0 <= i < |p| - 1 ==> LinksAt(g, p[i], level).Ok? && p[i + 1] in LinksAt(g, p[i], level).value
  }

  ghost predicate Reaches(g: Graph, level: int, from: int, to: int) {
    exists p :: IsPath(g, level, p) && p[0] == from && p[|p| - 1] == to
  }

  lemma {:induction false} PathExtend(g: Graph, level: int, p: seq<int>, next: int)
    requires IsPath(g, level, p)
    requires LinksAt(g, p[|p| - 1], level).Ok? && next in LinksAt(g, p[|p| - 1], level).value
    ensures IsPath(g, level, p + [next])
  {
    var q := p + [next];
    forall i | 0 <= i < |q| - 1
      ensures LinksAt(g, q[i], level).Ok? && q[i + 1] in LinksAt(g, q[i], level).value
    {
      if i < |p| - 1 {
        assert q[i] == p[i] && q[i + 1] == p[i + 1];
      } else {
        assert q[i] == p[|p| - 1] && q[i + 1] == next;
      }
    }
  }

  /** The first n ids have vectors. */
  predicate HasVectors(sp: Space, n: int) {
    forall i :: 0 <= i < n ==> VectorAt(sp, i).Ok?
  }

  /** A space a search cannot fail in: the entry point and every link name
      a node of the graph, and every node has a vector. */
  predicate Closed(sp: Space) {
    && LinksIn(sp.graph, |sp.graph.nodes|)
    && EntryIn(sp.graph)
    && HasVectors(sp, |sp.graph.nodes|)
  }

  /** The links a node gives name nodes when every slot does. */
  lemma {:induction false} LinksNameNodes(g: Graph, id: int, level: int)
    requires LinksIn(g, |g.nodes|) && LinksAt(g, id, level).Ok?
    ensures forall x :: x in LinksAt(g, id, level).value ==> 0 <= x < |g.nodes|
  {
    forall x | x in LinksAt(g, id, level).value
      ensures 0 <= x < |g.nodes|
    {
      assert x in Linked(g) && x != EMPTY_SLOT;
      var i, b, s :| 0 <= i < |g.nodes| && 0 <= b < |g.nodes[i].blocks| && 0 <= s < |g.nodes[i].blocks[b]|
        && g.nodes[i].blocks[b][s] == x;
      assert NodeLinksIn(g.nodes[i], |g.nodes|);
    }
  }

  /** What is reached from a node along links is a node. */
  lemma {:induction false} ReachedInRange(g: Graph, level: int, entry: int, x: int)
    requires LinksIn(g, |g.nodes|) && 0 <= entry < |g.nodes|
    requires Reaches(g, level, entry, x)
    ensures 0 <= x < |g.nodes|
  {
    var p :| IsPath(g, level, p) && p[0] == entry && p[|p| - 1] == x;
    if |p| > 1 {
      var last := |p| - 2;
      assert LinksAt(g, p[last], level).Ok? && p[last + 1] in LinksAt(g, p[last], level).value;
      LinksNameNodes(g, p[last], level);
    }
  }

  /** A node reached from another one along links of a level is held by a
      slot of that level's block. */
  lemma {:induction false} ReachedIsLinked(g: Graph, level: int, from: int, x: int)
    requires Reaches(g, level, from, x) && x != from
    ensures x in Linked(g)
    ensures !Unlinked(g, x, level)
  {
    var p :| IsPath(g, level, p) && p[0] == from && p[|p| - 1] == x;
    var k := |p| - 2;
    assert LinksAt(g, p[k], level).Ok? && p[k + 1] in LinksAt(g, p[k], level).value;
    var block := g.nodes[p[k]].blocks[level];
    assert x in Clean(block);
    var s :| 0 <= s < |block| && block[s] == x;
  }

  /** A node no block links to is held by no slot. */
  lemma {:induction false} UnlinkedNotLinked(g: Graph, x: int)
    requires forall b :: Unlinked(g, x, b)
    ensures x !in Linked(g)
  {
    forall i, b, s | 0 <= i < |g.nodes| && 0 <= b < |g.nodes[i].blocks| && 0 <= s < |g.nodes[i].blocks[b]|
      ensures g.nodes[i].blocks[b][s] != x
    {
      assert Unlinked(g, x, b);
    }
  }

  /** Closure of another graph over the same vector file: it needs only the
      vectors of as many rows as the other graph has. */
  lemma {:induction false} ClosedOf(f: VectorFile.File, g: Graph, h: Graph, sim: Similarity)
    requires HasVectors(SpaceOf(f, g, sim), |h.nodes|)
    requires LinksIn(h, |h.nodes|) && EntryIn(h)
    ensures Closed(SpaceOf(f, h, sim))
  {
    forall i | 0 <= i < |h.nodes|
      ensures VectorAt(SpaceOf(f, h, sim), i).Ok?
    {
      assert VectorAt(SpaceOf(f, g, sim), i).Ok?;
    }
  }

  // ---------------------------------------------------------------------
  // The request-level vector cache

  type Cache = map<int, Vector>

  /** Every cached vector is what the store gives for its id. */
  predicate Coherent(sp: Space, cache: Cache) {
    forall id :: id in cache ==> VectorAt(sp, id) == Ok(cache[id])
  }

  /** `getVector`: answer from the cache, otherwise read and remember. The
      source caches only what `readVectorOnly` returns; a null is never
      stored (`isset` is false for it) and fails the `array` return type. */
  method GetVector(sp: Space, cache: Cache, id: int) returns (r: Result<Vector>, cache': Cache)
    requires Coherent(sp, cache)
    ensures r == VectorAt(sp, id)
    ensures Coherent(sp, cache')
    ensures forall x :: x in cache ==> x in cache' && cache'[x] == cache[x]
  {
    if id in cache {
      return Ok(cache[id]), cache;
    }
    r := VectorAt(sp, id);
    cache' := if r.Ok? then cache[id := r.value] else cache;
  }

  /** The similarity of the query to `id`, through the cache. */
  method Score(sp: Space, cache: Cache, q: Vector, id: int) returns (r: Result<real>, cache': Cache)
    requires Coherent(sp, cache)
    ensures r == ScoreOf(sp, q, id)
    ensures Coherent(sp, cache')
  {
    var v;
    v, cache' := GetVector(sp, cache, id);
    if v.Err? {
      return Err(v.error), cache';
    }
    r := Ok(sp.sim(q, v.value));
  }

  /** The cache of a vector file stays coherent across appends (rows already
      in the file keep their vector bytes), whatever the graph does. */
  lemma {:induction false} AppendKeepsCoherent(f: VectorFile.File, g: Graph, g': Graph, sim: Similarity, cache: Cache,
                            externalId: Bytes, vector: Vector)
    requires Coherent(SpaceOf(f, g, sim), cache)
    requires VectorFile.Append(f, externalId, vector).Ok?
    ensures Coherent(SpaceOf(VectorFile.Append(f, externalId, vector).value.0, g', sim), cache)
  {
    var (f', appended) := VectorFile.Append(f, externalId, vector).value;
    forall id | id in cache
      ensures VectorAt(SpaceOf(f', g', sim), id) == Ok(cache[id])
    {
      assert VectorAt(SpaceOf(f, g, sim), id).Ok?;
      assert VectorFile.Offset(id) < |f| == VectorFile.Offset(appended);
      VectorFile.AppendKeepsOthers(f, externalId, vector, id);
    }
  }

  /** ... and across deletes, which only set a flag byte. */
  lemma {:induction false} DeleteKeepsCoherent(f: VectorFile.File, g: Graph, sim: Similarity, cache: Cache, id: nat)
    requires Coherent(SpaceOf(f, g, sim), cache)
    ensures Coherent(SpaceOf(VectorFile.Delete(f, id), g, sim), cache)
  {
    forall other | other in cache
      ensures VectorAt(SpaceOf(VectorFile.Delete(f, id), g, sim), other) == Ok(cache[other])
    {
      assert VectorAt(SpaceOf(f, g, sim), other).Ok?;
      VectorFile.DeleteKeepsOthers(f, id, other);
    }
  }

  // ---------------------------------------------------------------------
  // Greedy climb on one upper level

  /** Linked ids strictly more similar to the query than `floor`. */
  function Above(sp: Space, q: Vector, floor: real): set<int> {
    set x | x in Linked(sp.graph) && ScoreOf(sp, q, x).Ok? && ScoreOf(sp, q, x).value > floor
  }

  lemma {:induction false} AboveShrinks(sp: Space, q: Vector, lo: real, hi: real, x: int)
    requires lo < hi && x in Linked(sp.graph) && ScoreOf(sp, q, x) == Ok(hi)
    ensures |Above(sp, q, hi)| < |Above(sp, q, lo)|
  {
    var a := Above(sp, q, lo);
    var b := Above(sp, q, hi);
    assert x in a;
    var rest := a - {x};
    assert rest == b + (rest - b);
  }

  /** One `while (true)` of the descent: move to any neighbour more similar
      than the current node, until a whole pass moves nowhere. The result
      is reached from `start` along level-`lc` links, is at least as similar
      as `start`, and no neighbour of it is more similar. */
  method Climb(sp: Space, cache: Cache, q: Vector, start: int, startSim: real, lc: int)
    returns (r: Result<(int, real)>, cache': Cache)
    requires Coherent(sp, cache)
    requires ScoreOf(sp, q, start) == Ok(startSim)
    ensures Coherent(sp, cache')
    ensures r.Err? ==> r.error.Lookup()
    ensures r.Ok? ==> var (node, sim) := r.value;
      && ScoreOf(sp, q, node) == Ok(sim)
      && sim >= startSim
      && Reaches(sp.graph, lc, start, node)
      && LinksAt(sp.graph, node, lc).Ok?
      && forall n :: n in LinksAt(sp.graph, node, lc).value ==>
           ScoreOf(sp, q, n).Ok? && ScoreOf(sp, q, n).value <= sim
    ensures Closed(sp) && 0 <= start < |sp.graph.nodes| ==> r.Ok?
  {
    cache' := cache;
    var curr, currSim := start, startSim;
    ghost var path := [start];
    while true
      invariant Coherent(sp, cache')
      invariant ScoreOf(sp, q, curr) == Ok(currSim) && currSim >= startSim
      invariant IsPath(sp.graph, lc, path) && path[0] == start && path[|path| - 1] == curr
      invariant Closed(sp) && 0 <= start < |sp.graph.nodes| ==> 0 <= curr < |sp.graph.nodes|
      decreases |Above(sp, q, currSim)|
    {
      var neighbors :- LinksAt(sp.graph, curr, lc);
      if Closed(sp) && 0 <= start < |sp.graph.nodes| {
        LinksNameNodes(sp.graph, curr, lc);
      }
      var pass;
      pass, cache' :- Sweep(sp, cache', q, neighbors, curr, currSim);
      var (next, nextSim, changed) := pass;
      if !changed {
        return Ok((curr, currSim)), cache';
      }
      PathExtend(sp.graph, lc, path, next);
      AboveShrinks(sp, q, currSim, nextSim, next);
      path := path + [next];
      curr, currSim := next, nextSim;
    }
  }

  /** One pass of the descent over a node's neighbours: every neighbour more
      similar than the best so far becomes the best. The pass reports the
      best node and whether it moved; afterwards no neighbour beats it. */
  method Sweep(sp: Space, cache: Cache, q: Vector, neighbors: seq<int>, curr: int, currSim: real)
    returns (r: Result<(int, real, bool)>, cache': Cache)
    requires Coherent(sp, cache)
    requires ScoreOf(sp, q, curr) == Ok(currSim)
    ensures Coherent(sp, cache')
    ensures r.Err? ==> r.error.Lookup()
    ensures r.Ok? ==> var (best, bestSim, changed) := r.value;
      && ScoreOf(sp, q, best) == Ok(bestSim)
      && (!changed ==> best == curr && bestSim == currSim)
      && (changed ==> bestSim > currSim && best in neighbors)
      && forall n :: n in neighbors ==> ScoreOf(sp, q, n).Ok? && ScoreOf(sp, q, n).value <= bestSim
    ensures (forall n :: n in neighbors ==> VectorAt(sp, n).Ok?) ==> r.Ok?
  {
    cache' := cache;
    var best, bestSim, changed := curr, currSim, false;
    var i := 0;
    while i < |neighbors|
      invariant 0 <= i <= |neighbors|
      invariant Coherent(sp, cache')
      invariant ScoreOf(sp, q, best) == Ok(bestSim) && bestSim >= currSim
      invariant !changed ==> best == curr && bestSim == currSim
      invariant changed ==> bestSim > currSim && best in neighbors
      invariant forall j :: 0 <= j < i ==>
        ScoreOf(sp, q, neighbors[j]).Ok? && ScoreOf(sp, q, neighbors[j]).value <= bestSim
    {
      var sim;
      sim, cache' :- Score(sp, cache', q, neighbors[i]);
      if sim > bestSim {
        best, bestSim, changed := neighbors[i], sim, true;
      }
      i := i + 1;
    }
    r := Ok((best, bestSim, changed));
  }

  // ---------------------------------------------------------------------
  // Beam search of one level

  lemma {:induction false} VisitShrinks(all: set<int>, visited: set<int>, n: int)
    requires n in all && n !in visited
    ensures |all - (visited + {n})| == |all - visited| - 1
  {
    assert all - (visited + {n}) == (all - visited) - {n};
  }

  lemma {:induction false} ReachesSelf(g: Graph, level: int, x: int)
    ensures Reaches(g, level, x, x)
  {
    assert IsPath(g, level, [x]);
  }

  lemma {:induction false} ReachesStep(g: Graph, level: int, entry: int, c: int, n: int)
    requires Reaches(g, level, entry, c)
    requires LinksAt(g, c, level).Ok? && n in LinksAt(g, c, level).value
    ensures Reaches(g, level, entry, n)
  {
    var p :| IsPath(g, level, p) && p[0] == entry && p[|p| - 1] == c;
    PathExtend(g, level, p, n);
    var p' := p + [n];
    assert p'[0] == entry && p'[|p'| - 1] == n;
  }

  /** The state of `searchLayer`: the visited set, the frontier (the
      priority queue of candidates) and W, the best nodes found so far. */
  datatype Beam = Beam(visited: set<int>, candidates: seq<Scored>, w: seq<Scored>)

  /** What holds of the state after every step: W is non-empty, within
      max(ef, 1), has distinct ids and a best at least as good as the entry;
      every scored element carries its id's similarity and was visited; and
      every visited node is reached from the entry. */
  ghost predicate BeamOk(sp: Space, q: Vector, level: int, entry: int, entrySim: real, ef: int, b: Beam) {
    && 1 <= |b.w| <= Max(ef, 1)
    && DistinctIds(b.w)
    && Top(b.w) >= entrySim
    && Known(sp, q, b.w, b.visited)
    && Known(sp, q, b.candidates, b.visited)
    && AllReached(sp.graph, level, entry, b.visited)
  }

  /** Every element carries its id's similarity, and its id was visited. */
  predicate Known(sp: Space, q: Vector, s: seq<Scored>, visited: set<int>) {
    forall x :: x in s ==> x.id in visited && ScoreOf(sp, q, x.id) == Ok(x.score)
  }

  ghost predicate AllReached(g: Graph, level: int, entry: int, visited: set<int>) {
    forall x :: x in visited ==> Reaches(g, level, entry, x)
  }

  /** The loop bound: a node joins the frontier only when it leaves the
      unvisited part of the linked ids. */
  function Pending(sp: Space, b: Beam): nat {
    2 * |Linked(sp.graph) - b.visited| + |b.candidates|
  }

  /** Marking a reachable node visited keeps the state invariant. */
  lemma {:induction false} Skipped(sp: Space, q: Vector, level: int, entry: int, entrySim: real, ef: int, b: Beam, n: int)
    requires BeamOk(sp, q, level, entry, entrySim, ef, b)
    requires Reaches(sp.graph, level, entry, n)
    ensures BeamOk(sp, q, level, entry, entrySim, ef, Beam(b.visited + {n}, b.candidates, b.w))
  {
  }

  lemma {:induction false} KnownGrow(sp: Space, q: Vector, s: seq<Scored>, visited: set<int>, x: Scored)
    requires Known(sp, q, s, visited) && ScoreOf(sp, q, x.id) == Ok(x.score)
    ensures Known(sp, q, s + [x], visited + {x.id})
  {
    forall y | y in s + [x]
      ensures y.id in visited + {x.id} && ScoreOf(sp, q, y.id) == Ok(y.score)
    {
      assert y in s || y == x;
    }
  }

  lemma {:induction false} KnownPart(sp: Space, q: Vector, s: seq<Scored>, t: seq<Scored>, visited: set<int>)
    requires Known(sp, q, s, visited) && forall y :: y in t ==> y in s
    ensures Known(sp, q, t, visited)
  {
  }

  /** W with a new element (its id not yet visited) after eviction. */
  lemma {:induction false} AdmittedW(w: seq<Scored>, visited: set<int>, x: Scored, ef: int, entrySim: real)
    requires 1 <= |w| <= Max(ef, 1) && DistinctIds(w) && Top(w) >= entrySim
    requires forall y :: y in w ==> y.id in visited
    requires x.id !in visited
    ensures var w' := Evict(w + [x], ef);
      1 <= |w'| <= Max(ef, 1) && DistinctIds(w') && Top(w') >= entrySim
  {
    assert DistinctIds(w + [x]) by {
      forall i | 0 <= i < |w|
        ensures w[i].id != x.id
      {
        assert w[i] in w;
      }
    }
    TopAppend(w, x);
  }

  /** Admitting a newly visited, reachable node to the frontier and to W
      (then evicting W's worst if W is over ef) keeps the state invariant. */
  lemma {:induction false} Admitted(sp: Space, q: Vector, level: int, entry: int, entrySim: real, ef: int, b: Beam, x: Scored)
    requires BeamOk(sp, q, level, entry, entrySim, ef, b)
    requires x.id !in b.visited && ScoreOf(sp, q, x.id) == Ok(x.score)
    requires Reaches(sp.graph, level, entry, x.id)
    ensures BeamOk(sp, q, level, entry, entrySim, ef,
                   Beam(b.visited + {x.id}, b.candidates + [x], Evict(b.w + [x], ef)))
  {
    var visited := b.visited + {x.id};
    AdmittedW(b.w, b.visited, x, ef, entrySim);
    KnownGrow(sp, q, b.w, b.visited, x);
    KnownPart(sp, q, b.w + [x], Evict(b.w + [x], ef), visited);
    KnownGrow(sp, q, b.candidates, b.visited, x);
    assert AllReached(sp.graph, level, entry, visited);
  }

  /** One neighbour `n` of the expanded node `c`: mark it visited, and when
      it beats the (possibly stale) worst similarity or W is not full, add
      it to the frontier and to W, dropping W's worst when W exceeds ef. */
  method Visit(sp: Space, cache: Cache, q: Vector, level: int, entry: int, entrySim: real, ef: int,
               b: Beam, c: int, n: int, worstSim: real)
    returns (r: Result<Beam>, worstSim': real, cache': Cache)
    requires Coherent(sp, cache)
    requires BeamOk(sp, q, level, entry, entrySim, ef, b)
    requires c in b.visited && LinksAt(sp.graph, c, level).Ok? && n in LinksAt(sp.graph, c, level).value
    ensures Coherent(sp, cache')
    ensures r.Err? ==> r.error.Lookup()
    ensures r.Ok? ==> BeamOk(sp, q, level, entry, entrySim, ef, r.value)
    ensures r.Ok? ==> Pending(sp, r.value) <= Pending(sp, b) && b.visited <= r.value.visited
    ensures r.Ok? && n !in b.visited ==> n in r.value.visited
    ensures VectorAt(sp, n).Ok? ==> r.Ok?
  {
    worstSim', cache' := worstSim, cache;
    if n in b.visited {
      return Ok(b), worstSim', cache';
    }
    VisitShrinks(Linked(sp.graph), b.visited, n);
    ReachesStep(sp.graph, level, entry, c, n);
    var sim;
    sim, cache' :- Score(sp, cache', q, n);
    if sim > worstSim || |b.w| < ef {
      var x := Scored(n, sim);
      Admitted(sp, q, level, entry, entrySim, ef, b, x);
      var w := Evict(b.w + [x], ef);
      if |b.w + [x]| > ef {
        worstSim' := w[WorstAt(w)].score;
      }
      r := Ok(Beam(b.visited + {n}, b.candidates + [x], w));
    } else {
      Skipped(sp, q, level, entry, entrySim, ef, b, n);
      r := Ok(Beam(b.visited + {n}, b.candidates, b.w));
    }
  }

  /** Expand the node `c` taken from the frontier: visit its level links. */
  method Expand(sp: Space, cache: Cache, q: Vector, level: int, entry: int, entrySim: real, ef: int,
                b: Beam, c: int, worstSim: real)
    returns (r: Result<Beam>, cache': Cache)
    requires Coherent(sp, cache)
    requires BeamOk(sp, q, level, entry, entrySim, ef, b)
    requires c in b.visited
    ensures Coherent(sp, cache')
    ensures r.Err? ==> r.error.Lookup()
    ensures r.Ok? ==> BeamOk(sp, q, level, entry, entrySim, ef, r.value)
    ensures r.Ok? ==> Pending(sp, r.value) <= Pending(sp, b)
    ensures Closed(sp) && 0 <= c < |sp.graph.nodes| ==> r.Ok?
  {
    cache' := cache;
    var neighbors :- LinksAt(sp.graph, c, level);
    if Closed(sp) && 0 <= c < |sp.graph.nodes| {
      LinksNameNodes(sp.graph, c, level);
    }
    var beam, worst := b, worstSim;
    var i := 0;
    while i < |neighbors|
      invariant 0 <= i <= |neighbors|
      invariant Coherent(sp, cache')
      invariant BeamOk(sp, q, level, entry, entrySim, ef, beam)
      invariant c in beam.visited
      invariant Pending(sp, beam) <= Pending(sp, b)
    {
      beam, worst, cache' :- Visit(sp, cache', q, level, entry, entrySim, ef, beam, c, neighbors[i], worst);
      i := i + 1;
    }
    r := Ok(beam);
  }

  /** What `searchLayer` answers from `entry` on `level`: a non-empty list
      within max(ef, 1) (and max(k, 1) when a k is given), with distinct
      ids in order of similarity, each carrying its id's similarity and
      reached from `entry` along level links, headed by one at least as
      similar as `entry`. */
  ghost predicate LayerResult(sp: Space, q: Vector, entry: int, ef: int, level: int, k: Option<int>, out: seq<Scored>) {
    && ScoreOf(sp, q, entry).Ok?
    && 1 <= |out| <= Max(ef, 1)
    && (k.Some? ==> |out| <= Max(k.value, 1))
    && DistinctIds(out)
    && SortedDesc(out)
    && out[0].score >= ScoreOf(sp, q, entry).value
    && forall x :: x in out ==> ScoreOf(sp, q, x.id) == Ok(x.score) && Reaches(sp.graph, level, entry, x.id)
  }

  /** `searchLayer`: best-first search from `entry` over the links of
      `level`. W holds the nodes admitted to it: a neighbour is admitted
      when W has fewer than ef entries or it beats `worstSim`, and W's least
      similar entry is evicted whenever W exceeds ef. `worstSim` is read
      when a node is taken from the frontier and refreshed only after an
      eviction, so an admission without eviction leaves it stale and W need
      not hold the most similar nodes seen. The answer is W best first, cut
      to max(k, 1) entries when a k is given.

      Every node enters the frontier when it is first marked visited, and
      only then, which bounds the loop. The result is never empty, has
      distinct ids ordered by similarity, carries each id's similarity, only
      holds nodes reached from `entry` along level links, and its best is at
      least as similar as `entry`. */
  method SearchLayer(sp: Space, cache: Cache, q: Vector, entry: int, ef: int, level: int, k: Option<int>)
    returns (r: Result<seq<Scored>>, cache': Cache)
    requires Coherent(sp, cache)
    ensures Coherent(sp, cache')
    ensures r.Err? ==> r.error.Lookup()
    ensures ScoreOf(sp, q, entry).Err? ==> r.Err?
    ensures r.Ok? ==> LayerResult(sp, q, entry, ef, level, k, r.value)
    ensures Closed(sp) && 0 <= entry < |sp.graph.nodes| ==> r.Ok?
  {
    cache' := cache;
    var entrySim;
    entrySim, cache' :- Score(sp, cache', q, entry);
    ReachesSelf(sp.graph, level, entry);
    var beam := Beam({entry}, [Scored(entry, entrySim)], [Scored(entry, entrySim)]);
    while |beam.candidates| > 0
      invariant Coherent(sp, cache')
      invariant BeamOk(sp, q, level, entry, entrySim, ef, beam)
      decreases Pending(sp, beam)
    {
      var c := beam.candidates[BestAt(beam.candidates)];
      assert c in beam.candidates;
      RemoveAtElements(beam.candidates, BestAt(beam.candidates));
      beam := beam.(candidates := RemoveAt(beam.candidates, BestAt(beam.candidates)));
      var worstSim := beam.w[WorstAt(beam.w)].score;
      var scored;
      scored, cache' := Score(sp, cache', q, c.id);
      var cSim := scored.value;
      if cSim < worstSim && |beam.w| >= ef {
        break;
      }
      if Closed(sp) && 0 <= entry < |sp.graph.nodes| {
        ReachedInRange(sp.graph, level, entry, c.id);
      }
      beam, cache' :- Expand(sp, cache', q, level, entry, entrySim, ef, beam, c.id, worstSim);
    }
    r := Finish(sp, q, level, entry, entrySim, ef, beam, k);
  }

  /** `arsort($W)` and the copy loop that stops after k entries. */
  function Finish(sp: Space, q: Vector, level: int, entry: int, entrySim: real, ef: int, b: Beam, k: Option<int>)
    : (r: Result<seq<Scored>>)
    requires BeamOk(sp, q, level, entry, entrySim, ef, b)
    ensures r.Ok?
    ensures var out := r.value;
      && 1 <= |out| <= Max(ef, 1)
      && (k.Some? ==> |out| <= Max(k.value, 1))
      && DistinctIds(out)
      && SortedDesc(out)
      && out[0].score >= entrySim
      && forall x :: x in out ==> ScoreOf(sp, q, x.id) == Ok(x.score) && Reaches(sp.graph, level, entry, x.id)
  {
    FinishFacts(sp, q, level, entry, entrySim, ef, b, k);
    Ok(SortDesc(b.w)[..Limit(|b.w|, k)])
  }

  lemma {:induction false} FinishFacts(sp: Space, q: Vector, level: int, entry: int, entrySim: real, ef: int, b: Beam, k: Option<int>)
    requires BeamOk(sp, q, level, entry, entrySim, ef, b)
    ensures var out := SortDesc(b.w)[..Limit(|b.w|, k)];
      && 1 <= |out| <= Max(ef, 1)
      && (k.Some? ==> |out| <= Max(k.value, 1))
      && DistinctIds(out)
      && SortedDesc(out)
      && out[0].score >= entrySim
      && forall x :: x in out ==> ScoreOf(sp, q, x.id) == Ok(x.score) && Reaches(sp.graph, level, entry, x.id)
  {
    var out := SortDesc(b.w)[..Limit(|b.w|, k)];
    SortedPrefix(b.w, Limit(|b.w|, k));
    forall x | x in out
      ensures ScoreOf(sp, q, x.id) == Ok(x.score) && Reaches(sp.graph, level, entry, x.id)
    {
      assert x in b.w;
    }
  }

  /** A non-empty prefix of the sorted list: distinct ids, ordered, taken
      from the list, and headed by its best. */
  lemma {:induction false} SortedPrefix(w: seq<Scored>, m: nat)
    requires 1 <= m <= |w| && DistinctIds(w)
    ensures var out := SortDesc(w)[..m];
      && DistinctIds(out)
      && SortedDesc(out)
      && out[0].score >= Top(w)
      && forall x :: x in out ==> x in w
  {
    var sorted := SortDesc(w);
    var out := sorted[..m];
    SortDescSorted(w);
    SortDescDistinct(w);
    assert DistinctIds(out) by {
      forall i, j | 0 <= i < j < |out|
        ensures out[i].id != out[j].id
      {
        assert out[i] == sorted[i] && out[j] == sorted[j];
      }
    }
    assert SortedDesc(out) by {
      forall i, j | 0 <= i < j < |out|
        ensures out[i].score >= out[j].score
      {
        assert out[i] == sorted[i] && out[j] == sorted[j];
      }
    }
    SortDescHead(w);
    SortedPrefixFrom(w, m);
  }

  lemma {:induction false} SortedPrefixFrom(w: seq<Scored>, m: nat)
    requires m <= |w|
    ensures forall x :: x in SortDesc(w)[..m] ==> x in w
  {
    SortDescSameElements(w);
    forall x | x in SortDesc(w)[..m]
      ensures x in w
    {
      assert x in SortDesc(w);
    }
  }

  // ---------------------------------------------------------------------
  // The whole search

  /** The greedy descent from the top level of `start` down to level
      `down` + 1; it ends on a node at least as similar as `start`, which is
      `start` itself or a node some link names. */
  method Descend(sp: Space, cache: Cache, q: Vector, start: int, startSim: real, top: int, down: int)
    returns (r: Result<(int, real)>, cache': Cache)
    requires Coherent(sp, cache)
    requires ScoreOf(sp, q, start) == Ok(startSim)
    ensures Coherent(sp, cache')
    ensures r.Err? ==> r.error.Lookup()
    ensures r.Ok? ==> ScoreOf(sp, q, r.value.0) == Ok(r.value.1) && r.value.1 >= startSim
    ensures r.Ok? ==> r.value.0 == start || r.value.0 in Linked(sp.graph)
    ensures top <= down ==> r == Ok((start, startSim))
    ensures Closed(sp) && 0 <= start < |sp.graph.nodes| ==> r.Ok? && 0 <= r.value.0 < |sp.graph.nodes|
  {
    cache' := cache;
    var curr, currSim := start, startSim;
    var lc := top;
    while lc > down
      invariant Coherent(sp, cache')
      invariant ScoreOf(sp, q, curr) == Ok(currSim) && currSim >= startSim
      invariant top <= down ==> curr == start && currSim == startSim
      invariant curr == start || curr in Linked(sp.graph)
      invariant Closed(sp) && 0 <= start < |sp.graph.nodes| ==> 0 <= curr < |sp.graph.nodes|
    {
      var climbed;
      climbed, cache' :- Climb(sp, cache', q, curr, currSim, lc);
      if climbed.0 != curr {
        ReachedIsLinked(sp.graph, lc, curr, climbed.0);
      }
      curr, currSim := climbed.0, climbed.1;
      lc := lc - 1;
    }
    r := Ok((curr, currSim));
  }

  /** What a search answers: nothing for an empty graph (entry point -1);
      otherwise a non-empty list within max(k, 1) and max(ef, 1), with
      distinct ids in order of similarity, each carrying its id's
      similarity, and headed by one at least as similar as the entry point. */
  predicate Answer(sp: Space, q: Vector, k: int, ef: int, out: seq<Scored>) {
    var entry := sp.graph.header.entry;
    if entry == EMPTY_SLOT then out == []
    else
      && 1 <= |out| <= Min(Max(k, 1), Max(ef, 1))
      && DistinctIds(out)
      && SortedDesc(out)
      && ScoreOf(sp, q, entry).Ok?
      && out[0].score >= ScoreOf(sp, q, entry).value
      && forall x :: x in out ==> ScoreOf(sp, q, x.id) == Ok(x.score)
  }

  /** `search`: nothing for an empty graph; otherwise the greedy descent
      from the entry point's level to level 1, then the beam search of
      level 0 with ef, cut to k. It fails only when the entry point, a link
      or a vector is missing, so never in a closed space. */
  method Search(sp: Space, cache: Cache, q: Vector, k: int, ef: int) returns (r: Result<seq<Scored>>, cache': Cache)
    requires Coherent(sp, cache)
    ensures Coherent(sp, cache')
    ensures r.Err? ==> r.error.Lookup()
    ensures sp.graph.header.entry == EMPTY_SLOT ==> r == Ok([])
    ensures r.Ok? ==> Answer(sp, q, k, ef, r.value)
    ensures Closed(sp) ==> r.Ok?
  {
    cache' := cache;
    var entry := ReadHeader(sp.graph).entry;
    if entry == EMPTY_SLOT {
      return Ok([]), cache';
    }
    if entry < 0 {
      return Err(NodeNotFound(entry)), cache';
    }
    var node :- ReadNode(sp.graph, entry);
    var entrySim;
    entrySim, cache' :- Score(sp, cache', q, entry);
    var found;
    found, cache' :- Descend(sp, cache', q, entry, entrySim, node.maxLevel, 0);
    r, cache' := SearchLayer(sp, cache', q, found.0, ef, 0, Some(k));
  }
}

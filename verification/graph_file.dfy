/** graph.bin (src/Storage/Binary/GraphFile.php): an 8-byte header (entry
    point, total node count) followed by one 324-byte row per internal id. A
    row holds the node's maximum level as one byte and four blocks of link
    slots: 32 slots for level 0 and 16 for each of levels 1 to 3. An empty
    slot holds -1.

    The model keeps the header and the rows as values; a row the file never
    wrote (a hole left by seeking past the end) reads as all zero bytes. */
module GraphFile {
  import opened Types
  import opened ByteString
  import opened Config

  const EMPTY_SLOT: int := -1

  /** Number of link slots of each block, level 0 first. */
  const SLOTS: seq<nat> := [32, 16, 16, 16]

  datatype Header = Header(entry: int, total: int)

  /** A row as stored: the level byte and the four blocks of slots. */
  datatype RawNode = RawNode(maxLevel: Byte, blocks: seq<seq<int>>)

  datatype Graph = Graph(header: Header, nodes: seq<RawNode>)

  /** What `readNode` returns: the level and, per level, the links with the
      empty slots removed. */
  datatype Node = Node(maxLevel: nat, connections: seq<seq<int>>)

  /** Every row has the four blocks at their sizes. */
  predicate WellFormedNode(n: RawNode) {
    |n.blocks| == 4 && forall b :: 0 <= b < 4 ==> |n.blocks[b]| == SLOTS[b]
  }

  predicate WellFormed(g: Graph) {
    forall i :: 0 <= i < |g.nodes| ==> WellFormedNode(g.nodes[i])
  }

  /** The row `createNode` writes: every slot empty. */
  function EmptyBlocks(): (r: seq<seq<int>>)
    ensures |r| == 4 && forall b :: 0 <= b < 4 ==> |r[b]| == SLOTS[b]
    ensures forall b, s :: 0 <= b < 4 && 0 <= s < |r[b]| ==> r[b][s] == EMPTY_SLOT
  {
    seq(4, b requires 0 <= b < 4 => seq(SLOTS[b], _ => EMPTY_SLOT))
  }

  /** A row the file never wrote: all bytes zero, so level 0 and every slot 0. */
  function ZeroNode(): (r: RawNode)
    ensures WellFormedNode(r)
  {
    RawNode(0, seq(4, b requires 0 <= b < 4 => seq(SLOTS[b], _ => 0)))
  }

  // ---------------------------------------------------------------------
  // Byte layout

  /** Offset of a row's first byte. */
  function NodeOffset(id: nat): nat {
    GRAPH_HEADER_SIZE + id * GRAPH_NODE_SIZE
  }

  /** Bytes of a row that are actually written: the level byte and the slots. */
  function RowBytes(): nat {
    1 + INT_SIZE * (SLOTS[0] + SLOTS[1] + SLOTS[2] + SLOTS[3])
  }

  /** Offset of a level's block inside a row, as `updateLinks` computes it. */
  function BlockOffset(level: nat): nat {
    1 + (if level > 0 then 128 else 0) + (if level > 1 then 64 else 0) + (if level > 2 then 64 else 0)
  }

  /** Slots before block b. */
  function SlotsBefore(b: nat): nat
    requires b <= 4
  {
    if b == 0 then 0 else SlotsBefore(b - 1) + SLOTS[b - 1]
  }

  /** The offsets `updateLinks` uses are those of consecutive blocks of the
      sizes `createNode` writes, every level from 3 on sharing block 3; the
      blocks sizes are M0 then M; the written part of a row fits in the row,
      so rows do not overlap. */
  lemma {:induction false} RowLayout(level: nat)
    ensures BlockOffset(level) == 1 + INT_SIZE * SlotsBefore(Min(level, 3))
    ensures BlockOffset(level) + INT_SIZE * SLOTS[Min(level, 3)] <= RowBytes()
    ensures SLOTS[0] == M0 && SLOTS[1] == M && SLOTS[2] == M && SLOTS[3] == M
    ensures |SLOTS| == L
    ensures RowBytes() == 321 && RowBytes() <= GRAPH_NODE_SIZE
    ensures GRAPH_HEADER_SIZE == 2 * INT_SIZE
  {
  }

  /** Size of the file: the header, every row but the last in full, and the
      written part of the last one. */
  function FileSize(g: Graph): nat {
    if |g.nodes| == 0 then GRAPH_HEADER_SIZE
    else NodeOffset(|g.nodes| - 1) + RowBytes()
  }

  /** `readNode`'s end-of-file test is exactly "no row for this id". */
  lemma {:induction false} PastEndExact(g: Graph, id: nat)
    ensures NodeOffset(id) >= FileSize(g) <==> id >= |g.nodes|
  {
  }

  // ---------------------------------------------------------------------
  // Operations

  /** A new or empty file gets the header (-1, 0). */
  function New(): (g: Graph)
    ensures ReadHeader(g) == Header(EMPTY_SLOT, 0)
    ensures WellFormed(g)
    ensures forall id: nat :: ReadNode(g, id).Err?
  {
    Graph(Header(EMPTY_SLOT, 0), [])
  }

  function WriteHeader(g: Graph, entry: int, total: int): (r: Graph)
    ensures r.nodes == g.nodes
  {
    g.(header := Header(entry, total))
  }

  function ReadHeader(g: Graph): Header {
    g.header
  }

  /** `createNode`: write a new row at the node's offset (extending the file
      with zero rows when the offset lies past its end) and add one to the
      header's total; the level is stored as one byte. */
  function CreateNode(g: Graph, id: nat, maxLevel: int): (r: Graph)
    ensures |r.nodes| == if id < |g.nodes| then |g.nodes| else id + 1
    ensures r.header == Header(g.header.entry, g.header.total + 1)
    ensures WellFormed(g) ==> WellFormed(r)
  {
    var created := RawNode((maxLevel % 256) as Byte, EmptyBlocks());
    var nodes :=
      if id < |g.nodes| then g.nodes[id := created]
      else g.nodes + seq(id - |g.nodes|, _ => ZeroNode()) + [created];
    Graph(Header(g.header.entry, g.header.total + 1), nodes)
  }

  /** Which block a level writes, and how many slots it has. */
  function Block(level: nat): nat {
    Min(level, 3)
  }

  function Capacity(level: nat): (c: nat)
    ensures c == SLOTS[Block(level)]
  {
    if level == 0 then 32 else 16
  }

  /** `updateLinks`: overwrite one block of a row with the links, padded with
      -1 and cut to the block's capacity. A row past the end of the file is
      first filled with zeros. */
  function UpdateLinks(g: Graph, id: nat, level: nat, links: seq<int>): (r: Graph)
    ensures r.header == g.header
    ensures |r.nodes| == if id < |g.nodes| then |g.nodes| else id + 1
    ensures WellFormed(g) ==> WellFormed(r)
    ensures forall i :: 0 <= i < |g.nodes| ==> r.nodes[i].maxLevel == g.nodes[i].maxLevel
    ensures forall i :: 0 <= i < |g.nodes| && i != id ==> r.nodes[i] == g.nodes[i]
  {
    var nodes := if id < |g.nodes| then g.nodes else g.nodes + seq(id + 1 - |g.nodes|, _ => ZeroNode());
    var n := nodes[id];
    var b := Block(level);
    if |n.blocks| != 4 then Graph(g.header, nodes)
    else
      var written := RawNode(n.maxLevel, n.blocks[b := Fit(links, Capacity(level), EMPTY_SLOT)]);
      Graph(g.header, nodes[id := written])
  }

  /** The links of a block with the empty slots removed, in slot order. */
  function Clean(block: seq<int>): (r: seq<int>)
    ensures |r| <= |block|
    ensures forall x :: x in r <==> x in block && x != EMPTY_SLOT
  {
    if |block| == 0 then []
    else (if block[0] == EMPTY_SLOT then [] else [block[0]]) + Clean(block[1..])
  }

  /** `readNode`: fail past the end of the file, otherwise the level and the
      four cleaned blocks. */
  function ReadNode(g: Graph, id: nat): (r: Result<Node>)
    ensures r.Err? <==> id >= |g.nodes|
    ensures r.Err? ==> r.error == NodeNotFound(id)
    ensures r.Ok? && WellFormedNode(g.nodes[id]) ==>
      |r.value.connections| == 4 && forall b :: 0 <= b < 4 ==> |r.value.connections[b]| <= SLOTS[b]
  {
    PastEndExact(g, id);
    if NodeOffset(id) >= FileSize(g) then Err(NodeNotFound(id))
    else
      var n := g.nodes[id];
      Ok(Node(n.maxLevel as nat, seq(|n.blocks|, b requires 0 <= b < |n.blocks| => Clean(n.blocks[b]))))
  }

  /** `$node['connections'][$lc] ?? []`: a level the node has no block for
      has no neighbours. */
  function Neighbors(node: Node, lc: int): (r: seq<int>)
    ensures 0 <= lc < |node.connections| ==> r == node.connections[lc]
    ensures !(0 <= lc < |node.connections|) ==> r == []
  {
    if 0 <= lc < |node.connections| then node.connections[lc] else []
  }

  // ---------------------------------------------------------------------
  // Properties

  /** Clean of a list without -1 is the list itself. */
  lemma {:induction false} CleanKeeps(block: seq<int>)
    requires EMPTY_SLOT !in block
    ensures Clean(block) == block
  {
    if |block| > 0 {
      CleanKeeps(block[1..]);
      assert block == [block[0]] + block[1..];
    }
  }

  /** Clean removes the padding Fit adds. */
  lemma {:induction false} CleanPadding(links: seq<int>, n: nat)
    requires |links| <= n
    ensures Clean(Fit(links, n, EMPTY_SLOT)) == Clean(links)
  {
    if |links| == 0 {
      CleanAllEmpty(Fit(links, n, EMPTY_SLOT));
    } else {
      var f := Fit(links, n, EMPTY_SLOT);
      assert f[1..] == Fit(links[1..], n - 1, EMPTY_SLOT);
      CleanPadding(links[1..], n - 1);
    }
  }

  lemma {:induction false} CleanAllEmpty(block: seq<int>)
    requires forall i :: 0 <= i < |block| ==> block[i] == EMPTY_SLOT
    ensures Clean(block) == []
  {
    if |block| > 0 {
      CleanAllEmpty(block[1..]);
    }
  }

  /** A created node reads back with the level byte and no links at any level. */
  lemma {:induction false} CreateThenRead(g: Graph, id: nat, maxLevel: int)
    ensures ReadNode(CreateNode(g, id, maxLevel), id) == Ok(Node(maxLevel % 256, [[], [], [], []]))
  {
    var r := CreateNode(g, id, maxLevel);
    var blocks := EmptyBlocks();
    assert r.nodes[id] == RawNode((maxLevel % 256) as Byte, blocks);
    forall b | 0 <= b < 4
      ensures Clean(blocks[b]) == []
    {
      CleanAllEmpty(blocks[b]);
    }
    var cs := seq(4, b requires 0 <= b < 4 => Clean(blocks[b]));
    assert cs == [[], [], [], []];
    PastEndExact(r, id);
    assert r.nodes[id].blocks == blocks;
    assert seq(|blocks|, b requires 0 <= b < |blocks| => Clean(blocks[b])) == cs;
    assert r.nodes[id].maxLevel as nat == maxLevel % 256;
    assert ReadNode(r, id).Ok?;
    assert ReadNode(r, id).value.maxLevel == maxLevel % 256;
    assert ReadNode(r, id).value.connections == cs;
  }

  /** A level below 256 is stored as is. */
  lemma {:induction false} CreatedLevel(g: Graph, id: nat, level: nat)
    requires level < 256
    ensures id < |CreateNode(g, id, level).nodes|
    ensures CreateNode(g, id, level).nodes[id].maxLevel as nat == level
  {
    assert level % 256 == level;
  }

  /** Any row of the file reads back with its level byte. */
  lemma {:induction false} ReadLevel(g: Graph, id: nat)
    requires id < |g.nodes|
    ensures ReadNode(g, id).Ok? && ReadNode(g, id).value.maxLevel == g.nodes[id].maxLevel as nat
  {
  }

  /** Creating a node leaves every other existing row as it reads; the rows
      of the hole it leaves read as level 0 with links to node 0. */
  lemma {:induction false} CreateKeepsOthers(g: Graph, id: nat, maxLevel: int, other: nat)
    requires other != id
    ensures other < |g.nodes| ==> ReadNode(CreateNode(g, id, maxLevel), other) == ReadNode(g, other)
    ensures |g.nodes| <= other < id ==>
      ReadNode(CreateNode(g, id, maxLevel), other).Ok? &&
      ReadNode(CreateNode(g, id, maxLevel), other).value.maxLevel == 0
  {
    var r := CreateNode(g, id, maxLevel);
    if other < |g.nodes| {
      assert r.nodes[other] == g.nodes[other];
    }
  }

  /** Writing a block and reading the node gives the links (as many as fit)
      at that level, and leaves the level byte and the other blocks alone. */
  lemma {:induction false} UpdateThenRead(g: Graph, id: nat, level: nat, links: seq<int>)
    requires WellFormed(g) && id < |g.nodes|
    requires EMPTY_SLOT !in links
    ensures var before := ReadNode(g, id).value;
      var after := ReadNode(UpdateLinks(g, id, level, links), id);
      && after.Ok?
      && after.value.maxLevel == before.maxLevel
      && after.value.connections[Block(level)] == links[..Min(|links|, Capacity(level))]
      && forall b :: 0 <= b < 4 && b != Block(level) ==> after.value.connections[b] == before.connections[b]
  {
    var cap := Capacity(level);
    var kept := links[..Min(|links|, cap)];
    assert Fit(links, cap, EMPTY_SLOT) == Fit(kept, cap, EMPTY_SLOT);
    CleanPadding(kept, cap);
    assert EMPTY_SLOT !in kept by {
      assert forall x :: x in kept ==> x in links;
    }
    CleanKeeps(kept);
  }

  /** Writing a block changes no other row. */
  lemma {:induction false} UpdateKeepsOthers(g: Graph, id: nat, level: nat, links: seq<int>, other: nat)
    requires other != id && other < |g.nodes|
    ensures ReadNode(UpdateLinks(g, id, level, links), other) == ReadNode(g, other)
  {
    var r := UpdateLinks(g, id, level, links);
    assert r.nodes[other] == g.nodes[other];
  }

  // ---------------------------------------------------------------------
  // Links that name nodes

  /** A slot is empty or holds one of the ids 0 .. n - 1. */
  predicate SlotIn(x: int, n: int) {
    x == EMPTY_SLOT || 0 <= x < n
  }

  predicate NodeLinksIn(node: RawNode, n: int) {
    forall b, s :: 0 <= b < |node.blocks| && 0 <= s < |node.blocks[b]| ==> SlotIn(node.blocks[b][s], n)
  }

  /** Every slot of every row is empty or names one of the first n nodes. */
  predicate LinksIn(g: Graph, n: int) {
    forall i :: 0 <= i < |g.nodes| ==> NodeLinksIn(g.nodes[i], n)
  }

  /** The entry point is -1 or a node of the graph. */
  predicate EntryIn(g: Graph) {
    g.header.entry == EMPTY_SLOT || 0 <= g.header.entry < |g.nodes|
  }

  /** Creating node `id` of a graph of at most id + 1 rows whose links name
      its rows gives id + 1 rows whose links name rows: the new row is all
      empty slots and a hole row links to node 0. */
  lemma {:induction false} CreateKeepsLinksIn(g: Graph, id: nat, maxLevel: int)
    requires LinksIn(g, |g.nodes|) && |g.nodes| <= id + 1
    ensures |CreateNode(g, id, maxLevel).nodes| == id + 1
    ensures LinksIn(CreateNode(g, id, maxLevel), id + 1)
  {
    var r := CreateNode(g, id, maxLevel);
    forall i | 0 <= i < |r.nodes|
      ensures NodeLinksIn(r.nodes[i], id + 1)
    {
      if i == id {
        assert r.nodes[i].blocks == EmptyBlocks();
      } else if i < |g.nodes| {
        assert r.nodes[i] == g.nodes[i];
        assert NodeLinksIn(g.nodes[i], |g.nodes|);
      } else {
        assert r.nodes[i] == ZeroNode();
      }
    }
  }

  /** Writing links that name rows keeps every link naming a row. */
  lemma {:induction false} UpdateKeepsLinksIn(g: Graph, id: nat, level: nat, links: seq<int>, n: int)
    requires LinksIn(g, n) && id < |g.nodes|
    requires forall x :: x in links ==> SlotIn(x, n)
    ensures LinksIn(UpdateLinks(g, id, level, links), n)
  {
    var r := UpdateLinks(g, id, level, links);
    var node := g.nodes[id];
    if |node.blocks| == 4 {
      var b := Block(level);
      var block := Fit(links, Capacity(level), EMPTY_SLOT);
      assert r.nodes[id] == RawNode(node.maxLevel, node.blocks[b := block]);
      forall s | 0 <= s < |block|
        ensures SlotIn(block[s], n)
      {
        if s < |links| {
          assert block[s] in links;
        }
      }
      assert NodeLinksIn(g.nodes[id], n);
    }
  }

  /** No row holds x in block b: nothing links to x on that level. */
  predicate Unlinked(g: Graph, x: int, b: int) {
    forall i, s :: 0 <= i < |g.nodes| && 0 <= b < |g.nodes[i].blocks| && 0 <= s < |g.nodes[i].blocks[b]| ==>
      g.nodes[i].blocks[b][s] != x
  }

  /** Two graphs with the same rows, equal in block b of every row. */
  predicate SameBlock(g: Graph, h: Graph, b: int) {
    && |h.nodes| == |g.nodes|
    && forall i :: 0 <= i < |g.nodes| ==>
         |h.nodes[i].blocks| == |g.nodes[i].blocks|
         && (0 <= b < |g.nodes[i].blocks| ==> h.nodes[i].blocks[b] == g.nodes[i].blocks[b])
  }

  /** A node created one past every row of a graph whose links name its
      rows is linked from nowhere: old slots name smaller ids, the new row
      is empty and a hole row names node 0, which is not the new id. */
  lemma {:induction false} CreateUnlinked(g: Graph, id: nat, maxLevel: int, b: int)
    requires LinksIn(g, |g.nodes|) && |g.nodes| <= id
    ensures Unlinked(CreateNode(g, id, maxLevel), id, b)
  {
    var r := CreateNode(g, id, maxLevel);
    forall i, s | 0 <= i < |r.nodes| && 0 <= b < |r.nodes[i].blocks| && 0 <= s < |r.nodes[i].blocks[b]|
      ensures r.nodes[i].blocks[b][s] != id
    {
      if i == id {
        assert r.nodes[i].blocks == EmptyBlocks();
      } else if i < |g.nodes| {
        assert r.nodes[i] == g.nodes[i];
        assert NodeLinksIn(g.nodes[i], |g.nodes|);
      } else {
        assert r.nodes[i] == ZeroNode();
      }
    }
  }

  /** Writing the block of one level leaves every other block as it was. */
  lemma {:induction false} UpdateKeepsBlock(g: Graph, id: nat, level: nat, links: seq<int>)
    requires id < |g.nodes|
    ensures forall b :: b != Block(level) ==> SameBlock(g, UpdateLinks(g, id, level, links), b)
  {
  }

  /** Equal blocks read as equal neighbour lists. */
  lemma {:induction false} SameBlockReads(g: Graph, h: Graph, b: int, x: nat)
    requires SameBlock(g, h, b) && x < |g.nodes|
    ensures ReadNode(h, x).Ok? && Neighbors(ReadNode(h, x).value, b) == Neighbors(ReadNode(g, x).value, b)
  {
  }

  lemma {:induction false} SameBlockUnlinked(g: Graph, h: Graph, b: int, x: int)
    requires SameBlock(g, h, b)
    ensures Unlinked(g, x, b) ==> Unlinked(h, x, b)
  {
    if Unlinked(g, x, b) {
      forall i, s | 0 <= i < |h.nodes| && 0 <= b < |h.nodes[i].blocks| && 0 <= s < |h.nodes[i].blocks[b]|
        ensures h.nodes[i].blocks[b][s] != x
      {
        assert h.nodes[i].blocks[b] == g.nodes[i].blocks[b];
      }
    }
  }

  lemma {:induction false} SameBlockTrans(g: Graph, h: Graph, k: Graph, b: int)
    requires SameBlock(g, h, b) && SameBlock(h, k, b)
    ensures SameBlock(g, k, b)
  {
  }

  lemma {:induction false} WriteThenReadHeader(g: Graph, entry: int, total: int)
    ensures ReadHeader(WriteHeader(g, entry, total)) == Header(entry, total)
    ensures forall id: nat :: ReadNode(WriteHeader(g, entry, total), id) == ReadNode(g, id)
  {
  }
}

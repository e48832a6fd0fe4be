# vektor HNSW engine — a Dafny model

vektor is a file-backed vector search engine written in PHP. It keeps four
binary files and runs the HNSW (hierarchical navigable small world)
approximate nearest-neighbour algorithm over them:

- `vector.bin` holds fixed 6181-byte rows: a flag byte (0 active, 1
  deleted), a NUL-padded 36-byte external id, and 1536 single-precision
  floats.
- `graph.bin` holds an 8-byte header (entry point, node count) and one
  324-byte row per node: its level byte and four blocks of link slots (32
  for level 0, 16 each for levels 1 to 3, -1 for an empty slot).
- `meta.bin` is an unbalanced binary search tree keyed by `strcmp`. It maps
  each external id to an internal row number, or to -1 once the id is
  deleted.
- `payload.bin` is an append-only file of JSON documents addressed by
  (offset, length).

The `Indexer` inserts: it checks for a duplicate, appends the vector, writes
the mapping, draws a level, creates the graph node, descends greedily, links
the node both ways with pruning, and moves the entry point. A delete is soft.
The `Searcher` oversamples the HNSW search and drops deleted rows while it
hydrates the results. The `Optimizer` rebuilds all stores from the live
rows. `Config` holds the layout constants and the `.env` parser for the API
token.

## How the model is built

- **Files as values.**
  - The vector and payload files are byte sequences (`seq<Byte>`). Reads
    past the end are short, exactly as `fread` is, so a truncated last row
    decodes as PHP would decode it.
  - The graph file is a header plus a sequence of raw rows.
  - The meta file is a sequence of tree rows.
  - Every store operation is a pure function from the old file to the new
    one.
- **Reads that can fail.** They return `Result`. The thrown exceptions
  become `Error` values: a missing graph node, a vector read that gives
  null, a duplicate id, a bad append. A method that fails part-way returns
  the stores as they are after the writes it made before failing.
- **Similarity.** Cosine similarity is a parameter `sim: (Vector, Vector)
  -> real`. Vector elements are the four stored bytes of each float and are
  never interpreted.
- **The cache.** The per-`HnswLogic` vector cache is a map threaded through
  the searches. `Coherent` says each entry is what `readVectorOnly` gives.
- **Randomness.** The draws of `getRandomLevel` are a `seq<bool>` parameter,
  one coin per draw below 0.5.
- **The `.env` file.** It is a parameter: the file's lines, or None when the
  file is absent.
- **Termination.** The greedy descent ends because each move strictly
  raises the similarity: it is measured by the set of linked ids above the
  current similarity. `searchLayer` ends because a node joins the frontier
  only when it is first visited.

Where the system's written description and its code disagree, the model
follows the code:

- `readVectorOnly` ignores the delete flag. Only `read` hides deleted rows.
- `append` checks the id length before the dimension.
- Meta rows have no payload fields, and there is no `findEntry`.
- Only `append` detects a misaligned vector file.
- The vector cache lives as long as its `HnswLogic` object. For the
  optimizer's target indexer that is the whole rebuild, so the model keeps
  one cache across every insert of a run. `HnswLogic.AppendKeepsCoherent`
  and `HnswLogic.DeleteKeepsCoherent` show this is sound.
- `Searcher::search` tests the count after each result, so with k < 1 it
  still looks at the first result and can return one hit.

## Model

| member | source | states |
|---|---|---|
| Config.VectorRowLayout | src/Core/Config.php:8-18 | a vector row is flag + 36-byte id + data, and the data is 4 bytes per dimension |
| Config.MetaRowLayout | src/Core/Config.php:30-32 | a meta row is the 36-byte key plus three 4-byte ints; the value and link offsets 36, 40 and 44 do not overlap and end inside the 48-byte row |
| GraphFile.RowLayout | src/Storage/Binary/GraphFile.php:89-98 | `updateLinks` offsets are those of consecutive blocks of 32, 16, 16 and 16 slots (M0 then M, L blocks); the 321 written bytes fit in the 324-byte row, so rows never overlap |
| Config.GetApiToken | src/Core/Config.php:37-60 | null when the file is absent, otherwise the token of the first line that sets one |
| Config.FirstTokenIsFirstMatch | src/Core/Config.php:45-56 | the result is v iff some line sets v and no earlier line sets anything |
| Config.NoTokenLineGivesNone | src/Core/Config.php:44-59 | the result is null iff no line sets a token |
| Config.CommentLineIgnored | src/Core/Config.php:46-48 | inserting a line whose trimmed text starts with '#' anywhere changes nothing |
| Config.LineWithoutEqualsIgnored | src/Core/Config.php:49-50 | inserting a line without '=' anywhere changes nothing |
| Config.AssignmentLine | src/Core/Config.php:49-55 | `VEKTOR_API_TOKEN=rest` sets the token to rest trimmed of blanks, then of quotes |
| Config.PlainTokenLine | src/Core/Config.php:51-55 | a single `VEKTOR_API_TOKEN=v` line yields v when v has no blanks or quotes at its ends |
| Config.QuotedTokenLine | src/Core/Config.php:53-55 | `VEKTOR_API_TOKEN="v"` yields v without the quotes |
| Config.StripQuotes | src/Core/Config.php:52-55 | a double-quoted value trimmed of blanks and then of quotes loses exactly its two quotes |
| ByteString.Compare | src/Storage/Binary/MetaFile.php:51 | the sign of `strcmp` is 0 exactly for equal strings |
| ByteString.CompareAntisymmetric | src/Storage/Binary/MetaFile.php:51-58 | swapping the arguments of `strcmp` flips its sign |
| ByteString.LessTransitive | src/Storage/Binary/MetaFile.php:51-58 | `strcmp` order is transitive |
| ByteString.Trichotomy | src/Storage/Binary/MetaFile.php:51-58 | exactly one of a < b, a = b, b < a |
| ByteString.PadThenTrim | src/Storage/Binary/VectorFile.php:47-101 | padding an id of at most 36 bytes with no trailing NUL and trimming the NULs gives it back |
| ByteString.TrimThenPad | src/Storage/Binary/VectorFile.php:47-101 | trimming a full 36-byte field and padding it again restores the field |
| ByteString.StoredField | src/Storage/Binary/VectorFile.php:47-101 | what a field gives back always fits the field, and is the id itself when the id fits |
| ByteString.RTrimNul | src/Storage/Binary/VectorFile.php:101 | the result is a prefix with no trailing NUL, and only NULs were removed |
| ByteString.Trim | src/Core/Config.php:46-52 | the result neither starts nor ends with a stripped byte; it occurs inside the input, and every byte before and after that occurrence is one of the stripped bytes |
| ByteString.IndexOf | src/Core/Config.php:49 | the position of the first '=', or none iff there is no '=' |
| VectorFile.Append | src/Storage/Binary/VectorFile.php:41-75 | IdTooLong iff the id exceeds 36 bytes; otherwise DimensionMismatch iff the length is not 1536; otherwise Corrupted iff the file is misaligned; so it succeeds exactly when the id fits, the vector has 1536 elements and the file is aligned; on success one row is appended, the old bytes are kept, and the id is the old row count |
| VectorFile.Read | src/Storage/Binary/VectorFile.php:83-111 | a record iff the row starts inside the file and its flag is active; its id fits the 36-byte field |
| VectorFile.ReadVectorOnly | src/Storage/Binary/VectorFile.php:116-128 | a vector iff the vector part starts inside the file, whatever the flag |
| VectorFile.Delete | src/Storage/Binary/VectorFile.php:134-146 | only the flag byte of that row changes, to deleted; past the end nothing changes |
| VectorFile.RowInside | src/Storage/Binary/VectorFile.php:58-61 | in an aligned file a row that starts inside the file ends inside it |
| VectorFile.DecodeEncode | src/Storage/Binary/VectorFile.php:70-105 | unpacking the packed floats gives them back |
| VectorFile.EncodeDecode | src/Storage/Binary/VectorFile.php:70-105 | packing the unpacked bytes of whole floats gives the bytes back |
| VectorFile.AppendThenRead | src/Storage/Binary/VectorFile.php:63-110 | the appended row reads back active, with the id as stored (the id itself when it fits) and the vector |
| VectorFile.AppendKeepsOthers | src/Storage/Binary/VectorFile.php:53-74 | an append leaves every other row as `read` and `readVectorOnly` see it |
| VectorFile.DeleteThenRead | src/Storage/Binary/VectorFile.php:134-146 | a deleted row reads as null |
| VectorFile.DeleteKeepsOthers | src/Storage/Binary/VectorFile.php:134-146 | a delete leaves every other row readable as before and every vector, its own included, as `readVectorOnly` sees it |
| VectorFile.DeleteIdempotent | src/Storage/Binary/VectorFile.php:134-146 | deleting twice is deleting once |
| VectorFile.ReadVectorOnlyAgrees | src/Storage/Binary/VectorFile.php:116-128 | in an aligned file, `readVectorOnly` of a readable row is its vector |
| VectorFile.AlignedRowsAreFull | src/Storage/Binary/VectorFile.php:116-128 | in an aligned file every row's vector has 1536 elements |
| VectorFile.ActiveIdsFromMembers | src/Storage/Binary/VectorFile.php:157-173 | the ids the scan reports from a row on are exactly the readable rows from there |
| VectorFile.ActiveIdsFromSorted | src/Storage/Binary/VectorFile.php:157-173 | the scan reports them in increasing order, each once |
| VectorFile.ActiveIdsExact | src/Storage/Binary/VectorFile.php:152-175 | the ids of the whole scan are exactly the readable rows, strictly increasing |
| VectorFile.Scanned | src/Storage/Binary/VectorFile.php:152-175 | the k-th record yielded is what `read` gives for the k-th readable row, and its id fits the field |
| VectorFile.Scan | src/Storage/Binary/VectorFile.php:152-175 | the row-by-row loop yields exactly `Scanned`: the active rows in file order |
| GraphFile.New | src/Storage/Binary/GraphFile.php:26-28 | a new graph has header (-1, 0) and no node |
| GraphFile.WriteThenReadHeader | src/Storage/Binary/GraphFile.php:38-51 | `readHeader` gives the pair last written, and the rows are untouched |
| GraphFile.CreateNode | src/Storage/Binary/GraphFile.php:59-87 | the graph gets a row for the id (filling any hole), the total rises by one, the entry point is kept |
| GraphFile.CreateThenRead | src/Storage/Binary/GraphFile.php:59-87 | the new node reads with the level (as a byte) and four empty lists |
| GraphFile.CreateKeepsOthers | src/Storage/Binary/GraphFile.php:61-81 | other existing rows read as before; rows of a hole read as level 0 |
| GraphFile.CreateKeepsLinksIn | src/Storage/Binary/GraphFile.php:59-87 | creating the next node (or one past the end) keeps every stored link naming an existing node |
| GraphFile.CreateUnlinked | src/Storage/Binary/GraphFile.php:59-87 | a node created past every row of a graph whose links name its rows is held by no slot: its own row is all -1 and hole rows name node 0 |
| GraphFile.UpdateLinks | src/Storage/Binary/GraphFile.php:89-107 | header, every level byte and every other row are kept |
| GraphFile.UpdateThenRead | src/Storage/Binary/GraphFile.php:89-107 | with no -1 among the links, the level's list reads as the first cap(level) links; the level byte and the other lists are kept |
| GraphFile.UpdateKeepsOthers | src/Storage/Binary/GraphFile.php:89-107 | other rows read as before |
| GraphFile.UpdateKeepsBlock | src/Storage/Binary/GraphFile.php:89-107 | writing one level's links leaves every other block of every row as it was |
| GraphFile.UpdateKeepsLinksIn | src/Storage/Binary/GraphFile.php:89-107 | writing links that all name existing nodes keeps every stored link naming an existing node |
| GraphFile.Capacity | src/Storage/Binary/GraphFile.php:93 | 32 slots at level 0, 16 above |
| GraphFile.Clean | src/Storage/Binary/GraphFile.php:130-132 | keeps exactly the non-(-1) slots |
| GraphFile.CleanPadding | src/Storage/Binary/GraphFile.php:100-102 | the -1 padding `updateLinks` adds is removed again on read |
| GraphFile.ReadNode | src/Storage/Binary/GraphFile.php:113-143 | fails with not-found iff there is no row; otherwise four lists, each within its block's capacity |
| GraphFile.PastEndExact | src/Storage/Binary/GraphFile.php:115-119 | the end-of-file test 8 + 324·id ≥ size holds exactly when the id has no row |
| GraphFile.Neighbors | src/Core/HnswLogic.php:57 | a level without a block has no neighbours |
| MetaFile.StoredKey | src/Storage/Binary/MetaFile.php:74-97 | a key of at most 36 bytes with no trailing NUL reads back as itself |
| MetaFile.Descend | src/Storage/Binary/MetaFile.php:42-60 | the descent ends at a row holding the key, or at an empty child slot on the side `strcmp` picks |
| MetaFile.Find | src/Storage/Binary/MetaFile.php:33-63 | null on an empty file; a value only from a row holding the key |
| MetaFile.UpdateLink | src/Storage/Binary/MetaFile.php:160-167 | only the one link of the one row changes |
| MetaFile.Insert | src/Storage/Binary/MetaFile.php:71-119 | the new row is appended at the old row count; keys and values of old rows are kept; the tree stays well formed |
| MetaFile.Update | src/Storage/Binary/MetaFile.php:128-158 | reports true iff `find` sees the key; keys and links are untouched and only values can change |
| MetaFile.InsertThenFind | src/Storage/Binary/MetaFile.php:71-119 | after inserting an absent key, `find` gives its value, exactly when the key survives the 36-byte field |
| MetaFile.InsertKeepsOthers | src/Storage/Binary/MetaFile.php:71-119 | `find` of every other key is unchanged |
| MetaFile.InsertExisting | src/Storage/Binary/MetaFile.php:99-102 | inserting a present key appends an unlinked row and no `find` changes |
| MetaFile.InsertLinksOneSlot | src/Storage/Binary/MetaFile.php:79-116 | the new row is hung in exactly one previously empty slot; every other link is kept |
| MetaFile.UpdateThenFind | src/Storage/Binary/MetaFile.php:128-158 | when the key is present `find` then gives the new value; other keys are unchanged |
| MetaFile.InsertOrderedFrom | src/Storage/Binary/MetaFile.php:93-118 | inserting below an ordered subtree keeps it ordered within its bounds |
| MetaFile.InsertKeepsOrder | src/Storage/Binary/MetaFile.php:82-118 | for a key that reads back unchanged from the 36-byte field, insert keeps the whole tree ordered under `strcmp`, and row 0 stays the root |
| MetaFile.InsertIncreasingKeepsChain | src/Storage/Binary/MetaFile.php:111-116 | keys that read back unchanged, inserted in increasing order, form a chain of right children |
| MetaFile.NulKeyBreaksOrder | src/Storage/Binary/MetaFile.php:71-118 | a key ending in NUL is compared untrimmed but stored trimmed, so inserting `a\0` under a root `a` leaves two rows keyed `a` and the tree is no longer strictly ordered |
| PayloadFile.Append | src/Storage/Binary/PayloadFile.php:38-53 | fails iff encoding fails; otherwise the locator is (old size, encoded length) and the file grows by exactly the encoded bytes |
| PayloadFile.Read | src/Storage/Binary/PayloadFile.php:62-85 | null for a negative offset, a non-positive length or a range past the end; otherwise the decoded range, and a decode failure is an error |
| PayloadFile.AppendThenRead | src/Storage/Binary/PayloadFile.php:73-84 | reading a fresh locator decodes exactly the appended bytes, and gives the metadata back when decoding undoes encoding |
| PayloadFile.AppendKeepsEarlier | src/Storage/Binary/PayloadFile.php:45-50 | every read inside the old file gives what it gave before |
| PayloadFile.AppendsAreContiguous | src/Storage/Binary/PayloadFile.php:45-52 | successive appends get adjacent, non-overlapping ranges |
| HnswLogic.VectorAt | src/Core/HnswLogic.php:21-27 | a vector iff `readVectorOnly` gives one; otherwise a missing-vector error |
| HnswLogic.GetVector | src/Core/HnswLogic.php:21-27 | the cache is transparent: the answer is always `readVectorOnly`'s; entries are only added |
| HnswLogic.Score | src/Core/HnswLogic.php:51 | the similarity through the cache equals the similarity of the stored vector |
| HnswLogic.LinksAt | src/Core/HnswLogic.php:56-57 | not-found iff the node has no row; the links hold no -1 |
| HnswLogic.AppendKeepsCoherent | src/Core/HnswLogic.php:13-27 | an append keeps every cached vector valid |
| HnswLogic.DeleteKeepsCoherent | src/Core/HnswLogic.php:13-27 | a delete keeps every cached vector valid |
| HnswLogic.AboveShrinks | src/Core/HnswLogic.php:61-64 | a strict improvement shrinks the set of better linked nodes, which bounds the descent |
| HnswLogic.Sweep | src/Core/HnswLogic.php:55-66 | after one pass no neighbour beats the result; it moved iff it improved strictly, to a neighbour; it never fails when every neighbour has a vector |
| HnswLogic.Climb | src/Core/HnswLogic.php:54-68 | the climb ends at a node reached along level links, at least as similar as the start, with no better neighbour; in a closed space from an existing node it never fails |
| HnswLogic.Descend | src/Core/HnswLogic.php:53-69 | the similarity never drops across the levels; with no level to descend the start is kept; it ends at the start or at a node some link names; in a closed space from an existing node it never fails and ends at an existing node |
| HnswLogic.Skipped | src/Core/HnswLogic.php:113-114 | marking a reachable node visited keeps the beam invariant |
| HnswLogic.Admitted | src/Core/HnswLogic.php:117-128 | admitting a new node to frontier and W, then evicting W's worst over ef, keeps the beam invariant |
| HnswLogic.Visit | src/Core/HnswLogic.php:112-130 | one neighbour step keeps the invariant, never re-enters a visited node and marks the neighbour visited; it never fails when the neighbour has a vector |
| HnswLogic.Expand | src/Core/HnswLogic.php:109-131 | expanding a node keeps the invariant and never grows the unvisited measure; in a closed space it never fails on an existing node |
| HnswLogic.SearchLayer | src/Core/HnswLogic.php:85-144 | terminates; the result (`LayerResult`) is non-empty, within max(ef, 1) and max(k, 1), has distinct ids, is ordered best first, carries true similarities, holds only nodes reachable on the level, and starts at least as good as the entry; in a closed space from an existing node it never fails |
| HnswLogic.ReachedInRange | src/Core/HnswLogic.php:109-114 | in a space whose links name nodes, every node reached along level links from an existing node exists |
| HnswLogic.ReachedIsLinked | src/Core/HnswLogic.php:109-114 | a node reached from another one along a level's links is held by a slot of that level |
| HnswLogic.UnlinkedNotLinked | src/Core/HnswLogic.php:109-114 | a node no block holds is named by no link |
| HnswLogic.Finish | src/Core/HnswLogic.php:135-143 | the sorted, cut W keeps all those properties |
| HnswLogic.SortedPrefix | src/Core/HnswLogic.php:135-143 | a non-empty prefix of the sorted W has distinct ids, is ordered, comes from W and starts with W's best |
| HnswLogic.Search | src/Core/HnswLogic.php:37-73 | an empty graph gives no results; otherwise a non-empty list within max(k, 1) and max(ef, 1), with distinct ids, best first, each with its true similarity, the first at least as good as the entry point; in a closed space (links and entry name nodes, every node has a vector) it never fails |
| Ranking.SortDesc | src/Core/HnswLogic.php:135 | the sort is a permutation |
| Ranking.SortDescSorted | src/Core/HnswLogic.php:135 | the sort is ordered best first |
| Ranking.SortDescDistinct | src/Core/HnswLogic.php:135 | the sort keeps ids distinct |
| Ranking.SortDescSameElements | src/Core/HnswLogic.php:135 | the sort adds and drops nothing |
| Ranking.SortDescHead | src/Core/HnswLogic.php:135 | the sort's first element has the best score |
| Ranking.BestAt | src/Core/HnswLogic.php:96 | the frontier hands out an element of maximal similarity |
| Ranking.WorstAt | src/Core/HnswLogic.php:99-100 | `asort` then `array_key_first` picks the first element of minimal similarity |
| Ranking.RemoveAtElements | src/Core/HnswLogic.php:123-124 | removing one element keeps the others and adds none |
| Ranking.TopAppend | src/Core/HnswLogic.php:119 | adding to W never lowers its best |
| Ranking.TopDropWorst | src/Core/HnswLogic.php:121-127 | evicting W's worst never lowers its best |
| Ranking.Evict | src/Core/HnswLogic.php:121-128 | W loses one element exactly when it exceeds ef, stays non-empty, keeps distinct ids and its best |
| Ranking.Limit | src/Core/HnswLogic.php:136-142 | the copy loop keeps every element without k, and min(n, max(k, 1)) with k |
| Ranking.Dedup | src/Services/Indexer.php:134-138 | keying by link id keeps each id once and loses none |
| Ranking.TopIdsBest | src/Services/Indexer.php:139-140 | the kept ids come from the input, are distinct, and each scores at least as high as every dropped one |
| Ranking.SortedKeepsBest | src/Services/Indexer.php:139-140 | in a sorted distinct list, the first m ids are distinct and beat all the rest |
| Indexer.Empty | src/Storage/Binary/GraphFile.php:26-28 | fresh stores are consistent: valid meta tree, aligned vector file, a vector for every node, links and entry naming nodes |
| Indexer.ConsistentClosed | src/Services/Indexer.php:70-78 | consistent stores give a closed search space: every node has a vector and every link and the entry name nodes |
| Indexer.RandomLevel | src/Services/Indexer.php:232-241 | the level lies in 0..L-1 |
| Indexer.RandomLevelIsCappedHeads | src/Services/Indexer.php:237-239 | the level is the number of leading draws below 0.5, capped at L-1 |
| Indexer.ScoreAll | src/Services/Indexer.php:135-138 | scores every link in order against the owner's vector; fails iff some link has no vector |
| Indexer.Prune | src/Services/Indexer.php:131-141 | the pruned list has at most cap entries, distinct, all from the links, and when it is shorter than cap it keeps every link; it never fails when the owner and every link have vectors |
| Indexer.PruneKeepsBest | src/Services/Indexer.php:131-141 | every kept link is at least as similar to the owner as every dropped link |
| Indexer.PrunedAll | src/Services/Indexer.php:139-140 | keeping fewer than cap ids means no id was dropped |
| Indexer.LinkBack | src/Services/Indexer.php:125-144 | the neighbour's list gains the new node when there is room and never exceeds its capacity; afterwards the neighbour lists the new node, or holds a full block of links each at least as similar to it as the new node (`BackLinked`); only that level's block changes; when links name nodes and nodes have vectors it never fails and links keep naming nodes |
| Indexer.WrittenBackLinked | src/Services/Indexer.php:127-143 | the list written back holds the new node, or is a whole block pruned by similarity to the neighbour that the new node did not make |
| Indexer.Candidates | src/Services/Indexer.php:113-119 | the candidates are the first maxM ids of what `searchLayer` (ef 100, k = M) returns, so at least one when maxM ≥ 1, at most M, distinct, none -1; each one other than the start is linked to on the level; in a closed space from an existing node it never fails and every candidate exists |
| Indexer.SelectedReached | src/Services/Indexer.php:113-119 | every selected id was reached along the level's links: one other than the start is held by a slot of the level, and in a closed space it is a node |
| Indexer.Select | src/Services/Indexer.php:115-119 | the first maxM ids found, in order, distinct |
| Indexer.LinkAll | src/Services/Indexer.php:125-144 | on success every selected node other than the new one lists the new node on the level or pruned it out for a full block of more similar links; only the level's block changes; the graph stays well formed with its levels, header and the new node's own row; in a closed space with existing neighbours it never fails and the space stays closed |
| Indexer.LinkLevel | src/Services/Indexer.php:111-147 | the selection is the first cap(level) ids the level search returns: non-empty, at most M, distinct, and the next entry is its first; unless the node selected itself, its list on the level is exactly the selection and it is linked both ways there (`LinkedBoth`); a node nothing links to is not selected from another start; only the level's block changes; in a closed space it never fails, the space stays closed and the next entry exists |
| Indexer.WriteLevel | src/Services/Indexer.php:121-144 | after writing the new node's links and the links back, the new node lists the selection and every selected node links back or pruned it out; only the level's block changes |
| Indexer.LinkedLevel | src/Services/Indexer.php:121-144 | the new node's list read back is the selection, and with every selected node linking back it is linked both ways on the level |
| Indexer.LinkingStep | src/Services/Indexer.php:111-147 | one level of the linking loop keeps its state: the node stays unlinked below the level, gains both-ways links on it, and keeps those of the levels above |
| Indexer.Connect | src/Services/Indexer.php:89-147 | the descent and the linking keep the graph well formed, its size, header and every level byte; in a closed space from an existing entry they never fail and the space stays closed; when moreover nothing links to the new node yet, it ends up linked both ways on every level from 0 to min(level, entry level) |
| Indexer.Map | src/Services/Indexer.php:61-65 | after the mapping write `find` gives the new id when the id reads back unchanged from its 36-byte field (no trailing NUL); every key other than the id and its stored form is unchanged |
| Indexer.Place | src/Services/Indexer.php:70-152 | the node exists with the drawn level; an empty graph gets header (id, 1) and the node no links at any level; otherwise the total rises by one and the entry moves iff the level tops the old entry's; when the old graph's links and entry name nodes and every node up to the new one has a vector, it never fails and the space is closed, and a node created past every row is linked both ways on every level up to min(level, entry level) |
| Indexer.CreatedUnseen | src/Storage/Binary/GraphFile.php:59-87 | a node created past every row of a graph whose links name rows is linked from no block |
| Indexer.Attach | src/Services/Indexer.php:84-152 | an empty graph gets header (id, 1) and its rows are untouched; otherwise the node is connected and the header moves to it iff its level tops the entry's; in a closed space it never fails and the space stays closed, and a new node nothing links to ends up linked both ways on every level it shares with the entry point |
| Indexer.Insert | src/Services/Indexer.php:41-156 | Duplicate iff the id maps to a live row, changing nothing; on success the id is the old row count, one row and one node are added, `find` gives the id when it reads back unchanged from its 36-byte field, and every key other than the id and its stored form is unchanged; the first node gets no links; on consistent stores a later node is linked both ways on every level from 0 to min(its level, the entry level); it keeps the stores consistent, and on consistent stores with an id of at most 36 bytes and a 1536-element vector it succeeds exactly when the id is not live |
| Indexer.Delete | src/Services/Indexer.php:164-184 | true iff the id maps to a live row; then the row reads deleted and the id maps to -1; otherwise nothing changes; the graph is never touched; consistency is kept |
| Indexer.DeleteKeepsOthers | src/Services/Indexer.php:174-178 | other keys and rows are unchanged |
| Indexer.DeleteTwice | src/Services/Indexer.php:168-172 | a second delete reports false and changes nothing |
| Searcher.Live | src/Services/Searcher.php:57-73 | each hydrated hit comes from a result whose row is live |
| Searcher.LivePrefix | src/Services/Searcher.php:74-76 | stopping early yields a prefix of the full hydration |
| Searcher.LiveSorted | src/Services/Searcher.php:57-77 | hydration keeps the results' order |
| Searcher.Hydrate | src/Services/Searcher.php:56-77 | the hits are the first k live results (the first result only when k < 1) |
| Searcher.HitsFacts | src/Services/Searcher.php:57-78 | hits are best first, and each is a live row's id, score and optional vector |
| Searcher.Search | src/Services/Searcher.php:40-82 | searches with k + 20 and ef = max(k + 20, 50); the hits are the first k live rows of that HNSW answer, in its order (the first result only when k < 1); at most max(k, 1) hits, best first, none deleted, each with its row's id and true similarity; an empty index gives none; consistent stores always give an answer; no store is written |
| Optimizer.AppendedRow | src/Services/Optimizer.php:57 | the i-th insert lands its record in row i and keeps the rows before |
| Optimizer.Mapped | src/Services/Optimizer.php:57 | the i-th insert maps its id to row i and keeps the earlier mappings |
| Optimizer.OnlyRecorded | src/Services/Optimizer.php:53-57 | the rebuilt meta tree maps only ids of inserted records |
| Optimizer.Run | src/Services/Optimizer.php:40-58 | the rebuilt vector file holds exactly the live rows, densely renumbered in order; each surviving id maps to its new row and no other id is mapped; a success means ids were distinct, and when every live row holds a full vector distinct ids mean success; the rebuilt stores are consistent |

## Left out

- Locking (`flock`), `fflush`, `clearstatcache` and file handles: the model is sequential.
- `getStats`: it reports file-system sizes only.
- The optimizer's temporary files, backups and the rename swap: `Optimizer.Run` returns the new stores or the error that aborted the run, and the source file is a value that it only reads.
- The `GraphFile` constructor takes no path, so the optimizer's graph target opens the live graph file. The model follows the evident intent, a fresh graph.
- `src/Core/Math.php` and float arithmetic: similarity is an abstract total function, and the rounding of PHP doubles to single precision happens before a vector reaches the model.
- `json_encode` and `json_decode`: they are the `encode` and `decode` parameters of the payload file.
- `getRandomLevel`'s randomizer: the draws are a parameter.
- The HTTP layer (`src/Api/Controller.php`, `public/index.php`).
- `findEntry`, payload fields in meta rows, metadata on insert, and the `Config` path getters: they are called but not defined in the code.
- Negative internal ids: the model's ids are naturals. In PHP a negative offset makes `fseek` fail, and the later reads happen at the old position.
- 32-bit integer fields: the model does not wrap graph links, header fields or meta values to 32 bits. It does model the level byte (mod 256).
- `UpdateLinks` on an id past the end: the model extends the graph with zero rows plus one full row. The file would hold only the bytes up to the block written.
- A meta file whose links form a cycle: `MetaFile.WellFormed` requires forward links, which is all this code writes. `find` would not terminate on a cycle.
- `HnswLogic.Search`: `SplPriorityQueue` order among equal priorities is not modelled. The frontier hands out the first element of highest similarity.
- `Indexer.Connect`: the source's descent reads vectors without the cache. The model runs it with an empty cache, which reads the same vectors.
- `Optimizer.Run`: it states that a rebuild with a repeated external id does not succeed, not that its error is Duplicate, because an earlier insert could fail first.
- `MetaFile.InsertKeepsOrder` and `MetaFile.InsertIncreasingKeepsChain`: they hold only for keys that read back unchanged from the 36-byte field (at most 36 bytes, no trailing NUL). `insert` compares the raw key but stores it trimmed, so a key ending in NUL can break the strict order; `MetaFile.NulKeyBreaksOrder` exhibits such a key.
- `Searcher.Search`: `includeMetadata` and its lookup are left out.
- `Indexer.Map` and `Indexer.Insert`: `find` is promised to give the new id only for an id that reads back unchanged from its 36-byte field, and other keys are promised unchanged only when they differ from both the id and its stored form. An id ending in NUL is stored without it, so `insert("a\0")` maps the key "a".
- `Indexer.Insert`, `Indexer.Place`, `Indexer.Attach` and `Indexer.Connect`: the both-ways linking is promised only for a node that nothing links to yet, which holds on consistent stores because the new row lies past every node. The neighbour's exact pruned list is not stated, only that it keeps a full block of links at least as similar as the new node.

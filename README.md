# GraphRAG core: chunking, beam pruning and tree clustering in Dafny

This project models three pieces of discrete logic from the GraphRAG retrieval
pipeline and proves properties of them.

- **Token separator splitter** (`separator.dfy`, module `Separator`). It models
  `SeparatorSplitter` and `chunking_by_seperators`:
  - it cuts a token list at separator sub-sequences, keeping each separator at the
    end of a split, at the start of the next one, or dropping it;
  - it greedily merges the splits up to `chunk_size`;
  - it re-windows a single oversized chunk with a stride of `chunk_size - chunk_overlap`;
  - it prepends the last `chunk_overlap` tokens of the previous chunk to each chunk;
  - it numbers each document's chunk records.

  Each loop of the source is a method proved equal to a specification function,
  and the properties are lemmas about those functions.
- **Relation-pruning beam step** (`entity_retriever.dfy`, module `EntityRetriever`).
  `_find_relevant_entities_by_relation_agent` works as follows:
  - each frontier entry looks up its `(entity, relation)` key in a `defaultdict(list)`,
    which inserts a missing key;
  - an entry with one candidate keeps its own score, an entry with none gets a
    `[FINISH]` row scored 0, and several candidates take the agent's scores, or
    `1/n` each when the count does not match;
  - the rows are flattened, stable-sorted by score descending, cut to `width` and
    stripped of zero scores.

  The relations table is a class whose map field the step updates in place. The
  module also holds the endpoint collection of `_find_relevant_entities_by_relationships`,
  the vector path's filter and rank, and the PageRank path's empty-seed guard.
- **Tree clustering bookkeeping** (`cluster_engine.dfy`, module `ClusterEngine`, and
  `tree_graph.dfy`, module `TreeGraph`). `ClusterEngine` holds:
  - `_GMM_cluster`'s threshold labels and its first-minimum-BIC component count;
  - `_perform_clustering`'s mapping of local cluster labels into one global id space.

  `TreeGraph` holds:
  - `_clustering`'s grouping by label and its re-clustering of oversized groups;
  - the node store, as a class with `nodes` and `layers` fields;
  - node creation, and the layer loop of `_build_tree_from_leaves` and `_build_graph`.

External computations enter as parameters:
- the mixture fits (a BIC value per component count, probability rows, local clusterings);
- the clustering of a list of nodes;
- the token length of a text, the summary of a cluster and the embedding of a text;
- the agent's replies, given as already-parsed score lists;
- the graph's degree and description lookups.

`wrappers.dfy` holds the `Option` type.

## Model

| member | source | states |
|---|---|---|
| Separator.Slice | Core/Chunk/Separator.py:32 | Python's clamped `s[lo:hi]`: never longer than `s`, and the exact slice when the bounds are in range |
| Separator.Tail | Core/Chunk/Separator.py:91 | Python's `s[-k:]`: the last `min(k, len)` tokens for `k > 0`, the whole list for `k == 0` |
| Separator.DropEmpty | Core/Chunk/Separator.py:48 | the filter `[s for s in splits if s]` leaves no empty split and keeps the concatenation |
| Separator.DropEmptyKeepsNonEmpty | Core/Chunk/Separator.py:48 | the filter is the identity on lists without empty splits |
| Separator.FirstMatch | Core/Chunk/Separator.py:31-42 | a reported match is a separator that is a prefix of the remaining tokens |
| Separator.FirstMatchIsFirst | Core/Chunk/Separator.py:31-42 | the matched separator is the first in list order: no earlier one matches, and with no match none does |
| Separator.FindSeparator | Core/Chunk/Separator.py:31-32 | the inner `for separator` loop finds the first separator whose slice at `i` equals it, or reports none |
| Separator.CloseAtSeparator | Core/Chunk/Separator.py:33-39 | at a matched separator, kept-at-end appends it to the split, a non-empty split is finished, kept-at-start opens the next split with it |
| Separator.ScanAt | Core/Chunk/Separator.py:30-45 | one loop pass strictly advances `i` and preserves the result of the remaining scan |
| Separator.SplitTokensWithSeparators | Core/Chunk/Separator.py:25-48 | the `while` loop returns exactly the splits of the scan specification |
| Separator.SeparatorSplitter.Valid | Core/Chunk/Separator.py:6-19 | the splitter's settings the model accepts: every separator non-empty and `0 <= chunk_overlap < chunk_size` (see Left out) |
| Separator.SplitFrom | Core/Chunk/Separator.py:29-47 | reference scan: at each position the first matching separator closes the current split as `keep_separator` says, any other token extends it; the properties are the SplitFrom lemmas below |
| Separator.Splits | Core/Chunk/Separator.py:25-48 | `_split_tokens_with_separators` as the scan from position 0 followed by the empty-split filter; SplitsRoundTrip states its round trip |
| Separator.SplitFromKeepsTokens | Core/Chunk/Separator.py:29-47 | keeping separators (end or start), the finished splits plus the current split plus the rest concatenate to the input |
| Separator.SplitFromDropsSeparators | Core/Chunk/Separator.py:29-47 | dropping separators, the splits concatenate to the input with every matched separator removed |
| Separator.SplitFromNonEmpty | Core/Chunk/Separator.py:35-47 | the scan never produces an empty split |
| Separator.SplitsRoundTrip | Core/Chunk/Separator.py:29-48 | round trip: kept separators give back the input exactly, dropped ones give the input minus separators, and the final filter removes nothing |
| Separator.GreedyFrom | Core/Chunk/Separator.py:57-67 | reference greedy merge: a split joins the current chunk while both fit in `chunk_size`, otherwise the chunk is closed and the split starts the next; the GreedyFrom lemmas state its properties |
| Separator.Greedy | Core/Chunk/Separator.py:54-67 | the merge of all splits from an empty chunk; GreedyProperties states what it keeps |
| Separator.GreedyFromKeepsOrder | Core/Chunk/Separator.py:54-67 | the greedy merge keeps order: its chunks concatenate to the concatenated splits |
| Separator.GreedyFromNonEmpty | Core/Chunk/Separator.py:57-67 | the greedy merge emits no empty chunk |
| Separator.GreedyFromBound | Core/Chunk/Separator.py:57-64 | every merged chunk fits in `chunk_size` or is one of the input splits, unchanged |
| Separator.GreedyFromExtends | Core/Chunk/Separator.py:57-67 | finished chunks are never revisited: the output extends them |
| Separator.GreedyFromKeepsOversized | Core/Chunk/Separator.py:57-67 | a split longer than `chunk_size` is a chunk of its own in the output |
| Separator.GreedyProperties | Core/Chunk/Separator.py:50-67 | merging keeps the concatenation, emits no empty chunk, bounds every multi-split chunk by `chunk_size`, keeps oversized splits whole, and maps `[]` to `[]` |
| Separator.WindowsFrom | Core/Chunk/Separator.py:79-82 | reference windows: from a start leaving more than `chunk_overlap` tokens, the clamped slice of `chunk_size` tokens and then the windows one step on; the Windows lemmas state their shape |
| Separator.Windows | Core/Chunk/Separator.py:77-83 | `_split_chunk`'s windows from start 0; WindowsShape and WindowsFromPartition state their shape and partition |
| Separator.WindowsFromPastEnd | Core/Chunk/Separator.py:79-82 | a start leaving at most `chunk_overlap` tokens yields no more windows |
| Separator.WindowsFromAt | Core/Chunk/Separator.py:79-82 | kept window `j` is the slice at `from + j * (chunk_size - chunk_overlap)`, and that start leaves more than `chunk_overlap` tokens |
| Separator.WindowsFromCount | Core/Chunk/Separator.py:79-82 | the windows stop exactly where the next start would leave `chunk_overlap` tokens or fewer |
| Separator.WindowShape | Core/Chunk/Separator.py:79-82 | window `j` is the slice of the chunk at `j * (chunk_size - chunk_overlap)`, with more than `chunk_overlap` and at most `chunk_size` tokens |
| Separator.WindowsShape | Core/Chunk/Separator.py:77-83 | window `j` starts at `j * (chunk_size - chunk_overlap)`, is a contiguous slice of length in `(chunk_overlap, chunk_size]`, and there are exactly as many windows as such starts |
| Separator.WindowsFromPartition | Core/Chunk/Separator.py:79-82 | with no overlap the windows partition the chunk: they concatenate back to it |
| Separator.SplitChunk | Core/Chunk/Separator.py:77-83 | the `for i in range(...)` loop returns exactly the window specification |
| Separator.Joined | Core/Chunk/Separator.py:91-94 | reference join: the previous chunk's last `chunk_overlap` tokens before the chunk, with the tail cut to fit `chunk_size`; JoinedProperties states its bound and prefix |
| Separator.Overlapped | Core/Chunk/Separator.py:85-96 | reference overlap: the first chunk unchanged and each later one joined to the previous input chunk; OverlappedProperties states its shape |
| Separator.JoinedProperties | Core/Chunk/Separator.py:91-94 | a joined chunk is the previous chunk's last `chunk_overlap` tokens followed by the chunk, cut to its first `chunk_size` tokens: a prefix of that concatenation of length `min(chunk_size, len(tail) + len(chunk))`, so it starts with the tail and is the whole concatenation when that fits |
| Separator.OverlappedAt | Core/Chunk/Separator.py:90-95 | chunk `i > 0` of the overlap is the tail of input chunk `i - 1` followed by input chunk `i`, cut to `chunk_size` tokens, as a prefix of exactly `min(chunk_size, len(tail) + len(chunk))` tokens |
| Separator.OverlappedProperties | Core/Chunk/Separator.py:85-96 | as many chunks out as in, the first unchanged, and every later one the previous input chunk's last `chunk_overlap` tokens followed by its own input chunk, cut to its first `chunk_size` tokens: a prefix of that concatenation of length `min(chunk_size, len(tail) + len(chunk))` |
| Separator.JoinChunk | Core/Chunk/Separator.py:91-95 | one loop pass computes the joined chunk |
| Separator.EnforceOverlap | Core/Chunk/Separator.py:85-96 | the loop returns exactly the overlap specification |
| Separator.Merge | Core/Chunk/Separator.py:50-75 | reference `_merge_splits`: no chunks for no splits, the greedy merge, re-windowed when it is one oversized chunk, overlapped when `chunk_overlap > 0`; MergeSplits and SplitTokensPartition are proved against it |
| Separator.MergeSplits | Core/Chunk/Separator.py:50-75 | `_merge_splits`: `[]` for no splits, re-windowing only when exactly one merged chunk exists and is oversized, overlap only when `chunk_overlap > 0`, else the greedy merge |
| Separator.SplitTokensSpec | Core/Chunk/Separator.py:21-23 | reference `split_tokens`: the merge of the scan's splits; SplitTokens computes it and SplitTokensPartition states its round trip |
| Separator.SplitTokens | Core/Chunk/Separator.py:21-23 | `split_tokens` is the scan followed by the merge |
| Separator.SplitTokensPartition | Core/Chunk/Separator.py:21-75 | with kept separators and no overlap, the chunks concatenate back to the input tokens, re-windowed or not |
| Separator.DocChunks | Core/Chunk/Separator.py:121-122 | one chunk list per document, in document order, each that document's `split_tokens` |
| Separator.AppendDocRecords | Core/Chunk/Separator.py:123-135 | the inner loop appends one record per chunk: its token count, its tokens, its position and the document key |
| Separator.ChunkingBySeparators | Core/Chunk/Separator.py:100-137 | the document loop returns the records of every document's chunks, in document order, built with separators kept at the end |
| Separator.Records | Core/Chunk/Separator.py:121-135 | reference record list: each document's chunk records, numbered from 0 and keyed by that document, after those of the documents before it; RecordsBlocks and RecordsPrefix state its layout |
| Separator.RecordsBlocks | Core/Chunk/Separator.py:121-135 | document `d`'s records form one block after those of earlier documents, with `chunk_order_index` 0, 1, 2, …, `tokens` equal to the chunk's length and `doc_id` equal to the document's key |
| Separator.RecordsPrefix | Core/Chunk/Separator.py:121-135 | the records of the first `n` documents are a prefix of all records: later documents only append |
| EntityRetriever.RelationsDict.Get | Core/Retriever/EntitiyRetriever.py:80 | the `defaultdict` read returns the stored list or `[]` and leaves the key present with that value; nothing else changes |
| EntityRetriever.RelationsDict.Append | Core/Retriever/EntitiyRetriever.py:105-106 | the in-place append extends the stored list by one element; nothing else changes |
| EntityRetriever.EntryScores | Core/Retriever/EntitiyRetriever.py:83-102 | one candidate keeps the entry's score, none gives `[0.0]`, several take the parsed scores when their count matches, else `1/n` each |
| EntityRetriever.ScoreCandidates | Core/Retriever/EntitiyRetriever.py:83-102 | the branches of the scoring compute exactly the entry scores |
| EntityRetriever.WithSentinel | Core/Retriever/EntitiyRetriever.py:105-106 | after the append, the candidate list is never empty |
| EntityRetriever.EntryRows | Core/Retriever/EntitiyRetriever.py:105-114 | an entry adds one row per candidate, or the one sentinel row |
| EntityRetriever.EntryRowsSentinel | Core/Retriever/EntitiyRetriever.py:83-106 | when the looked-up list holds no sentinel, every sentinel row of an entry is scored 0 |
| EntityRetriever.Expand | Core/Retriever/EntitiyRetriever.py:79-114 | reference loop: entry by entry, the rows of each entry's candidates looked up in the table as the earlier entries left it, and the table with each missing or empty key set to `["[FINISH]"]`; ExpandStep, ExpandTable and ExpandRowCount state its properties |
| EntityRetriever.ExpandStep | Core/Retriever/EntitiyRetriever.py:79-114 | one more entry appends its rows, computed from the table as the earlier entries left it, and records its key's list with the sentinel |
| EntityRetriever.ExpandEntry | Core/Retriever/EntitiyRetriever.py:80-109 | the loop body builds five equal-length columns that zip to the entry's rows, and leaves the entry's key mapped to its list, or to `["[FINISH]"]` when that was missing or empty |
| EntityRetriever.ExpandTable | Core/Retriever/EntitiyRetriever.py:79-106 | after the loop every key the frontier asked for maps to its old list, or to `["[FINISH]"]` if that was missing or empty, and every other entry is unchanged |
| EntityRetriever.ExpandRowCount | Core/Retriever/EntitiyRetriever.py:79-114 | each entry adds one row per candidate it looked up, or one sentinel row when there was none |
| EntityRetriever.ZipAppend | Core/Retriever/EntitiyRetriever.py:110-117 | extending the five columns appends the new rows to the zipped rows |
| EntityRetriever.InsertDesc | Core/Retriever/EntitiyRetriever.py:118 | reference insertion: a row goes before the first row of strictly smaller score; the InsertDesc lemmas state its properties |
| EntityRetriever.SortDesc | Core/Retriever/EntitiyRetriever.py:118 | reference stable descending sort: insertion of each row in turn; SortDescCorrect states that it is a stable descending permutation |
| EntityRetriever.InsertDescElements | Core/Retriever/EntitiyRetriever.py:118 | insertion adds exactly the one row |
| EntityRetriever.InsertDescSorted | Core/Retriever/EntitiyRetriever.py:118 | insertion into a descending list keeps it descending |
| EntityRetriever.InsertDescStable | Core/Retriever/EntitiyRetriever.py:118 | insertion goes before the rows of equal score, so those keep their order |
| EntityRetriever.SortDescCorrect | Core/Retriever/EntitiyRetriever.py:118 | `sorted(key=score, reverse=True)` yields a descending permutation in which the rows of each score keep their input order |
| EntityRetriever.Take | Core/Retriever/EntitiyRetriever.py:126-130 | `[:width]` is the prefix of exactly `min(len, width)` rows |
| EntityRetriever.TakeSorted | Core/Retriever/EntitiyRetriever.py:126-130 | a prefix of a descending list is descending and holds some of its rows |
| EntityRetriever.NonZero | Core/Retriever/EntitiyRetriever.py:134 | the filter keeps at most as many rows, none scored zero, each one of the input rows, and for every non-zero score exactly the input rows of that score in their input order |
| EntityRetriever.NonZeroSorted | Core/Retriever/EntitiyRetriever.py:134 | filtering a descending list keeps it descending |
| EntityRetriever.Prune | Core/Retriever/EntitiyRetriever.py:117-134 | reference prune: sort descending, keep the first `width` rows, drop the zero scores; PruneProperties states its properties |
| EntityRetriever.PruneProperties | Core/Retriever/EntitiyRetriever.py:117-134 | the survivors are at most `width` rows, none zero-scored, descending, drawn from the input rows, and for every non-zero score exactly the rows of that score among the first `width` rows of the stable descending ordering, in that order |
| EntityRetriever.Outcome | Core/Retriever/EntitiyRetriever.py:135-139 | no survivors give `(False, [], [], [], [])`; otherwise the flag is true and the one chain's `(topic, relation, candidate)` triples align index by index with the returned candidates, relations and heads |
| EntityRetriever.FindRelevantEntitiesByRelationAgent | Core/Retriever/EntitiyRetriever.py:54-139 | the beam step returns the outcome of pruning the loop's rows, and leaves the table exactly as the loop specification says |
| EntityRetriever.SentinelRowsScoreZero | Core/Retriever/EntitiyRetriever.py:79-114 | with distinct keys and no sentinel already stored, every sentinel row is scored 0 |
| EntityRetriever.PruneDropsZeroSentinel | Core/Retriever/EntitiyRetriever.py:117-134 | rows whose sentinel rows all score 0 lose every sentinel to the prune |
| EntityRetriever.PruneDropsSentinel | Core/Retriever/EntitiyRetriever.py:79-139 | with distinct keys and no sentinel stored, the step never returns `[FINISH]` |
| EntityRetriever.RepeatedKeyRows | Core/Retriever/EntitiyRetriever.py:79-114 | a frontier that asks twice for one missing key yields a zero-scored sentinel row and then a sentinel row with the entry's own score |
| EntityRetriever.PruneZeroThenScored | Core/Retriever/EntitiyRetriever.py:117-134 | a zero row followed by a positive row prunes to the positive row alone |
| EntityRetriever.RepeatedKeyKeepsSentinel | Core/Retriever/EntitiyRetriever.py:79-139 | as written, a repeated missing key with a positive score makes the step return `[FINISH]` as its only candidate |
| EntityRetriever.ExpandReadOnly | Core/Retriever/EntitiyRetriever.py:79-114 | the loop's rows when a lookup does not write the sentinel back, the intended reading of the `defaultdict` read; the ReadOnly lemmas are about it |
| EntityRetriever.ReadOnlySentinelRowsScoreZero | Core/Retriever/EntitiyRetriever.py:79-114 | with lookups that do not write the sentinel back, every sentinel row scores 0 whatever keys repeat |
| EntityRetriever.ReadOnlyPruneDropsSentinel | Core/Retriever/EntitiyRetriever.py:79-139 | with lookups that do not write the sentinel back, the step never returns `[FINISH]` |
| EntityRetriever.EndpointNames | Core/Retriever/EntitiyRetriever.py:146-149 | the set holds exactly the `src_id` and `tgt_id` values of the edges |
| EntityRetriever.FindRelevantEntitiesByRelationships | Core/Retriever/EntitiyRetriever.py:145-161 | one record per endpoint, each endpoint exactly once, each carrying that entity's description and degree as rank |
| EntityRetriever.FindRelevantEntitiesVdbAsWritten | Core/Retriever/EntitiyRetriever.py:28-47 | as written, there is a result exactly when the index is enabled, the retrieval is non-empty and no entry is absent; it ranks every entry by degree |
| EntityRetriever.AbsentEntryLosesAll | Core/Retriever/EntitiyRetriever.py:34-43 | as written, one absent entry among present ones loses the whole result |
| EntityRetriever.FindRelevantEntitiesVdb | Core/Retriever/EntitiyRetriever.py:28-45 | an empty retrieval gives no result, absent entries are dropped, and each kept record carries its degree as rank, in retrieval order |
| EntityRetriever.PresentKeepsPresent | Core/Retriever/EntitiyRetriever.py:39-43 | the filter keeps exactly the present entries; with none absent it keeps every entry, in retrieval order |
| EntityRetriever.FindRelevantEntitiesByPpr | Core/Retriever/EntitiyRetriever.py:18-27 | an empty seed list gives no result; otherwise the propagation runs on the seeds |
| ClusterEngine.Above | Core/Graph/TreeGraph.py:45 | `np.where(prob > threshold)[0]`: exactly the components above the threshold, ascending |
| ClusterEngine.ThresholdLabels | Core/Graph/TreeGraph.py:45 | one label list per point, holding exactly the components whose probability strictly exceeds the threshold, ascending |
| ClusterEngine.FirstMin | Core/Graph/TreeGraph.py:40 | `np.argmin`: a minimum, with every earlier value strictly larger |
| ClusterEngine.CandidateCounts | Core/Graph/TreeGraph.py:33-34 | the counts tried are `1 .. min(50, n) - 1` |
| ClusterEngine.ChosenCount | Core/Graph/TreeGraph.py:33-40 | no count for fewer than two points (argmin of nothing raises); otherwise the first count in `1 .. min(50, n) - 1` of least BIC |
| ClusterEngine.GmmCluster | Core/Graph/TreeGraph.py:32-46 | the BIC loop and refit return the chosen count and the threshold labels of its probability rows |
| ClusterEngine.MembersFrom | Core/Graph/TreeGraph.py:72-74 | the members of a global cluster are exactly the points whose labels hold it, ascending |
| ClusterEngine.Local | Core/Graph/TreeGraph.py:83-94 | a cluster of at most `dim + 1` members gives each member local label 0 and counts one local cluster; a larger one takes the local fit |
| ClusterEngine.TaggedFrom | Core/Graph/TreeGraph.py:103-105 | the points of local cluster `j` are exactly the members whose local labels hold `j`, in member order |
| ClusterEngine.NewIds | Core/Graph/TreeGraph.py:99-112 | reference ids: for point `p`, `offset + l` for each local label `l < j` that `p` carries, in label order; NewIdsMembership states its membership |
| ClusterEngine.AssignUpTo | Core/Graph/TreeGraph.py:68-114 | reference assignment after the first `i` global clusters: one label list per point, and the offset; the Assigned lemmas and OffsetsAdvance state its properties |
| ClusterEngine.Step | Core/Graph/TreeGraph.py:99-114 | one global cluster appends its offset local ids to each point and advances the total by its local count |
| ClusterEngine.NewIdsMembership | Core/Graph/TreeGraph.py:99-112 | the ids from local labels below `j` are exactly `offset + l` for the labels `l < j` the point carries |
| ClusterEngine.AppendId | Core/Graph/TreeGraph.py:109-112 | the `np.append` loop appends the id to the listed points only |
| ClusterEngine.AssignCluster | Core/Graph/TreeGraph.py:99-112 | the local loop gives every point of local cluster `j` the id `j + total_clusters` |
| ClusterEngine.PerformClustering | Core/Graph/TreeGraph.py:68-118 | the offset loop returns exactly the assignment specification, skipping empty global clusters |
| ClusterEngine.AssignedIdsBelowTotal | Core/Graph/TreeGraph.py:68-114 | every assigned id is below the final `total_clusters` |
| ClusterEngine.AssignedIdsExact | Core/Graph/TreeGraph.py:68-114 | a point carries id `x` exactly when some non-empty global cluster gave it `x` as a local label plus the sum of the local counts before it |
| ClusterEngine.OffsetsAdvance | Core/Graph/TreeGraph.py:81-114 | an empty global cluster changes nothing; a non-empty one advances the offset by its local count |
| ClusterEngine.SmallClusterGetsOffset | Core/Graph/TreeGraph.py:83-112 | a member of a small non-empty global cluster carries that cluster's offset as an id |
| TreeGraph.Concatenate | Core/Graph/TreeGraph.py:135 | `np.concatenate` holds exactly the labels of the lists |
| TreeGraph.DistinctBetween | Core/Graph/TreeGraph.py:135 | the labels of a range, ascending, each once |
| TreeGraph.UniqueLabels | Core/Graph/TreeGraph.py:135 | reference `np.unique(np.concatenate(...))`: the labels from 0 up to one past the largest carried label that some node carries, in ascending order; UniqueLabelsExact states that this is every carried label, each once |
| TreeGraph.UniqueLabelsExact | Core/Graph/TreeGraph.py:135 | `np.unique(np.concatenate(...))` is every carried label, ascending, without repetition |
| TreeGraph.Group | Core/Graph/TreeGraph.py:137-140 | a group holds the nodes at the member positions, in order |
| TreeGraph.GroupsOfLabels | Core/Graph/TreeGraph.py:135-140 | each carried label has a non-empty group made of exactly the nodes carrying it, in original order; an unlabelled node is in no group |
| TreeGraph.ClusterGroups | Core/Graph/TreeGraph.py:121-167 | reference `_clustering`: the groups of the unique labels in order, within a nesting budget, or none when it runs out; ClusterGroupsWithin and ClusterGroupsTerminates state its properties |
| TreeGraph.EmitGroups | Core/Graph/TreeGraph.py:135-165 | the `for label` loop: each label's group, expanded, in label order |
| TreeGraph.Expanded | Core/Graph/TreeGraph.py:142-165 | one group's contribution: a singleton as is, an oversized group larger than `reduction_dimension + 1` re-clustered with the remaining budget, any other as is |
| TreeGraph.Clustering | Core/Graph/TreeGraph.py:121-167 | `_clustering` returns exactly the grouping specification, within the nesting budget |
| TreeGraph.ClusterOneGroup | Core/Graph/TreeGraph.py:142-165 | a singleton is emitted unchanged, a group over the token limit and over `reduction_dimension + 1` nodes is re-clustered, any other is emitted as is |
| TreeGraph.ClusterGroupsWithin | Core/Graph/TreeGraph.py:121-167 | every returned group is non-empty, made of input nodes, and not both over the token limit and over `reduction_dimension + 1` nodes |
| TreeGraph.EmitGroupsWithin | Core/Graph/TreeGraph.py:135-165 | the same holds for the groups of any run of labels |
| TreeGraph.ClusterGroupsTerminates | Core/Graph/TreeGraph.py:159-163 | if every clustering of two or more nodes yields strictly smaller groups, a budget above the node count always suffices |
| TreeGraph.EmitGroupsTerminates | Core/Graph/TreeGraph.py:135-165 | under the same assumption, the groups of a run of labels are computed within the budget |
| TreeGraph.TreeStore.Valid | Core/Graph/TreeGraph.py:172-179 | the store invariant: node `k` has index `k` and a layer that exists, a leaf has no children and a parent's children are earlier nodes one layer down, and every listed index is a node of that layer |
| TreeGraph.TreeStore.GetLayer | Core/Graph/TreeGraph.py:209-216 | `get_layer` returns the nodes the layer lists, in insertion order, each in that layer |
| TreeGraph.TreeStore.constructor | Core/Graph/TreeGraph.py:27 | a new store is empty and valid |
| TreeGraph.TreeStore.Clear | Core/Graph/TreeGraph.py:241 | `clear` empties the store |
| TreeGraph.TreeStore.AddLayer | Core/Graph/TreeGraph.py:213 | `add_layer` appends one empty layer and keeps the nodes |
| TreeGraph.TreeStore.UpsertNode | Core/Graph/TreeGraph.py:177-179 | inserting the node at index `num_nodes` appends it and lists it in its layer, keeping the store valid |
| TreeGraph.CreateNode | Core/Graph/TreeGraph.py:172-179 | the new node's index is the node count before insertion; with calls made one at a time, indices increase and are never reused (not so under the source's unlocked thread pool, see Left out) |
| TreeGraph.ExtractEntityRelationship | Core/Graph/TreeGraph.py:181-185 | a leaf in layer 0 with no children holds the chunk's content |
| TreeGraph.ExtractClusterRelationship | Core/Graph/TreeGraph.py:187-191 | a parent's children are exactly its cluster members' indices, and its text is the cluster's summary |
| TreeGraph.Parent | Core/Graph/TreeGraph.py:187-191 | the node `_extract_cluster_relationship` makes: the given index and layer, the cluster's summary as text, the members' indices as children, and the summary's embedding |
| TreeGraph.ParentsAt | Core/Graph/TreeGraph.py:224-229 | the parents of a cluster list, in cluster order, at the given indices |
| TreeGraph.AddParents | Core/Graph/TreeGraph.py:224-229 | the nodes become the old nodes followed by exactly `Parent(n + d, layer + 1, clusters[d], ...)` for each cluster `d`, with `n` the old node count; layer `layer + 1` gains the indices `n, n + 1, ...` in order; no other layer changes; the store stays valid |
| TreeGraph.LayerBuilt | Core/Graph/TreeGraph.py:213-229 | layer `l + 1` holds exactly one parent per cluster of `_clustering` of layer `l`, in cluster order |
| TreeGraph.BuildLayer | Core/Graph/TreeGraph.py:213-229 | a round adds one layer; it succeeds exactly when the clustering of the current layer has a result, and then the new layer lists the new indices and the nodes gain exactly the parents of those clusters; on failure only an empty layer is added; success is certain when the clustering shrinks groups and the budget exceeds the layer size |
| TreeGraph.Grown | Core/Graph/TreeGraph.py:207-237 | what the layer loop keeps: every layer below the top is larger than `reduction_dimension + 1` and `LayerBuilt`; after a failed round the top layer is empty, the layer below it has no clustering result, and it is at least as large as the budget when the clustering shrinks groups |
| TreeGraph.GrownStep | Core/Graph/TreeGraph.py:208-229 | a round keeps what the earlier rounds built and adds its own layer, or its failure |
| TreeGraph.LayerRound | Core/Graph/TreeGraph.py:209-229 | one pass of the loop: it stops, changing nothing, exactly when the current layer has at most `reduction_dimension + 1` nodes; otherwise it is BuildLayer, and `Grown` is kept |
| TreeGraph.BuildTreeFromLeaves | Core/Graph/TreeGraph.py:207-237 | at most `num_layers` rounds; the leaves stay; the final layers satisfy `Grown`, so each holds the parents of the clusters of the one below; a completed loop stops at `num_layers` or at a top layer of at most `reduction_dimension + 1` nodes |
| TreeGraph.BuildGraph | Core/Graph/TreeGraph.py:240-256 | layer 0 lists `0 .. len(chunks) - 1` and leaf `k` is chunk `k` with its embedding and no children; above them the layers satisfy `Grown`, with the same stop rule |

## Left out

- Floating-point values (scores, BIC values, probabilities, thresholds, embeddings) are modelled as `real`. The count-mismatch score `1/n` is exact and no rounding is modelled.
- The clustering of a node list is a fixed function of its input. UMAP is called without a `random_state` (Core/Graph/TreeGraph.py:54-56, 88-90), so the source may cluster the same input differently from run to run.
- The mixture and projection fits (UMAP, GaussianMixture's fit, BIC and `predict_proba`) are floating-point library numerics. They enter as inputs: a BIC function, probability rows and a local clustering function.
- The recovery of the original row indices by comparing float embeddings is not modelled. It assumes distinct embeddings. The model works with the original indices directly.
- `_perform_clustering` and `_clustering` are modelled separately. `TreeGraph` takes the clustering of a node list as an input and does not call `ClusterEngine.PerformClustering`.
- `_clustering` is modelled with the one `reduction_dimension` value. The source tests the configuration's value, while the caller passes the same setting as a parameter.
- Clustering, BuildLayer, BuildTreeFromLeaves: the recursion of `_clustering` is bounded by a fuel parameter, and running out gives no result. Termination depends on the clustering returning strictly smaller groups, which the code does not guarantee. `TreeGraph.ClusterGroupsTerminates` proves that enough fuel suffices under that assumption. `TreeGraph.BuildLayer` states that a round then succeeds, and `TreeGraph.Grown` records that a failed round had a layer at least as large as the budget.
- The thread pool, per-task event loops, `as_completed` without waiting, and `time.sleep` are not modelled. Both pools submit the items in `max_workers` round-robin batches, batch `i` holding the items with `j % max_workers == i`, and sleep between batches (Core/Graph/TreeGraph.py:225-229, 251-253). The model processes clusters and chunks one at a time, in list order, so the parents of a layer get consecutive indices in cluster order.
- TreeGraph.CreateNode: its uniqueness of indices holds only for the sequential model. `_create_node` reads `num_nodes` (Core/Graph/TreeGraph.py:174) and upserts later (Core/Graph/TreeGraph.py:177) without a lock, so two concurrent tasks can take the same index and one node can overwrite the other.
- The `max_wokers` typo at Core/Graph/TreeGraph.py:253 is not modelled. As written it raises on the first batch of leaves. `TreeGraph.BuildGraph` models the evident intent, which is all leaves followed by the tree.
- The embedding, summary and completion-service calls are inputs, and so is prompt formatting. The regex parsing of scores is replaced by the parsed score list.
- JSON parsing in `_extract_query_entities` and `_extract_query_keywords` is not modelled, and neither is `_link_entities`.
- The PageRank computation, `argsort` and `get_node_by_indices` are an abstract function of the seeds.
- `truncate_list_by_token_size` in `_find_relevant_entities_by_relationships` is not modelled; its code is not part of this model. The records are given in the set's iteration order, which the model leaves open.
- The tokenizer's encode and decode are not modelled. A chunk record's `content` holds its tokens rather than the stripped decoded text, and a text's token length is an input.
- The storage back-ends (the tree store, the vector database) are not modelled. The tree store is a class over a node list and a layer list. `get_node` returning nothing for a missing entity is not modelled: the description lookup is total.
- Logging, `pdb` breakpoints, and the mis-indented dead `_find_relevant_tree_nodes_vdb` are not modelled.
- Core/Index/Schema.py (configuration declarations) and llm.py (a service wrapper) have no behaviour to model.
- Separator.SeparatorSplitter.Valid: the splitter requires non-empty separators and `0 <= chunk_overlap < chunk_size`. An empty separator makes the source loop forever. A zero window step makes `range` raise. A negative step gives no windows, and that case is not modelled.
- Separator.ChunkingBySeparators: requires at least as many document keys as documents; with fewer, the source raises `IndexError`.
- The aliasing in `_merge_splits` is not modelled. `current_chunk.extend` also grows the input split it aliases. Those splits are not read again, so the output is unaffected.
- Exceptions caught by the `try` blocks are not modelled, except the two that the model shows. The failed `use_entities_vdb` assertion gives no result, and so does an absent vector entry on the path as written.

## Findings

| source | as written | input that shows it | evidently intended | confidence | as-written member | corrected member |
|---|---|---|---|---|---|---|
| Core/Retriever/EntitiyRetriever.py:80-106 | an empty lookup writes `["[FINISH]"]` back into the table, so a later entry with the same `(entity, relation)` key finds one candidate, `[FINISH]`, and gives it the entry's own score | frontier `[e, e]` with `e.score > 0`, an empty table, `width >= 1`: the step goes on with `[FINISH]` as its only candidate | the sentinel always scores 0 and never survives the prune | not executed; medium | EntityRetriever.RepeatedKeyKeepsSentinel | EntityRetriever.ReadOnlyPruneDropsSentinel |
| Core/Retriever/EntitiyRetriever.py:36-43 | the degrees are requested for every entry before the `None` filter, so an absent entry raises and the handler returns nothing for the whole retrieval | retrieval `[Some(n), None]` with the index enabled gives no result | absent entries are dropped and the present ones are returned with their degree as rank | not executed; high | EntityRetriever.AbsentEntryLosesAll | EntityRetriever.FindRelevantEntitiesVdb |

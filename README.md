# Kidney-exchange data and result scripts, modelled in Dafny

The project has two Python scripts:

- `code/data.py` generates random compatibility edges between donor/recipient pairs.
- `code/results.py` merges an external solver's match records into a directed weighted graph. It then derives the plot's node colours and labels and rewrites every edge weight to one of two levels.

This Dafny project models the computing core of both scripts and proves what each step promises.

- `generator.dfy`, module `WeightGenerator`, models `gen_weights`:
  - Its two nested loops are the methods `GenWeights` (rows `i`) and `GenRow` (columns `j`, skipping `j == i`).
  - Both are proved against a left fold, `Generate`, over `Enumeration(n)`. That is the sequence of ordered pairs of distinct ids in the order the loops visit them.
  - `np.random.rand()` is an oracle `rand: nat -> real`, so the k-th call (counted from 0) returns `rand(k)`. Each visited pair takes one selection draw. A selected pair takes the next draw as its weight.
- `results.dfy`, module `ResultAnalysis`, models the module-level script:
  - The graph is a class `DiGraph` with a node list in insertion order and three maps: edge → weight, edge → matching, node → matching.
  - The script's steps are methods:
    - `AddWeightedEdgesFrom` and `AddEdge`;
    - `SetEdgeMatching` and `SetNodeMatching`;
    - the match loop, `ApplyMatches` and `MatchLoop`;
    - the colour scan, `NodeColours`;
    - the two-level reweighting, `Reweight` and `TwoLevelWeights`.
  - `AnnotateResults` chains them the way the script does.
  - A match record that names a missing edge makes `G[u][v]` raise an exception and end the script. The model returns `ok == false` in that case. By then the records before it have been applied, and that record has already been appended to `matches` and `ec`.
  - The keyed writes share one fold, `Overwrite`, in which the last write to a key wins. This covers adding weighted edges and applying matches to edges and to source nodes.

Rows of the two files are typed values: `WeightGenerator.WeightRecord` and `ResultAnalysis.MatchRecord`. The match file's header row is a row of the same type, and `CsvToList` drops it.

## Model

| member | source | states |
|---|---|---|
| WeightGenerator.GenWeights | code/data.py:19-31 | The list is the fold of the visits over all ordered pairs in loop order. The k-th record has index k + 1. Endpoints lie in 1..n and are never equal. Records are strictly increasing in lexicographic (source, target) order. There are at most n·(n−1) records, and none for n <= 0. |
| WeightGenerator.GenDefaultWeights | code/data.py:14-19 | `gen_weights()` with its defaults n = 100 and p = 0.02: the fold over all ordered pairs of 1..100, with at most 100·99 = 9900 records. |
| WeightGenerator.GenRow | code/data.py:24-29 | One inner loop: starting from the state after the earlier rows, row i ends in the fold of the pairs (i, 1..n) without (i, i). The counter stays one more than the number of records. |
| WeightGenerator.GeneratedRecords | code/data.py:22-29 | For any oracle, the generator's records have consecutive indices from 1, endpoints in 1..n, no self-pair and strictly increasing pairs, and there are at most n·(n−1) of them. |
| WeightGenerator.EnumerationFacts | code/data.py:23-26 | The visited pairs are exactly the (i, j) with i, j in 1..n and i != j, strictly increasing. There are n·(n−1) of them. |
| WeightGenerator.RowPairsFacts | code/data.py:24-26 | Row i visits exactly the (i, m) with 1 <= m <= last and m != i, in increasing m. |
| WeightGenerator.RowsFacts | code/data.py:23-26 | The first `last` rows visit exactly the (i, j) with 1 <= i <= last, 1 <= j <= n and i != j, strictly increasing. |
| WeightGenerator.RowPairsLength | code/data.py:24-26 | A row over 1..last has `last` pairs, one fewer when it contains the skipped self-pair. |
| WeightGenerator.RowsLength | code/data.py:23-26 | The first `last` rows hold last·(n−1) pairs. |
| WeightGenerator.RowVisit | code/data.py:27-29 | At a column j != i the inner loop visits (i, j): one more visit is folded in. |
| WeightGenerator.RowSkip | code/data.py:25-26 | At the column j == i the inner loop visits nothing. |
| WeightGenerator.GenerateFacts | code/data.py:22-29 | There are no more records than visits. Draws consumed = visits + records. The k-th record has index k + 1 and names a visited pair. |
| WeightGenerator.GenerateSplit | code/data.py:23-29 | The records of the first m visits are a prefix of all records. Every later record names a pair visited after m. |
| WeightGenerator.GenerateSorted | code/data.py:23-28 | A strictly sorted visiting order gives strictly sorted records. |
| WeightGenerator.SelectionDecides | code/data.py:27-28 | Both directions: a visited pair whose selection draw is below p is the next record, with the following draw as its weight; a pair whose draw is not below p appears in no record. |
| WeightGenerator.GenerateCount | code/data.py:23-31 | The number of records equals the number of visits whose selection draw is below p. |
| WeightGenerator.SelectedSnoc | code/data.py:27-29 | The selected positions of a visit sequence are those of all but its last visit, plus the last visit when it is selected. |
| WeightGenerator.GenerateWeightRange | code/data.py:28 | When every draw lies in [0, 1), as `np.random.rand` gives, every weight lies in [0, 1). |
| WeightGenerator.NoPairsNoRecords | code/data.py:23-31 | For n <= 1 nothing is emitted, whatever the draws. |
| ResultAnalysis.CsvToList | code/results.py:19-24 | Without a header, all rows in order. With a header, the first row followed by the result gives back the input, and an empty file gives no rows. |
| ResultAnalysis.BuildEdgeList | code/results.py:32-34 | There is one (source, target, weight) triple per weight row, in row order, taken from columns 1–3. The index column is dropped. The list is `EdgeList` of the rows. |
| ResultAnalysis.DiGraph.constructor | code/results.py:37 | The graph starts empty: no nodes, edges or attributes. |
| ResultAnalysis.DiGraph.AddEdge | code/results.py:38 | The source, then the target, is appended to the node list if new. The weight of u → v is set. The invariant holds: distinct nodes, and edges only between nodes. |
| ResultAnalysis.DiGraph.AddWeightedEdgesFrom | code/results.py:38 | The nodes are the old ones with every new endpoint appended in the order it first occurs. The weights are the old ones overwritten edge by edge, the last weight of a repeated edge winning. The invariant is kept. |
| ResultAnalysis.DiGraph.SetEdgeMatching | code/results.py:39 | Every edge, and nothing else, carries the given matching. |
| ResultAnalysis.DiGraph.SetNodeMatching | code/results.py:40 | Every node, and nothing else, carries the given matching. |
| ResultAnalysis.BuildGraph | code/results.py:37-40 | For a fresh annotated graph: nodes and weights are the folds of the edge list, and every edge and every node has matching 0. |
| ResultAnalysis.LoadGraph | code/results.py:28-40 | The nodes are the endpoints of the weight rows, in first-occurrence order. The edge set is exactly the rows' (source, target) pairs, and an edge weighs what the last row naming it says. Every matching is 0. |
| ResultAnalysis.LoadedFacts | code/results.py:33-38 | The graph built from weight rows has exactly the rows' endpoints as nodes. Its edges are exactly the rows' pairs, each carrying the weight of the last row that names it. |
| ResultAnalysis.LoadedNodes | code/results.py:33-38 | The nodes built from an edge list taken from weight rows are exactly the rows' sources and targets. |
| ResultAnalysis.LoadedEdges | code/results.py:33-38 | The edges built from an edge list taken from weight rows are exactly the rows' pairs, with the last weight of each. |
| ResultAnalysis.BuiltEdges | code/results.py:33-38 | The edge set built from a list is exactly its (source, target) pairs. An edge's weight is that of the last entry naming it. |
| ResultAnalysis.GeneratedGraph | code/results.py:33-38 | A graph built from generated records has no self-loop, and every edge endpoint and every node lies in 1..n. It keeps every generated weight, since no ordered pair is generated twice. |
| ResultAnalysis.NodesAfterFacts | code/results.py:38 | Adding edges keeps the node list distinct. Its nodes are exactly the earlier ones and the endpoints of the added edges. |
| ResultAnalysis.NodesAfterDistinct | code/results.py:38 | The node list stays free of duplicates as edges are added. |
| ResultAnalysis.NodesAfterMember | code/results.py:38 | A node is present after adding edges exactly when it was present before or is an endpoint of an added edge. |
| ResultAnalysis.AddNodeDistinct | code/results.py:38 | Adding a node to a distinct list keeps it distinct. |
| ResultAnalysis.MatchLoop | code/results.py:41-50 | Completes (ok) exactly when every record names an edge. Applies the longest prefix of records that name edges, writing each group on its edge and its source node in order. `matches` is that prefix plus the failing record, if any. `ec` holds their groups in input order. |
| ResultAnalysis.DiGraph.ApplyMatches | code/results.py:43-50 | On the graph: the same outcome as MatchLoop. Nodes, edges and weights are unchanged, and every edge and node still carries a matching. |
| ResultAnalysis.MatchedPrefix | code/results.py:43-49 | The longest prefix of records naming edges: all of them name edges, and the next record, if any, does not. |
| ResultAnalysis.MatchedPrefixIs | code/results.py:43-49 | A position before which every record names an edge, and at which none does, is that prefix length. |
| ResultAnalysis.OverwriteAt | code/results.py:49-50 | For one key of ordered writes: it is present exactly when it was before or is written. It keeps its old value when it is never written. Otherwise it takes the value of its last write. |
| ResultAnalysis.OverwriteLastWins | code/results.py:49-50 | OverwriteAt for every key at once: the last write to a key wins. |
| ResultAnalysis.OverwriteKeys | code/results.py:49-50 | Writes only to keys already present leave the key set unchanged. |
| ResultAnalysis.MatchedKeys | code/results.py:49-50 | The applied match records name existing edges, so the edge and node attribute maps keep their key sets. |
| ResultAnalysis.AnnotatedSources | code/results.py:49-50 | In an initialised graph the source of every edge is a node with a matching, so `G.node[u]` succeeds once `G[u][v]` has. |
| ResultAnalysis.AppliedEdgeMatching | code/results.py:39-49 | After initialisation and the match loop: an edge named by no record keeps 0, and a named edge carries the group of the last record naming it. |
| ResultAnalysis.AppliedNodeMatching | code/results.py:40-50 | A node that is the source of no record keeps 0, so a node that is only a target keeps 0. A source node carries the group of its last record. |
| ResultAnalysis.MergeExample | code/results.py:37-50 | Edge 1 → 2 with weight 0.5 and match (1, 2, 3): the edge and node 1 carry 3 and node 2 keeps 0. |
| ResultAnalysis.FirstGroupFacts | code/results.py:57-62 | The scan gives no colour exactly when no record has u as source. Otherwise it gives the group of the first such record. |
| ResultAnalysis.NodeColours | code/results.py:54-63 | One colour per node in node order: the group of the first record with that node as source, or None. The labels map exactly the nodes that are a record's source, each to itself. |
| ResultAnalysis.ColourAgreesWithMatching | code/results.py:50-62 | When a node is the source of exactly one record, its colour (first record) equals its matching (last record). |
| ResultAnalysis.TwoLevelWeights | code/results.py:94-100 | Every weight is rewritten, in any edge order, to the large level when the edge's matching is positive and to the small level otherwise. |
| ResultAnalysis.DiGraph.Reweight | code/results.py:94-101 | The graph's weights become the two-level reweighting of the old ones. Nodes and both matching maps are unchanged. |
| ResultAnalysis.ReweightedLevels | code/results.py:96-101 | Reweighting keeps the edge set. A positive matching gives the large level; any other gives the small level. |
| ResultAnalysis.ReweightIdempotent | code/results.py:92-101 | Reweighting twice is reweighting once. |
| ResultAnalysis.ColourAndReweight | code/results.py:54-101 | After a complete match loop: the colours and labels of NodeColours, then weights of 3 for edges with a positive matching and 1 for the rest. The edge set is unchanged. |
| ResultAnalysis.AnnotateLoaded | code/results.py:41-101 | The match loop on a loaded graph: ok exactly when every record names an edge. If ok, the matchings are the ordered overwrites, and the colours, labels and two-level weights follow. Nodes and the edge set are unchanged. `ec` holds the groups of `matches` in order. |
| ResultAnalysis.AnnotateResults | code/results.py:28-101 | The whole script: the nodes are the weight rows' endpoints in first-occurrence order, the edge set is exactly the rows' pairs, `ec` holds the groups of `matches` in order, and ok holds exactly when every match record after the header names an edge. If ok: the edge and node matchings are the records written over zeros with the last write winning, the colours come from the first record, the labels are the source nodes, and the weights are 3 or 1. |

## Left out

- File I/O is not modelled: `open`, the csv reader and writer, `write_weights` (code/data.py:34-37) and the `filename` parameter of `gen_weights`, which is unused. Rows reach the model as already-typed values.
- The `int`/`float` parsing of text fields is not modelled. A malformed row, which would raise during parsing, cannot occur in the model. The match file's header row is a typed row that is dropped.
- Weights are `real` instead of floating point. `rand(k) < p` is exact comparison of reals.
- The random source is an oracle. The statistical distribution of the edge count (binomial in n·(n−1) and p) is not stated. Nor is the claim that draws fall in [0, 1), except as the hypothesis of `GenerateWeightRange`.
- Plotting and layout are not modelled (code/results.py:66-84): `spring_layout`, the `draw_networkx_*` calls, `tick_params` and `savefig`.
- GEXF export is not modelled (code/results.py:87, 102). The model ends with the reweighted graph in memory.
- NetworkX is modelled as maps, not as the library. Node order is a list in first-insertion order. The attribute calls follow the NetworkX 1.x argument order `set_edge_attributes(G, name, value)` that this script uses.
- The `__main__` driver of code/data.py (lines 40-42) is not modelled.
- TwoLevelWeights: edges are taken from a set in an unspecified order, not in `G.edges()` order. The result does not depend on that order.
- The match loop's attribute writes happen on two map values that are stored in the graph when the loop ends (`MatchLoop`, then `DiGraph.ApplyMatches`). The stored state is the same as the state after the script's field-by-field writes, including after an aborting record.

Two behaviours of the script are modelled as written:

- Colours take the FIRST record with a node as source (code/results.py:58-62), while the node's `matching` takes the LAST (code/results.py:50). `ColourAgreesWithMatching` states when the two agree.
- A node that is only ever a target keeps matching 0 and gets no colour.

# intersectomics, modelled in Dafny

intersectomics builds a consensus network of biomolecules (genes,
transcripts, proteins, metabolites) from several omics layers:

- Every pair of biomolecules is correlated by a bootstrap Spearman
  correlation (`bootstrap_spearman_corr_parallel`). Its per-pair results are
  merged into the nested dictionaries `correlations[s1][s2]` and
  `pvalues[s1][s2]`.
- Each layer's correlation and p-value matrices become a weighted
  correlation graph (`make_corr_graph`).
- The layer graphs are intersected. Isolated nodes and isolated two-node
  components are pruned (`remove_G_pair_isolates`).
- The communities that Louvain detection finds are numbered
  (`make_intersection_graph`).
- `combinations_count` and `add_cols_multi_index` are arithmetic and
  table-shaping helpers.

The model has one module per source file. Supporting modules hold shared
vocabulary (`Common`) and the sort and string order the code relies on
(`Sorting`).

- `Graphs` (intersectomics/graph.py):
  - A networkx graph is the class `Graph`. It holds an undirected adjacency
    `map<Node, map<Node, Option<real>>>`, where `None` is an edge without a
    weight attribute.
  - `add_nodes_from`, `add_edge` and `remove_nodes_from` are methods that
    update it in place. `copy` is a method that returns a new object holding
    the same adjacency and changes nothing.
  - `remove_G_pair_isolates`, the edge loop of `make_corr_graph` and the
    labelling loop of `make_intersection_graph` are imperative methods. Each
    is proved against a specification function:
    - `WithoutPairIsolates` for the pruning;
    - `CorrGraphAdj`, a cell-by-cell description of the layer graph;
    - `Labelling` for the community labels.
  - The properties the code promises are lemmas about those functions:
    - pruning keeps exactly the nodes that have a neighbour and are not in an
      isolated pair;
    - every node of degree two or more survives pruning;
    - the intersection keeps exactly the nodes and edges common to all
      layers, and does not depend on the order of the layers;
    - the weight of an edge is the largest qualifying |corr|;
    - Louvain's output gives every node the number of its own community.
- `RunParallel` (intersectomics/run_parallel.py):
  - The pair enumeration `itertools.combinations(df.index.unique(), 2)` is
    proved to list every unordered pair of distinct identifiers exactly once,
    in first-appearance order. It lists `combinations_count(n, 2)` pairs.
  - The generator `_pair_interator` and the per-pair call are pure functions.
  - The process pool is an `arrival` permutation of the per-pair results.
    The merge loop is a method proved equal to a fold. The fold's result is
    proved to tabulate the results whatever order they arrive in.
- `Utils` (intersectomics/utils.py):
  - `combinations_count` is proved equal to Pascal's binomial coefficient.
  - `add_cols_multi_index` selects the columns by label in sorted name
    order. A name carried by k columns is listed k times, and each listing
    selects all k columns, so the selection holds k * k of them.
  - When the key field occurs once among the metadata fields, the call is
    proved to succeed exactly when each name carried by k columns is the key
    of k * k metadata rows.
    - With distinct column names, this means the column names and the keys
      are the same multiset.
    - Once a column name repeats, metadata listing every column once is
      rejected.

How the code treats the layers:

- The consensus graph carries no weights: `nx.intersection_all` drops edge
  attributes.
- Layers with disjoint node sets give an empty consensus graph. Only an
  empty list of layers fails, with `nx.intersection_all`'s `ValueError`.
- A single layer is accepted.
- A consensus edge whose two ends have no other edge is an isolated pair and
  is pruned together with its two ends, so two layers that share only the
  edge A–B give an empty graph.

## Model

| member | source | states |
|---|---|---|
| Graphs.IsolatesOf | intersectomics/graph.py:35 | `nx.isolates(G)`: the nodes without neighbours; PairIsolatesRemoved proves the pruned graph has none, so the isolate pass at line 35 removes nothing (RemoveNothing) |
| Graphs.Graph.Isolates | intersectomics/graph.py:35 | the isolates of the graph object's adjacency |
| Graphs.Graph.FromAdj | intersectomics/graph.py:20 | a graph object holding exactly the given adjacency |
| Graphs.WithEdge | intersectomics/graph.py:75-79 | `add_edge(u, v, weight=w)` on the adjacency; WithEdgeAt states every entry of the result |
| Graphs.RemoveNodes | intersectomics/graph.py:34-35 | the nodes of `s` and every edge touching them are gone; every other node, edge and weight is kept |
| Graphs.AddNodes | intersectomics/graph.py:68 | the new nodes are added without edges; existing nodes keep their neighbourhoods |
| Graphs.Graph.constructor | intersectomics/graph.py:67 | `nx.Graph()` is the empty, simple graph |
| Graphs.Graph.Copy | intersectomics/graph.py:20 | the copy is a new object with the same nodes, edges and weights |
| Graphs.Graph.AddNodesFrom | intersectomics/graph.py:68 | the new adjacency is the old one with the given nodes added |
| Graphs.Graph.AddEdge | intersectomics/graph.py:75-79 | the new adjacency is the old one with the edge {u, v} set to weight w in both directions |
| Graphs.Graph.RemoveNodesFrom | intersectomics/graph.py:34 | the new adjacency is the old one without the given nodes |
| Graphs.OnlyNeighbour | intersectomics/graph.py:28-29 | for a node of degree one, its neighbourhood is exactly the returned node |
| Graphs.DegreeMarks | intersectomics/graph.py:25-27 | a node without neighbours is marked; a node with two or more is never marked |
| Graphs.PairMarks | intersectomics/graph.py:28-32 | a node with one neighbour is marked iff that neighbour has it as its only neighbour, and then the neighbour is marked too |
| Graphs.PairPartner | intersectomics/graph.py:28-32 | the partner of a node in an isolated pair is in that pair too |
| Graphs.NeighbourOfKeptIsKept | intersectomics/graph.py:23-32 | every neighbour of an unmarked node is unmarked |
| Graphs.RemoveNodesSimple | intersectomics/graph.py:34 | removing nodes from a simple graph leaves a simple graph |
| Graphs.RemoveNothing | intersectomics/graph.py:35 | removing no node changes nothing |
| Graphs.RemoveAwayFrom | intersectomics/graph.py:34 | removing nodes that are not u or its neighbours leaves u's neighbourhood unchanged |
| Graphs.KeptNeighbourhood | intersectomics/graph.py:34 | after the marked nodes go, an unmarked node keeps all its neighbours and weights, hence at least one |
| Graphs.KeptNeighbourhoods | intersectomics/graph.py:34-35 | every node that survives the first removal keeps its whole neighbourhood and has a neighbour |
| Graphs.PairIsolatesRemoved | intersectomics/graph.py:21-35 | the result is simple; a node stays iff it has a neighbour and is not in an isolated pair; degree ≥ 2 nodes always stay; kept nodes keep their neighbourhood and have a neighbour; the isolate pass removes nothing |
| Graphs.RemovePairIsolates | intersectomics/graph.py:7-37 | a fresh simple graph equal to `WithoutPairIsolates` of the input, for every node visiting order; the input graph is unchanged |
| Graphs.PairIsolateList | intersectomics/graph.py:21-32 | whatever order the nodes are visited in, the listed nodes are exactly the isolated nodes and both ends of every isolated edge |
| Graphs.MeltColumn | intersectomics/graph.py:61 | a record is produced exactly for each significant cell of the column, carrying its value and abs(value) |
| Graphs.MeltColumns | intersectomics/graph.py:61 | a record is produced exactly for each significant cell of the frame |
| Graphs.AtLeast | intersectomics/graph.py:64 | keeps exactly the records with abs(corr) ≥ cutoff and preserves sortedness |
| Graphs.SignificantRecords | intersectomics/graph.py:61-64 | the table is sorted by abs(corr) and holds exactly the retained cells |
| Graphs.LastMatchIsLargest | intersectomics/graph.py:63-79 | in a list sorted by abs(corr), the last record adding an edge has the largest abs(corr) among those adding it |
| Graphs.AddPositiveEdges | intersectomics/graph.py:70-79 | the edge loop as a fold over the records; AddPositiveEdgesStep, AddPositiveEdgesKeys and AddPositiveEdgesAt state its result |
| Graphs.AddPositiveEdgesStep | intersectomics/graph.py:70-79 | one turn of the loop adds the record's edge iff its correlation is non-negative |
| Graphs.AddPositiveEdgesKeys | intersectomics/graph.py:67-79 | the edge loop adds no node beyond those added at line 68 |
| Graphs.AddPositiveEdgesAt | intersectomics/graph.py:70-79 | {u, v} is an edge after the loop iff some non-negative record joins u and v, and its weight is that of the last such record |
| Graphs.AddPositiveEdgesFacts | intersectomics/graph.py:67-79 | the loop's whole result: same nodes, edges exactly the pairs some positive record joins, weight from the last one |
| Graphs.WithEdgeAt | intersectomics/graph.py:75-79 | adding {p, q} sets exactly the entries (p, q) and (q, p) and leaves every other entry as it was |
| Graphs.LinkedPair | intersectomics/graph.py:61-79 | a linked pair is linked both ways, is not a loop, has one weight ≥ corr_cutoff, and both ends are graph nodes |
| Graphs.LastMatchIsPairWeight | intersectomics/graph.py:61-79 | some record adds {u, v} iff a cell of u and v qualifies, and the last one carries the larger qualifying abs(corr) |
| Graphs.CorrGraphEdge | intersectomics/graph.py:61-83 | every edge of the layer graph goes both ways with one weight, is not a loop, and weighs ≥ corr_cutoff |
| Graphs.CorrGraphSymmetric | intersectomics/graph.py:67-83 | the layer graph is simple |
| Graphs.CorrGraphWeights | intersectomics/graph.py:62-78 | every edge weight is at least corr_cutoff |
| Graphs.CorrGraphDegrees | intersectomics/graph.py:82 | every node of the layer graph has a neighbour |
| Graphs.CorrGraphSimple | intersectomics/graph.py:61-83 | the layer graph is simple, has no isolated node, and all its weights are ≥ corr_cutoff |
| Graphs.BuiltEdges | intersectomics/graph.py:67-79 | before isolate removal the nodes are the labels of the retained cells; {u, v} is an edge iff a qualifying positive cell joins u and v, weighted with the larger such abs(corr); every end of such a cell is a node |
| Graphs.ConstructedNodes | intersectomics/graph.py:68-82 | after isolates are removed, a node remains iff it is the end of a qualifying positive cell; the ends of negative-only cells go |
| Graphs.ConstructedNeighbours | intersectomics/graph.py:70-82 | a remaining node's neighbours are exactly the nodes a qualifying positive cell joins it to, with the pairs' weights |
| Graphs.ConstructedEdge | intersectomics/graph.py:70-82 | an entry of a remaining node is present and weighted exactly as in the cell-by-cell graph |
| Graphs.CorrGraphConstruction | intersectomics/graph.py:61-83 | the add-nodes, add-edges and remove-isolates construction yields exactly the cell-by-cell layer graph |
| Graphs.MakeCorrGraph | intersectomics/graph.py:40-83 | a fresh simple graph whose adjacency is the cell-by-cell layer graph |
| Graphs.InAllSnoc | intersectomics/graph.py:117 | being in all graphs of a list is being in all but the last and in the last |
| Graphs.IntersectAllFacts | intersectomics/graph.py:117 | the intersection holds exactly the nodes in every graph and the edges in every graph, without weights |
| Graphs.StripWeights | intersectomics/graph.py:117 | one graph's nodes and edges without weight attributes; StripWeightsSimple proves it simple |
| Graphs.Intersect2 | intersectomics/graph.py:117 | the nodes and edges common to two graphs, without weights; Intersect2Simple proves it simple |
| Graphs.IntersectAll | intersectomics/graph.py:117 | `nx.intersection_all` over a non-empty list; IntersectAllFacts states its nodes and edges |
| Graphs.EdgeInAllSymmetric | intersectomics/graph.py:117 | an edge common to simple graphs is common in the other direction too, between common nodes, and is not a loop |
| Graphs.IntersectAllSimple | intersectomics/graph.py:117 | the intersection of simple graphs is simple |
| Graphs.StripWeightsSimple | intersectomics/graph.py:117 | dropping weights keeps a graph simple |
| Graphs.Intersect2Simple | intersectomics/graph.py:117 | the intersection of two simple graphs is simple |
| Graphs.SameLayersAgree | intersectomics/graph.py:117 | lists holding the same graphs agree on common nodes and edges |
| Graphs.IntersectAllSameLayers | intersectomics/graph.py:117 | the intersection does not depend on the order or repetition of the layers |
| Graphs.IntersectAllRepeated | intersectomics/graph.py:117 | a graph intersected with itself any number of times is itself without weights |
| Graphs.ConsensusFacts | intersectomics/graph.py:116-118 | the consensus graph is simple; its nodes are the common nodes that have a common edge and are not in an isolated pair; their edges are exactly the common edges, at least one each |
| Graphs.LayerAdjs | intersectomics/graph.py:105-114 | one layer graph per (corr, pvalues) pair, as many as the shorter list |
| Graphs.LayersSimple | intersectomics/graph.py:105-114 | every layer graph is simple |
| Graphs.ListOf | intersectomics/graph.py:126 | `list(community)` lists each member exactly once |
| Graphs.LabelCommunities | intersectomics/graph.py:122-129 | `comm_trans[i]` lists the i-th community without repetition; `trans_comm` is defined on exactly the members and maps each to the last community holding it |
| Graphs.LabellingStep | intersectomics/graph.py:125-129 | one round of the loop extends the labelling by one community |
| Graphs.StepMembers | intersectomics/graph.py:127-128 | after a round, the labelled biomolecules are the members of the communities seen so far |
| Graphs.StepLabel | intersectomics/graph.py:127-128 | after a round, each label names the last community seen that holds the biomolecule |
| Graphs.PartitionLabels | intersectomics/graph.py:121-129 | for a partition, the labels cover exactly the graph's nodes, each node gets its own community's number, every number is used, and `comm_trans` lists each node under its label |
| Graphs.OwnLabel | intersectomics/graph.py:125-129 | in a partition, a member's label is its community's number |
| Graphs.MakeIntersectionGraph | intersectomics/graph.py:86-131 | fails iff there is no layer, with `nx.intersection_all`'s ValueError; otherwise the graph is fresh, simple and equal to the pruned intersection of the layer graphs, and the label maps label Louvain's communities of it |
| RunParallel.Unique | intersectomics/run_parallel.py:108 | the unique identifiers hold each identifier of the index exactly once |
| RunParallel.IndexOfSnoc | intersectomics/run_parallel.py:108 | appending does not move an existing first occurrence |
| RunParallel.UniqueFirstAppearance | intersectomics/run_parallel.py:108 | the unique identifiers are in order of first appearance |
| RunParallel.Pairs | intersectomics/run_parallel.py:108 | `itertools.combinations(u, 2)` in its order; PairsMembership, PairsDistinct and PairsCount state what it lists |
| RunParallel.PairsMembership | intersectomics/run_parallel.py:108 | (a, b) is enumerated iff a stands before b in the sequence |
| RunParallel.PairsWithin | intersectomics/run_parallel.py:108 | both names of every pair come from the sequence |
| RunParallel.PairsDistinct | intersectomics/run_parallel.py:108 | over distinct identifiers no pair repeats, none is a self-pair, and none is also enumerated reversed |
| RunParallel.PairsCount | intersectomics/run_parallel.py:108-109 | n identifiers give n(n−1)/2 pairs, which is `combinations_count(n, 2)` |
| RunParallel.IterLength | intersectomics/run_parallel.py:108-109 | the progress-bar total equals the number of pairs enumerated |
| RunParallel.SeriesByLabel | intersectomics/run_parallel.py:110 | the row of each identifier; SeriesByLabelKeys and SeriesByLabelLast state its keys and entries |
| RunParallel.SeriesByLabelKeys | intersectomics/run_parallel.py:110 | the dictionary has a row for every identifier and for nothing else |
| RunParallel.SeriesByLabelLast | intersectomics/run_parallel.py:110 | an identifier's entry is its last row |
| RunParallel.PairIterator | intersectomics/run_parallel.py:12-31 | succeeds iff every name has a row; then one work tuple per pair, in order, with both names, their rows and the same iteration count; otherwise KeyError on a missing name |
| RunParallel.ComputePair | intersectomics/run_parallel.py:34-67 | returns both names unchanged and in order, with the correlator's correlation and combined p-value; the interval is dropped |
| RunParallel.Work | intersectomics/run_parallel.py:108-124 | the generator yields one tuple per enumerated pair, in order, and never meets an unknown name |
| RunParallel.PairResults | intersectomics/run_parallel.py:115-127 | the per-pair results carry the enumerated pairs as keys, in enumeration order |
| RunParallel.Put | intersectomics/run_parallel.py:130-136 | `d[s1][s2] = v`, creating `d[s1]` on first use; PutEntries states its entries |
| RunParallel.PutEntries | intersectomics/run_parallel.py:130-136 | the update sets `d[s1][s2]` to v, adds s1 and s2 where absent, and leaves every other entry unchanged |
| RunParallel.Merged | intersectomics/run_parallel.py:129-136 | the merge loop as a fold over the results; MergedTabulates states its result |
| RunParallel.MergedOuterKeys | intersectomics/run_parallel.py:129-136 | the outer keys of the merged dictionary are exactly the first names of the results |
| RunParallel.MergedInnerKeys | intersectomics/run_parallel.py:129-136 | the inner keys under s1 are exactly the second names paired with s1 |
| RunParallel.MergedEntries | intersectomics/run_parallel.py:129-136 | when equal keys carry equal results, each result is stored under its key |
| RunParallel.MergedTabulates | intersectomics/run_parallel.py:129-136 | the merged dictionary tabulates its results |
| RunParallel.TabulatesUnique | intersectomics/run_parallel.py:129-136 | a set of results has only one tabulation |
| RunParallel.MergedSameShape | intersectomics/run_parallel.py:129-136 | the correlation and p-value dictionaries have identical key structure |
| RunParallel.MergeResults | intersectomics/run_parallel.py:129-136 | the loop computes the fold of the results for both dictionaries, and the two have identical key structure |
| RunParallel.Arrived | intersectomics/run_parallel.py:117-127 | the k-th arriving result is the result of the pair at position `arrival[k]` |
| RunParallel.ArrivedSame | intersectomics/run_parallel.py:117-127 | the results arrive each exactly once, so their keys stay distinct and each key is written once |
| RunParallel.DistinctKeysDetermine | intersectomics/run_parallel.py:129-136 | with distinct keys, a key determines its result |
| RunParallel.ArrivedTabulates | intersectomics/run_parallel.py:115-136 | the merge over any arrival order tabulates the results in enumeration order |
| RunParallel.TabulatesSameElements | intersectomics/run_parallel.py:115-136 | whether a dictionary tabulates a list of results depends only on which results it holds |
| RunParallel.MergeOrderIndependent | intersectomics/run_parallel.py:115-136 | the merged dictionaries do not depend on the order in which results arrive |
| RunParallel.PairResultsKeys | intersectomics/run_parallel.py:108-127 | each enumerated pair is the key of exactly one result, and every result's key is an enumerated pair |
| RunParallel.BootstrapSpearmanCorrParallel | intersectomics/run_parallel.py:70-138 | IndexError listing the level names iff the replicate level is missing, before anything else; then ValueError for fewer than one process or a chunk size below one; otherwise both dictionaries tabulate the per-pair results, whatever the arrival order |
| RunParallel.TabulatedPairs | intersectomics/run_parallel.py:108-136 | `d[s1][s2]` is defined exactly for the enumerated pairs |
| Utils.Factorial | intersectomics/utils.py:17 | n! is at least 1 |
| Utils.ChooseTimesFactorials | intersectomics/utils.py:17 | Pascal's count times r!(n−r)! is n! |
| Utils.DivideExactly | intersectomics/utils.py:17 | floor division of an exact multiple is exact |
| Utils.CombinationsCount | intersectomics/utils.py:4-17 | 0 when r > n; `factorial`'s ValueError when r ≤ n and r < 0; otherwise the exact quotient n!/(r!(n−r)!), equal to Pascal's count |
| Utils.CombinationsCountSymmetric | intersectomics/utils.py:15-17 | choosing r is choosing n − r |
| Utils.ChooseTwo | intersectomics/utils.py:17 | choosing 2 of n is n(n−1)/2 |
| Utils.ChooseOne | intersectomics/utils.py:17 | choosing 1 of n is n |
| Utils.CombinationsCountPairs | intersectomics/utils.py:4-17 | `combinations_count(n, 2)` is n(n−1)/2 |
| Utils.Choose | intersectomics/utils.py:17 | Pascal's rule for the number of r-element subsets, the reference that the factorial formula is proved equal to in ChooseTimesFactorials and CombinationsCount |
| Utils.IndexOf | intersectomics/utils.py:43-52 | the position of the first occurrence of a field name |
| Utils.ByFieldOrder | intersectomics/utils.py:52 | comparing metadata rows by the key field is a total preorder |
| Utils.SortedRows | intersectomics/utils.py:52 | the metadata rows are permuted so that their key field ascends |
| Utils.SortedLabels | intersectomics/utils.py:51 | `sorted(df.columns)` is an ascending permutation of the column names, repeats included |
| Utils.Select | intersectomics/utils.py:51 | label selection of one name yields only columns carrying that name |
| Utils.SelectAll | intersectomics/utils.py:51 | selection by a list of names yields only columns carrying a listed name |
| Utils.SortedColumns | intersectomics/utils.py:51 | `df[sorted(df.columns)]` yields its columns in ascending name order |
| Utils.SelectAllSorted | intersectomics/utils.py:51 | selecting the names of an ascending list gives columns in ascending name order |
| Utils.SelectLength | intersectomics/utils.py:51 | selecting a name yields as many columns as carry that name |
| Utils.SelectCount | intersectomics/utils.py:51 | selecting a name yields every copy of each column carrying it and no other column |
| Utils.SelectAllLabelCount | intersectomics/utils.py:51 | a name listed j times and carried by k columns labels j·k selected columns |
| Utils.SelectAllCount | intersectomics/utils.py:51 | a column whose name is listed j times is selected j times per copy |
| Utils.TimesIsProduct | intersectomics/utils.py:51 | the counting sum `Times(n, m)` is the product n·m |
| Utils.SortedColumnsLabelCount | intersectomics/utils.py:51 | a name carried by k columns labels k·k columns of the selection |
| Utils.SortedColumnsCount | intersectomics/utils.py:51 | a column whose name k columns carry is selected k times per copy |
| Utils.SortedColumnsDistinct | intersectomics/utils.py:51 | with distinct column names the selection is a permutation of the columns |
| Utils.AddColsMultiIndex | intersectomics/utils.py:20-58 | IndexError on a missing key field; on success the level names are the metadata fields, there is one column per metadata row, the columns ascend by name, every metadata row keys exactly one column, and column i is the i-th selected column keyed by a row holding its name |
| Utils.AddColsMultiIndexSucceeds | intersectomics/utils.py:43-55 | with a key field that occurs once, the call succeeds iff every name carried by k columns is the key of exactly k·k metadata rows, and otherwise raises the mismatch IndexError |
| Utils.SortedNamesAgree | intersectomics/utils.py:51-54 | the sorted column list equals the sorted key list iff every name carried by k columns is the key of k·k rows |
| Utils.AddColsMultiIndexDistinct | intersectomics/utils.py:43-55 | with distinct column names and a key field that occurs once, the call succeeds iff the column names and the key values are the same multiset |
| Utils.RepeatedNameFails | intersectomics/utils.py:51-55 | once a column name repeats, metadata whose keys are exactly the column names is rejected |
| Utils.KeysMultiset | intersectomics/utils.py:52 | permuting the rows permutes their keys |
| Utils.MapMultiset | intersectomics/utils.py:51-52 | mapping preserves being a permutation |
| Sorting.InsertBy | intersectomics/utils.py:51-52 | inserting into a sorted list keeps it sorted and adds exactly one element |
| Sorting.SortBy | intersectomics/graph.py:63 | the sort returns a sorted permutation of its input |
| Sorting.LexLe | intersectomics/utils.py:51 | Python's `<=` on `str`: code-point order with a proper prefix first; LexOrder proves it a total order |
| Sorting.SortedUnique | intersectomics/utils.py:51-54 | under a total order two sorted permutations of each other are equal |
| Sorting.SortByMap | intersectomics/utils.py:51-54 | sorting by a key and then projecting to the key is sorting the keys |
| Sorting.LexLeTotal | intersectomics/utils.py:51 | any two strings compare under Python's `<=` |
| Sorting.LexLeTransitive | intersectomics/utils.py:51 | Python's `<=` on strings is transitive |
| Sorting.LexLeAntisymmetric | intersectomics/utils.py:51 | strings that compare both ways are equal |
| Sorting.LexOrder | intersectomics/utils.py:51-52 | Python's `<=` on strings is a total order |

## Left out

- intersectomics/bootstrap_corr.py is not part of this model. The bootstrap Spearman correlator is stochastic floating-point work behind scipy and numpy. It is the parameter `bootstrap` of `BootstrapSpearmanCorrParallel`.
- Louvain community detection (intersectomics/graph.py:121) is the parameter `louvain` of `MakeIntersectionGraph`. It is a randomised networkx algorithm. `PartitionLabels` states what the labels are when its output is a partition of the nodes.
- The process pool and the progress bar (intersectomics/run_parallel.py:115-127) are concurrency and display. They become the `arrival` permutation: every per-pair result arrives exactly once, in any order. A failure inside a worker is not modelled. MergeOrderIndependent states equality of the dictionaries as maps. Their insertion order does depend on the arrival order, and so does the column order of the DataFrames built at intersectomics/run_parallel.py:138; the model does not capture that order.
- BootstrapSpearmanCorrParallel: does not model the column re-sort and relabelling by the replicate level (intersectomics/run_parallel.py:104-106). The rows are taken as already labelled by replicate. The column order only reaches the opaque correlator.
- BootstrapSpearmanCorrParallel: the IndexError carries the list of level names instead of the message text that renders that list. The final conversion of the two dictionaries to DataFrames (intersectomics/run_parallel.py:138) is not modelled; the model returns the nested maps. Working on a deep copy holds by construction, since the table is a value.
- PairIterator: the KeyError is raised eagerly at the first missing name. The generator raises it lazily, inside the pool. `Work` proves that no name is ever missing on the path the function takes.
- MakeCorrGraph: requires that no cell pairs a biomolecule with itself. The matrices come from pairs of distinct biomolecules, so their diagonal is empty. A self-loop would change networkx's degree and isolate counts, which is not modelled.
- MakeCorrGraph: the model's sort fixes one order among records with equal |corr|, while pandas' default sort may choose another. Records with equal |corr| can therefore be visited in another order. This does not change the graph, because equal |corr| means an equal weight.
- SortedRows: the model's sort fixes one order among metadata rows with equal keys, while pandas' default sort may choose another. When such rows differ in other fields, pandas may attach them to the equally named columns in another order. With distinct column names on a successful call, the keys are distinct and there is no such tie.
- Matrix entries are real numbers, and NaN is an absent cell. Floating-point rounding of |corr| and of the p-value comparison is not modelled.
- MakeIntersectionGraph: also returns `comm_trans`. The source builds it and then discards it; it returns only the graph and `trans_comm`.
- The return annotation of `make_intersection_graph` (intersectomics/graph.py:91) names `cm.ScalarMappable`, but `cm` is not imported. The model ignores the annotation.
- Directed graphs, which the signature of `remove_G_pair_isolates` admits, are not modelled. Every graph of the pipeline is an undirected `nx.Graph`.
- intersectomics/plot.py (drawing) and intersectomics/__init__.py (logging set-up) are not part of this model.

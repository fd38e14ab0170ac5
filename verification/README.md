# Multi-omic pathway demos: a Dafny model of the pure logic

The repository holds two Streamlit demos. `main.py` asks the RaMP service which
pathways involve one analyte (a protein or a metabolite). It turns the answer
into an enrichment table and draws the analyte and its pathways as a
`networkx` star graph. `app.py` lists the proteins, metabolites and pathways of
a few built-in diseases. It filters them with a search box, lays the names out
as one node list with aligned type labels and colours, and draws an edge from
each protein to each metabolite and pathway.

This project models the deterministic, sequential part of both scripts and
proves what they promise about membership, order and counts.

- `ramp_analysis.dfy` (module `RampAnalysis`) covers `enrichment_analysis` and
  `create_network_graph`. A raw RaMP record has optional `name`,
  `relevance_score` and `source` keys. A missing key is the `KeyError` that
  Python raises, returned as a `Failure` that names the record and the key.
  The score arithmetic is a parameter `rescale`, because it is floating point.
  The graph is built by folding over the rows as the loop does. It is proved
  equal to an independent closed form, `StarGraph`, which depends only on the
  set of pathway names.
- `nx_graph.dfy` (module `NxGraph`) models the part of `networkx.Graph` the
  script uses. The node table maps each node to its attribute dictionary.
  Edges are unordered: an edge is the set of its endpoints, so a self-loop is a
  singleton. `add_node` on an existing node updates its attributes, as
  networkx does. `add_edge` adds missing endpoints with no attributes.
- `disease_explorer.dfy` (module `DiseaseExplorer`) lifts the module-level code
  of `app.py` into pure functions of the selected disease's lists and the
  search term. It covers `filter_nodes`, the `if search_term:` gate, the
  `nodes` / `node_types` / `node_colors` table and the nested loop that lists
  edges. The loop is a method with loop invariants. Its result is
  characterised as the strictly lexicographically sorted list of exactly the
  index pairs that pass the loop's test.
- `text.dfy` (module `Text`) gives `str.lower()` for ASCII only and the
  substring test `needle in hay`. `seqs.dfy` (module `Seqs`) and
  `wrappers.dfy` (module `Wrappers`) hold shared sequence facts and
  `Option`/`Result`.

Points where the model follows the code:

- When a record lacks `name`, `relevance_score` or `source`, the code raises
  `KeyError` for the first of those keys it reads, and the whole call fails.
- The score is `round(relevance_score * 1.5, 2)`, computed from that record's
  relevance score alone.
- A pathway named like the analyte is added with `add_node` on the analyte's
  own node, so that node is relabelled "Pathway"/blue, and `add_edge` draws a
  self-loop on it (`SelfLoop`).
- The edge loop tests membership by value (`source in proteins`), not by list
  position. Every edge therefore has a protein name at its source. The model
  proves the count `|proteins| * (|metabolites| + |pathways|)` when no name
  occurs twice in `proteins + metabolites + pathways` (`EdgeCount`). That
  condition is sufficient, not necessary: a name repeated inside one list
  leaves the count intact. The count can fail when a protein name is also a
  metabolite or pathway name, because `source != target` then skips that pair
  (`SharedNameLosesEdge`: proteins `["A"]` and metabolites `["A"]` give no
  edge). The built-in data repeats no name (`DemoDataDistinct`), and filtering
  keeps it so (`SearchKeepsDistinct`).

## Model

| member | source | states |
|---|---|---|
| RampAnalysis.EnrichmentAnalysis | main.py:24-32 | The call succeeds exactly when every record has `name`, `relevance_score` and `source`. On success it gives one row per record, in order, with "Pathway" and "Source" copied and the score computed from that record's relevance score. On failure it names the first incomplete record. The reported key is "name" exactly when that record lacks a name, "relevance_score" exactly when it has a name but no score, and "source" exactly when only the source is missing. |
| RampAnalysis.CreateNetworkGraph | main.py:35-41 | Adding the analyte node, then each row's pathway node and analyte–pathway edge in order, gives the star graph on the analyte and the set of pathway names. |
| RampAnalysis.AddPathwayStep | main.py:39-40 | One loop iteration turns the star graph on some names into the star graph on those names plus the new one. |
| RampAnalysis.InitialGraph | main.py:36-37 | Before the loop, the graph is the star graph with no pathways. |
| RampAnalysis.AnalyteAlwaysPresent | main.py:36-37 | The analyte is always a node. With no rows, the graph is that single node with analyte attributes and has no edges. |
| RampAnalysis.PathwaysAreNodes | main.py:38-39 | Every "Pathway" value of the input is a node carrying `label="Pathway", color="blue"`. |
| RampAnalysis.EdgesAreSpokes | main.py:38-40 | The graph is well formed. Each input pathway is joined to the analyte. Every edge contains the analyte and is the edge to some input pathway. No edge joins two nodes that are both different from the analyte. |
| RampAnalysis.GraphCounts | main.py:36-40 | The edge count equals the number of distinct pathway names, which is at most the number of rows. There is at most one node more than there are rows. |
| RampAnalysis.StarEdgesCardinality | main.py:40 | Distinct pathway names give distinct analyte edges, so the star has one edge per name. |
| RampAnalysis.SelfLoop | main.py:37-40 | If a pathway is named like the analyte, there is a self-loop, no extra node, and the analyte node is relabelled as a pathway. Otherwise there is no self-loop, the analyte keeps its attributes, and there is one node more than there are names. |
| RampAnalysis.OnlyNamesMatter | main.py:38-40 | Two row lists with the same set of pathway names give the same graph, whatever their scores, sources, order or repetitions. |
| RampAnalysis.TwoDistinctPathways | main.py:35-41 | Two rows with different names, neither equal to the analyte, give three nodes and exactly the two analyte edges. |
| RampAnalysis.RepeatedPathway | main.py:35-41 | Two rows with the same name, not equal to the analyte, give two nodes and a single edge. |
| RampAnalysis.EnrichedGraphEdges | main.py:24-41 | After successful enrichment, every raw pathway name is joined to the analyte, and there are no more edges than records. |
| RampAnalysis.EnrichedGraphNodes | main.py:24-41 | After successful enrichment, every node other than the analyte is the name of some raw record. |
| NxGraph.AddNode | main.py:37 | `add_node` adds the node. A new node gets the given attributes. An existing node has those keys overwritten and keeps its other attributes. No other node and no edge changes. |
| NxGraph.AddEdge | main.py:40 | `add_edge` adds the unordered edge and any missing endpoints. Existing nodes keep their attributes. |
| NxGraph.AddNodeIdempotent | main.py:39 | Re-adding a node with the same attributes changes nothing. |
| NxGraph.AddEdgeIdempotent | main.py:40 | Re-adding an edge changes nothing. |
| NxGraph.AddEdgeSymmetric | main.py:40 | `add_edge(u, v)` and `add_edge(v, u)` give the same graph. |
| NxGraph.AddNodeReplaces | main.py:39 | Re-adding a node whose attribute keys are all overwritten replaces its attributes outright. |
| Text.Lower | app.py:42 | `str.lower()` on ASCII: the result has the same length, each upper-case letter becomes its lower-case letter, and every other character is kept. |
| Text.LowerIdempotent | app.py:42 | Lowering an already lowered string changes nothing. |
| Text.Contains | app.py:42 | The substring test holds exactly when the needle occurs contiguously at some position of the haystack. |
| DiseaseExplorer.Matches | app.py:42 | `search_term.lower() in node.lower()` holds exactly when some window of the node spells the term up to ASCII case. |
| DiseaseExplorer.MatchesIgnoresCase | app.py:42 | Lowering the node or the term first does not change whether they match. |
| DiseaseExplorer.FilterNodes | app.py:41-42 | The result is an order-preserving subsequence of the input, and every element of it matches. Each matching value is kept as often as it occurs and each non-matching value is dropped, so an element is kept exactly when the lowercased term is a substring of the lowercased element. |
| DiseaseExplorer.FilterIdempotent | app.py:41-42 | Filtering twice with the same term gives the same result as filtering once. |
| DiseaseExplorer.FilterEmptyTerm | app.py:42 | The empty term matches every name, so filtering with it returns the list unchanged. |
| DiseaseExplorer.ApplySearch | app.py:44-47 | With an empty search term, the three lists are left unchanged. Otherwise each list becomes a subsequence of itself. |
| DiseaseExplorer.SearchIsFilter | app.py:44-47 | The gate is unobservable: with or without it, each list equals its filtered self. |
| DiseaseExplorer.SearchMembership | app.py:41-50 | A name is among the shown nodes exactly when it belongs to the disease and matches the term. |
| DiseaseExplorer.BuildNodeTable | app.py:50-52 | `nodes`, `node_types` and `node_colors` have the same length. The node list is the proteins, then the metabolites, then the pathways. The label and colour at each index are those of the list that index falls in. |
| DiseaseExplorer.IsEdge | app.py:64-65 | The loop's test on a position pair: the two names differ, the first is in `proteins`, and the second is in `metabolites` or `pathways`. A pair that passes it has two different positions. |
| DiseaseExplorer.EnumerateEdges | app.py:61-66 | The edge list is in strictly increasing lexicographic `(i, j)` order. It holds exactly the index pairs below `len(nodes)` where `nodes[i] != nodes[j]`, `nodes[i]` is a protein, and `nodes[j]` is a metabolite or a pathway. |
| DiseaseExplorer.EdgeTestBySegment | app.py:64-65 | When no name repeats across the three lists, the loop's test holds exactly when `i` is a protein position and `j` is a metabolite or pathway position. |
| DiseaseExplorer.CompleteJoin | app.py:61-66 | When no name repeats across the three lists, the loop draws an edge from every protein position to every metabolite and pathway position, and every edge it draws is such a pair. |
| DiseaseExplorer.SharedNameLosesEdge | app.py:62-66 | For proteins `["A"]`, metabolites `["A"]` and no pathways, the loop's edge list is empty, because the one candidate pair has equal names, while the complete count is 1. |
| DiseaseExplorer.EdgeCount | app.py:61-66 | When no name repeats across the three lists (a sufficient condition, not a necessary one), every list of the loop's edges has `len(proteins) * (len(metabolites) + len(pathways))` entries. |
| DiseaseExplorer.SearchKeepsDistinct | app.py:44-50 | If no name repeats before the search, none repeats after it. |
| DiseaseExplorer.DemoDataDistinct | app.py:6-22 | In each built-in disease, no name repeats across the three lists, and the lists have 3, 3 and 2 entries. |
| DiseaseExplorer.SearchCount | app.py:44-66 | When the unfiltered lists repeat no name, the edge count after any search is the complete protein-to-rest count of the filtered lists. |
| DiseaseExplorer.ShowDisease | app.py:44-66 | For one disease's lists, each shown list is that list filtered by the term, so a name is shown exactly when it belongs to the disease and matches. An empty term shows them all. The node table lists the shown proteins, metabolites and pathways in that order, with each position's label and colour taken from its list. The edge list is as for `EnumerateEdges`. When no name repeats, every shown protein is joined to every shown metabolite and pathway, and there are that many edges. |
| DiseaseExplorer.Explore | app.py:35-66 | For a disease offered by the selector, each shown list is that disease's list filtered by the term, and the node table is aligned with it. Every shown protein is joined to every shown metabolite and pathway, and there are exactly that many edges. With no search term there are 15 edges. |
| DiseaseExplorer.ParkinsonsSearchA | app.py:41-47 | Searching Parkinson's disease for "a" keeps the protein SNCA alone and every metabolite and pathway, so the complete protein-to-rest count, which `Explore` proves is the edge count, is 1 * (3 + 2) = 5. |

## Left out

- `query_ramp` (main.py:11-21) is an HTTP POST to a placeholder endpoint. The model starts from the list of records it returns. A response that is a JSON object rather than an array is not modelled. Nor is a `name` or `source` value that is not a string.
- `save_csv` and `save_pdf` (main.py:43-61) write files through pandas and fpdf.
- The score `round(relevance_score * 1.5, 2)` (main.py:29) is floating point. It is the function parameter `rescale`, and the score type is opaque.
- A JSON `null` value under a key is not modelled. The model treats only an absent key as an error. A `null` name or source would be copied into the row as `None`. A `null` name then reaches `G.add_node(None, ...)` at main.py:39, where networkx raises `ValueError` because `None` cannot be a node.
- RampAnalysis.EnrichmentAnalysis: the score is rescaled by a total function `rescale`, so the `TypeError` that `relevance_score * 1.5` raises on a `null` or non-numeric score (main.py:29) is not modelled. The claim that the call succeeds exactly when every record has the three keys holds for numeric scores only.
- The Streamlit UI is left out. In main.py that is lines 63-92, including the `if pathways:` guard and its messages. In app.py it is lines 25-32 and 68-103. The disease selector offers only the keys of the data set, which is why `Explore` requires the selected name to be one of them.
- The circular layout (app.py:54-58) is floating-point geometry with `numpy`.
- Plotly and pyvis rendering are left out.
- networkx node insertion order is left out. The node table is a map and the edge set is a set, so the order in which networkx reports nodes and edges is not modelled. Only the graph's content is.
- Text.Lower: lowercasing is modelled for ASCII letters only. Python's `str.lower()` also folds non-ASCII letters, so names that differ only in non-ASCII case may be kept by the source and dropped by the model, and, through the context-dependent Greek final sigma, the reverse: for the term "Σ" the source drops the node "ΑΣ" and the model keeps it.

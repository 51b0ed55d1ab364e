# arXiv collaboration graph — a Dafny model

This project models the in-memory graph logic of the arXiv collaboration-network
tools. There are three parts:

- **The builder** (`build_collaboration_network`): a breadth-first crawl from a
  seed author. It takes records from a FIFO queue, skips authors that are
  already processed, and turns every processed author into a node. Only authors
  dequeued below `max_depth` are searched. Such an author gets an edge to every
  co-author other than itself, and every co-author not yet processed is queued
  one level deeper.
- **The edge-list store**: `save_edges_to_csv` writes an `Author1,Author2`
  header and then one row per edge. `load_all_csv_edges` merges every `.csv`
  file of a folder into one graph. It skips each file's first row, adds an
  edge for every row of exactly two fields, and ignores all other rows.
- **The path query** (`find_connection`): it reports a missing `author1`, then
  a missing `author2`. Otherwise it reports a shortest co-authorship chain, or
  that there is none.

The builder loop appears twice, in `arxiv_api/clients/graph_client.py:55-89`
and in `arxiv-graph-generation.py:56-103`. The two copies of the loop are
the same, but they call different searches. `ArxivClient.search_arxiv_publications`
asks for up to 50 results and first transliterates the name with
`unidecode` (`arxiv_api/clients/arxiv_client.py:35,57-58`). The script's own
`search_arxiv_publications` asks for up to 3 results and passes the name
unchanged (`arxiv-graph-generation.py:18-40`). The model's `Source`
parameter stands for whichever search a copy calls, so one `Build` covers
both. The loader and the path query also appear twice, in `graph_client.py`
and in `researcher-connections-finder.py`
(`load_all_csv_edges` at 15-42, `find_connection` at 45-72). Those copies
have the same logic. The path-query copies differ only in `print` text. The
loader copies also differ in the default folder (`"../csv_database"` at
`graph_client.py:227`, `"csv_database"` at
`researcher-connections-finder.py:15`) and in an unused `header` binding
of the skipped first row (`researcher-connections-finder.py:34`). Most rows of the table cite
`graph_client.py`. Rows about `get_coauthors`, the co-author loop's
self-loop guard, the edge writer of the script copy, and the loader's row
handling cite the other copy, which has the same logic at the lines given.

Modules:

- `graph.dfy` — module `Graphs`. An undirected networkx graph is modelled as
  `map<string, set<string>>`. `Wf` says every neighbour is a node and adjacency
  is symmetric. The module also holds `add_node`, `add_edge`, and `GraphOf`,
  the graph spanned by a set of author pairs, a reference definition.
- `crawler.dfy` — module `Crawler`. The publication search is a parameter
  `Source = string -> seq<seq<string>>`, giving one author-name list per
  publication (what `get_coauthors` extracts). `Step` is one iteration of the
  `while queue` loop over a `Crawl` state: graph, processed set, queue, and
  the log of processed `(author, depth)` records, and the trace of authors
  passed to the search, extended only where the loop calls it. `Build` runs
  the loop under the invariant `Inv`. It terminates because every processed
  author lies in the finite set `Reach(src, seed, max(maxDepth, 0))`, the
  authors within that many search hops of the seed. Here `c` is one hop from
  `a` when `a`'s search names `c`. Part of `Inv` is the breadth-first
  frontier, `Covered`: each co-author of a searched author is processed
  already or waits in the queue one level deeper. From it the graph's nodes
  are exactly that reach set, and every author is processed at its least
  number of search hops. Search hops are directed, so they can exceed the
  author's distance in the built graph. Suppose A's search names B, B's
  names C, C's names D, and D's search returns a paper `[D, A]`. With
  `max_depth` 4 or more, D is processed at depth 3 and searched, so A and D
  are neighbours in the graph although D sits three search hops out. With
  `max_depth` 1, D is not a node at all, although it co-authored with A.
- `edgestore.dfy` — module `EdgeStore`. A file is its name and the rows the
  CSV reader yields. `EdgeList` models `G.edges()`, `CsvRows` the writer, and
  `LoadAll` the loader. The loader is proved equal to `GraphOf` of the union
  of the files' two-field data rows.
- `pathfinder.dfy` — module `PathFinder`. A level-by-level breadth-first
  search records a predecessor for every author it reaches, standing in for
  `nx.shortest_path`. It returns `NotFound(name) | NoPath | Path(authors)`.

Where the code and its documentation differ, the model follows the code:

- The `build_collaboration_network` docstring promises an empty graph when the
  starting author has no publications or a network error occurs. The code
  always adds the seed as a node, and nothing catches a failing search. So the
  model's graph always contains the seed, and search failure is outside the
  model (see Left out).
- The `load_all_csv_edges` docstring promises an empty graph when the folder
  does not exist (`graph_client.py:241`). The code calls `os.listdir` on it
  unguarded (`graph_client.py:245`), which raises. The model takes the
  folder's listing as its input, so a missing folder is outside it (see Left
  out).
- The loader documents only the header row. In the code, `next(reader)` on an
  empty `.csv` file raises `StopIteration`, which nothing catches, so the whole
  load fails. The model makes this an explicit outcome, `MissingHeader(file)`,
  naming the first such file of the listing.

## Model

| member | source | states |
|---|---|---|
| Graphs.AddNode | arxiv_api/clients/graph_client.py:68-69 | adding a node adds exactly that node, no edges, and keeps the graph undirected and loop-free |
| Graphs.AddEdge | arxiv_api/clients/graph_client.py:84 | `add_edge` creates missing endpoints and adds exactly the edge in both directions; it keeps loop-freedom when the endpoints differ |
| Graphs.AddEdgeExisting | arxiv_api/clients/graph_client.py:84-87 | re-adding an edge that is already present leaves the graph unchanged |
| Graphs.GraphOf | arxiv_api/clients/graph_client.py:254-256 | the graph of a pair set has exactly the pairs' endpoints as nodes and each pair as an undirected edge |
| Graphs.DropIsolated | arxiv_api/clients/graph_client.py:160-161 | an edge list keeps the nodes that have a neighbour and all adjacency |
| Crawler.NamesMembers | arxiv-graph-generation.py:43-53 | the co-author names of a search are exactly the authors of some publication, unmodified |
| Crawler.Queries | arxiv_api/clients/graph_client.py:71-74 | an author is searched iff it was processed at a depth below `max_depth` |
| Crawler.AddCoauthorEdges | arxiv_api/clients/graph_client.py:79-84 | the current author gets an edge to every co-author other than itself, already processed or not; nothing else changes |
| Crawler.AddCoauthorEdgesShape | arxiv-graph-generation.py:96-98 | adding co-author edges never creates a self-loop and keeps the graph undirected |
| Crawler.Followups | arxiv_api/clients/graph_client.py:86-87 | exactly the co-authors other than the current author that are not yet processed are queued, each at `depth + 1` |
| Crawler.Step | arxiv_api/clients/graph_client.py:59-87 | one iteration: the front author is always marked processed; an already processed one is dropped with the log and the search trace unchanged, otherwise it is logged at its depth; it is passed to the search exactly when it is new and below `max_depth`; the rest of the queue stays in front of anything enqueued |
| Crawler.StepQueueEffect | arxiv_api/clients/graph_client.py:71-87 | what one iteration appends to the queue: for a searched author, exactly its co-authors other than itself that are not yet processed, each at `depth + 1`; for any other iteration, nothing |
| Crawler.StepGraphEffect | arxiv_api/clients/graph_client.py:62-84 | what one iteration does to the graph: a dropped author changes nothing; a new author becomes a node; only a searched author gains an edge to every co-author other than itself, already processed or not |
| Crawler.StepKeepsQueries | arxiv_api/clients/graph_client.py:71-74 | the search trace grows by the current author exactly when it is newly processed below `max_depth`, so the trace is always the log's records below the bound |
| Crawler.StepKeepsCover | arxiv_api/clients/graph_client.py:79-87 | every iteration keeps the breadth-first frontier: each co-author other than itself of a searched author at depth `d` is processed at depth `d + 1` or less, or is queued at `d + 1`; skipping a processed front author loses nothing, because it was processed at the front's depth or earlier |
| Crawler.CompleteAuthors | arxiv_api/clients/graph_client.py:52-89 | once the queue is empty, the processed authors are exactly the authors within `max(max_depth, 0)` search hops of the seed (`c` is one hop from `a` when `a`'s search names `c`) |
| Crawler.CompleteDepths | arxiv_api/clients/graph_client.py:57-87 | once the queue is empty, every author was processed at its least number of search hops from the seed: never deeper than the shortest chain of searches naming the next author; this can exceed its distance in the built graph |
| Crawler.StartInv | arxiv_api/clients/graph_client.py:55-57 | the invariant holds of the first state: an empty graph, nothing processed, only `(seed, 0)` queued |
| Crawler.StepKeepsInv | arxiv_api/clients/graph_client.py:59-87 | every iteration keeps the invariant: queued and processed depths stay within `max(max_depth, 0)`; the queue is sorted and spans two levels; processed authors are distinct and each was discovered from an earlier one; nodes are processed or queued authors; edges join exactly the searched authors and their co-authors |
| Crawler.StepMeasure | arxiv_api/clients/graph_client.py:59-65 | each iteration processes a new author of the finite reach set or shortens the queue, so the loop ends even when co-authorship has cycles |
| Crawler.Finished | arxiv_api/clients/graph_client.py:52-89 | once the queue is empty: every node has been processed and every processed author is a node; the nodes are the authors within `max(max_depth, 0)` search hops, each processed at its least number of search hops; the edges join each searched author to its co-authors; the search trace has no repeats |
| Crawler.QueriesDistinct | arxiv_api/clients/graph_client.py:62-65 | each author's publications are searched at most once per build |
| Crawler.SeedOnly | arxiv_api/clients/graph_client.py:68-72 | with `max_depth <= 0` the graph is the seed alone, with no edge and no search |
| Crawler.Build | arxiv_api/clients/graph_client.py:38-89 | the seed is processed first and is a node; nodes are exactly the processed authors, and exactly the authors within `max(max_depth, 0)` search hops of the seed (`c` is one hop from `a` when `a`'s search names `c`); no author is processed twice; depths are non-decreasing, and each is the author's least number of search hops from the seed, which can exceed its distance in the built graph; the recorded searches are exactly the records below `max_depth`, each at most once; the graph is undirected and loop-free; `x`–`y` is an edge iff `x != y` and one of them was searched and named the other; `max_depth <= 0` gives the seed alone |
| EdgeStore.EdgeList | arxiv_api/clients/graph_client.py:160 | `G.edges()` lists every edge exactly once, in one orientation, and nothing else |
| EdgeStore.CsvRows | arxiv_api/clients/graph_client.py:158-161 | the header row `["Author1","Author2"]`, then one `[u, v]` row per listed edge, in listing order |
| EdgeStore.CsvRowsPairs | arxiv_api/clients/graph_client.py:158-161 | the written data rows give back exactly the listed pairs |
| EdgeStore.EnumerationSpans | arxiv_api/clients/graph_client.py:160-161 | the pairs of an edge listing span the graph minus its isolated nodes |
| EdgeStore.SaveLoadRoundTrip | arxiv_api/clients/graph_client.py:156-161 | loading a saved edge file gives back every edge, but isolated nodes are lost |
| EdgeStore.SaveRows | arxiv-graph-generation.py:158-163 | the rows written for a graph: header first, one two-field row per edge, no duplicates in either orientation; loading them yields the graph minus its isolated nodes |
| EdgeStore.AddRowsGraphOf | arxiv_api/clients/graph_client.py:254-256 | adding the rows of a file adds exactly the pairs of its two-field rows |
| EdgeStore.LoadFiles | arxiv_api/clients/graph_client.py:245-256 | the folder loop succeeds iff every `.csv` file has a header row |
| EdgeStore.LoadFilesFailure | arxiv_api/clients/graph_client.py:250-252 | a failed load names the first `.csv` file of the listing that has no row at all |
| EdgeStore.LoadFilesGraphOf | arxiv_api/clients/graph_client.py:245-256 | loading into a graph adds exactly the data pairs of the `.csv` files |
| EdgeStore.LoadAll | arxiv_api/clients/graph_client.py:227-260 | the merged graph is the graph of the union of all `.csv` files' two-field data rows; it fails only on a headerless file |
| EdgeStore.LoadAllOrderFree | arxiv_api/clients/graph_client.py:245-256 | swapping two parts of the folder listing changes neither whether the load succeeds nor the merged graph |
| EdgeStore.LoadAllDuplicates | arxiv_api/clients/graph_client.py:237-241 | duplicate edges across files collapse: loading every file twice gives the same graph |
| EdgeStore.LoadAllNoCsv | researcher-connections-finder.py:25-28 | a folder without `.csv` names loads as the empty graph |
| EdgeStore.FirstRowSkipped | researcher-connections-finder.py:32-34 | the first row of a file is never an edge, whatever it holds |
| EdgeStore.MalformedRowIgnored | researcher-connections-finder.py:36-38 | a row whose field count is not two adds nothing |
| EdgeStore.SelfLoopRowKept | researcher-connections-finder.py:36-38 | a row with two equal fields is loaded as a self-loop: the loader promises no loop-freedom |
| PathFinder.ReachedInTime | arxiv_api/clients/graph_client.py:291 | after `k` rounds, every author at most `k` hops away has been reached at its hop distance or earlier |
| PathFinder.Enclosed | arxiv_api/clients/graph_client.py:299-300 | when no new author can be reached, every author on any path from the start has been reached |
| PathFinder.NextRound | arxiv_api/clients/graph_client.py:291 | one round keeps the search invariant one hop further: the new frontier is disjoint from what was reached before, every neighbour of the old frontier is reached, and each newly reached author has a recorded predecessor one hop closer |
| PathFinder.Walk | arxiv_api/clients/graph_client.py:291 | following predecessors back from a reached author gives a path from the start with as many hops as that author's round |
| PathFinder.Search | arxiv_api/clients/graph_client.py:290-300 | for two nodes: a shortest path, or `NoPath` exactly when no path exists |
| PathFinder.FindConnection | arxiv_api/clients/graph_client.py:282-300 | `author1` missing gives `NotFound(author1)` before `author2` is checked; then `NotFound(author2)`; otherwise a shortest path with `len(path) - 1` hops, or `NoPath` iff unconnected; the same author twice gives `[author1]` with 0 hops |

## Left out

- The arXiv search (`search_arxiv_publications`, the `arxiv` client and
  `unidecode` transliteration) is network and library code. It is replaced by
  the total function `Source`. A search that raises aborts the whole build in
  the code; a total function cannot fail, so that outcome is not modelled.
- The `if not results: continue` branch is not modelled separately: an empty
  result list adds no edges and queues nothing, which the general case
  already covers.
- `print` progress and summary lines are not modelled. The builder's
  "Processing author" lines appear as the `log` output of `Crawler.Build`.
- File-system work is not modelled: `os.listdir`, `os.makedirs`, `open`, the
  file-name construction, and the loader's default folder argument
  (`"../csv_database"` or `"csv_database"`, depending on the copy). A folder
  that does not exist makes `os.listdir` raise; that outcome is not
  modelled. A folder is a sequence of `CsvFile(name, rows)` values in
  listing order. CSV quoting and text encoding are the csv
  module's job and are not modelled.
- The default argument `max_depth=2` (`graph_client.py:38`,
  `arxiv-graph-generation.py:56`) is not modelled: `Build` takes `maxDepth`
  explicitly, and both callers (`arxiv_api/graph-generator.py:34`,
  `arxiv-graph-generation.py:176`) pass it.
- `visualize_network` (matplotlib, floating-point layout) is out of scope.
- The JSON and Sigma exports (`graph_client.py:166-224`) format the same edge
  iteration through `json.dump` and add no graph logic.
- `display_publication_info` and the interactive `main` scripts
  (`arxiv_api/graph-generator.py`, `arxiv_api/publications-finder.py`,
  `arxiv_api/researcher-connections-finder.py`) only read input and print.
- networkx internals are not modelled. Node iteration order in `G.edges()` is
  an arbitrary choice in `EdgeStore.EdgeList`. Tie-breaking between equally
  short paths is an arbitrary choice in `PathFinder.Search`. Only the
  documented results are specified.
- EdgeStore.EdgeList: the first endpoint of each listed edge is not pinned to
  networkx's order. The contract says only that every edge appears once, in
  some orientation.
- PathFinder.FindConnection: which of several shortest paths is returned is
  not specified, only that it is a shortest one.

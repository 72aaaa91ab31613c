# Network analysis workflow — a verified Dafny model

This project models the graph-metrics engine of `NetworkAnalysisWorkflow.execute`
(chains/network_analysis.py). The engine receives a bundle of uploaded files,
a filename-to-text mapping, and works in four steps:

1. It picks the first file whose lower-cased name contains `edges` and ends
   with `.csv`.
2. It reads that file's rows and adds one undirected edge per `(node1, node2)`
   row to a networkx-style simple graph.
3. It computes the metrics:
   - the edge count;
   - the degree of every node;
   - the first node of highest degree;
   - the average degree;
   - the density;
   - the hop distance from `Alice` to `Eve`, or `-1` when there is none.
4. It returns either the metrics record or a record holding only an error
   message.

The integer bin layout of the degree histogram is modelled as well.

Files, one module each:

- `wrappers.dfy`: `Option` and `Result`.
- `selection.dfy`: ASCII lower-casing, substring and suffix tests, and the
  first-match file search. The search is a loop with `break`, proved against a
  recursive specification.
- `graph.dfy`: the undirected graph as a class. It holds `nodes`, the insertion
  order, and `adj`, the adjacency map. `AddEdge` follows networkx `add_edge`:
  `u` is added before `v`, and each is added to the other's neighbour set.
  Degrees follow networkx, so a self-loop adds 2 to its node. The file also
  holds the degree view and the degree-sum lemmas.
- `edgelist.dfy`: the declarative meaning of a list of rows:
  - its endpoints;
  - its set of unordered pairs (the edges);
  - its neighbour sets;
  - its first-seen node order.
  It also proves that the built graph is exactly that meaning, the handshake
  lemma among them.
- `metrics.dfy`: the first maximum, the average degree and the density, with
  their properties.
- `paths.dfy`: breadth-first search as a level-by-level loop over a visited set
  and a frontier. It is proved equal to `Distance`, the least level at which
  the target is reached (`-1` if never). That level is in turn proved to be
  the length of a shortest walk.
- `histogram.dfy`: the bin edges `range(min, max + 2)` and the bar heights.
- `workflow.dfy`: rows to edges, with the `KeyError` path; `Analyze`, the
  meaning of the whole workflow; the imperative `BuildGraph`, `ComputeMetrics`
  and `Execute`, proved equal to it; and the three-node example
  Alice–Bob–Eve worked out in full.

Some of what the model rests on:

- Numbers are exact `real`s.
- The CSV reader is a parameter, `parse: string -> Result<seq<Row>>`, where a
  row maps column names to cell text.
- Bundle order is the dictionary's iteration order.

## Model

| member | source | states |
|---|---|---|
| FileSelection.Lower | chains/network_analysis.py:21 | `filename.lower()` on ASCII letters: no upper-case letter remains, and every character either stays or is an upper-case letter replaced by its lower-case partner |
| FileSelection.LowerKeepsCaseless | chains/network_analysis.py:21 | text without upper-case letters is its own lower-case form |
| FileSelection.LowerIdempotent | chains/network_analysis.py:21 | lower-casing twice is lower-casing once |
| FileSelection.LowerIgnoresCase | chains/network_analysis.py:21 | names that differ only in ASCII case lower-case to the same text |
| FileSelection.EdgesFileNameIgnoresCase | chains/network_analysis.py:21 | the filename test gives the same answer for names that differ only in ASCII case |
| FileSelection.MixedCaseNameMatches | chains/network_analysis.py:21 | `My_EDGES.Csv` passes the filename test |
| FileSelection.NodesFileDoesNotMatch | chains/network_analysis.py:21 | `nodes.csv` fails the filename test |
| FileSelection.Contains | chains/network_analysis.py:21 | `"edges" in name` holds exactly when the pattern occurs at some position of the name |
| FileSelection.SelectedIsFirstMatch | chains/network_analysis.py:19-23 | nothing is selected exactly when no filename matches; otherwise the content selected is that of the first matching file, and later matches are ignored |
| FileSelection.FindEdgesContent | chains/network_analysis.py:19-23 | the loop with `break` returns the first match's content, or none when no name matches |
| UndirectedGraph.DegreeView | chains/network_analysis.py:38 | `dict(G.degree())`: one entry per node, in insertion order, each holding that node's degree |
| UndirectedGraph.DegreeAfterLink | chains/network_analysis.py:34 | a new edge raises the degree of each endpoint by one, so a new self-loop raises its node's degree by two, and leaves every other degree alone |
| UndirectedGraph.TotalDegreeAfterLink | chains/network_analysis.py:34 | a new edge raises the degree sum over distinct listed nodes by one for each listed endpoint |
| UndirectedGraph.LinkExisting | chains/network_analysis.py:34 | adding an edge that is already present leaves the graph unchanged |
| UndirectedGraph.LinkWellFormed | chains/network_analysis.py:34 | `add_edge` keeps the graph well formed: distinct node order, the nodes are the adjacency keys, and adjacency is symmetric |
| UndirectedGraph.TotalDegreeBound | chains/network_analysis.py:40 | a degree sum is at most the node count times a bound on each degree |
| UndirectedGraph.Graph.constructor | chains/network_analysis.py:32 | `nx.Graph()` is an empty, well-formed graph |
| UndirectedGraph.Graph.AddEdge | chains/network_analysis.py:34 | `add_edge(u, v)` appends unseen `u` then unseen `v` to the node order, makes them neighbours, and keeps the graph well formed |
| EdgeList.AdjOfStep | chains/network_analysis.py:33-34 | one more row adds exactly its edge to the adjacency |
| EdgeList.EdgeIffNeighbour | chains/network_analysis.py:32-34 | `{u, v}` is an edge of the built graph exactly when `v` is a neighbour of `u` |
| EdgeList.FirstSeenNodes | chains/network_analysis.py:32-34 | the node order lists every row endpoint exactly once and nothing else |
| EdgeList.FirstIndex | chains/network_analysis.py:32-34 | the first position of a node in a sequence: the node is there, and at no earlier position; the length when it is absent |
| EdgeList.FirstIndexAppend | chains/network_analysis.py:32-34 | extending a sequence keeps the first position of every node it already held |
| EdgeList.AddNodeOrder | chains/network_analysis.py:34 | `add_edge` adding one more endpoint keeps the node order in order of first appearance |
| EdgeList.FirstSeenOrder | chains/network_analysis.py:32-34 | the node order is the order in which nodes first appear among the endpoints read row by row, `node1` before `node2` |
| EdgeList.GraphOfWellFormed | chains/network_analysis.py:32-34 | the graph built from any row list is well formed |
| EdgeList.Handshake | chains/network_analysis.py:37-38 | the degrees of all nodes add up to twice the number of distinct unordered pairs |
| EdgeList.RepeatedRowChangesNothing | chains/network_analysis.py:32-37 | a row repeating an existing edge, in either direction, changes neither the nodes, nor the adjacency, nor the edge set |
| EdgeList.NewRowAddsTwo | chains/network_analysis.py:32-38 | a row with a new pair adds one edge and exactly 2 to the degree sum |
| EdgeList.NodesOfNonEmpty | chains/network_analysis.py:38-40 | the node count equals the number of distinct endpoints, and there are nodes exactly when there are rows |
| EdgeList.DegreeBoundWithoutSelfLoops | chains/network_analysis.py:38 | without self-loops no degree exceeds the node count minus one |
| EdgeList.EdgeBoundWithoutSelfLoops | chains/network_analysis.py:37-41 | without self-loops, twice the edge count is at most n(n-1) |
| Metrics.HighestDegreeIndex | chains/network_analysis.py:39 | `max(degrees, key=degrees.get)` gives a node of maximal degree that no earlier node ties |
| Metrics.EarliestMaximum | chains/network_analysis.py:38-39 | over nodes in first-appearance order, the chosen node's degree is at least every node's, and larger than that of any node appearing before it |
| Metrics.HighestNodeIsEarliest | chains/network_analysis.py:32-39 | `highest_degree_node` is an endpoint of maximal degree, and every endpoint that first occurs earlier in the rows has a strictly smaller degree |
| Metrics.AverageIsTwiceEdgesPerNode | chains/network_analysis.py:40 | the average degree equals 2m/n for the built graph |
| Metrics.Density | chains/network_analysis.py:41 | density is non-negative; it is 0 with fewer than two nodes, and 2m/(n(n-1)) otherwise |
| Metrics.DensityInUnitInterval | chains/network_analysis.py:41 | without self-loops the density of the built graph lies in [0, 1] |
| Metrics.SelfLoopsExceedUnitDensity | chains/network_analysis.py:41 | with self-loops the bound fails: rows Alice,Alice, Bob,Bob and Alice,Bob give density 3 |
| ShortestPath.ReachMonotone | chains/network_analysis.py:45 | the set of nodes within k hops only grows with k |
| ShortestPath.WalkInReach | chains/network_analysis.py:45 | a walk of k edges reaches its end within k hops |
| ShortestPath.ReachHasWalk | chains/network_analysis.py:45 | every node within k hops ends a walk of at most k edges |
| ShortestPath.DistanceIsShortestWalk | chains/network_analysis.py:44-47 | the distance is -1 exactly when an endpoint is missing or no walk connects them; otherwise some walk has that many edges and none has fewer |
| ShortestPath.ShortestPathLength | chains/network_analysis.py:44-47 | the breadth-first search returns the distance, including the -1 sentinel |
| DegreeHistogram.MinOf | chains/network_analysis.py:85 | `min(degree_values)` is a member no larger than any value |
| DegreeHistogram.MaxOf | chains/network_analysis.py:85 | `max(degree_values)` is a member no smaller than any value |
| DegreeHistogram.BinsCoverEachValueOnce | chains/network_analysis.py:85 | the bin edges run from the minimum to one past the maximum in steps of 1, and each degree lies in exactly one bin |
| DegreeHistogram.FrequenciesSum | chains/network_analysis.py:85 | the counts of consecutive values that cover a list add up to its length |
| DegreeHistogram.BinCountsTotal | chains/network_analysis.py:85 | there is one bar per bin, and the bars add up to the number of nodes |
| NetworkAnalysis.RowEdgesMeaning | chains/network_analysis.py:33-34 | rows give edges exactly when every row has both columns, one edge per row in order; otherwise the error is the `KeyError` text of the first incomplete row's first missing column, `node1` before `node2` |
| NetworkAnalysis.RowEdgesFailureSticks | chains/network_analysis.py:33-34 | the first failing row ends the loop: later rows do not change the error |
| NetworkAnalysis.MetricsExactlyWhenInputUsable | chains/network_analysis.py:25-66 | for the modelled steps (selection, parsing, graph build and metrics), the result is a metrics record exactly when the first matching file is non-empty, parses, has a row and every row has both columns; otherwise it holds only an error |
| NetworkAnalysis.NotFoundWhenNoUsableFirstMatch | chains/network_analysis.py:25-26 | no matching name, or an empty first match, gives exactly the not-found error |
| NetworkAnalysis.RepeatedRowSameMetrics | chains/network_analysis.py:32-47 | repeating a row, as given or reversed, changes no metric |
| NetworkAnalysis.BuildGraph | chains/network_analysis.py:32-34 | the row loop builds a fresh well-formed graph whose nodes and adjacency are those of the rows' edges, or stops with the first `KeyError` |
| NetworkAnalysis.ComputeMetrics | chains/network_analysis.py:37-47 | the metrics of the built graph: edge count from the degree sum, first highest-degree node, average, density and distance |
| NetworkAnalysis.Execute | chains/network_analysis.py:12-66 | `execute` returns the result `Analyze` specifies, for every bundle and every parser outcome |
| NetworkAnalysis.MinimalMetrics | chains/network_analysis.py:37-47 | the rows Alice,Bob and Bob,Eve give 2 edges, highest-degree node Bob, average 4/3, density 2/3 and distance 2 |
| NetworkAnalysis.MinimalScenario | chains/network_analysis.py:19-60 | a bundle holding only `edges.csv` with those two rows gives exactly that metrics record |

## Left out

- CSV parsing (line 29) is a parameter. pandas' quoting, type inference and
  NaN cells are not modelled. Node identifiers are text, so numeric IDs that
  pandas would turn into integers are not distinguished.
- Graph drawing and image encoding (lines 50, 53, 61-62, 68-97, apart from the
  bin range on line 85). The success record here has no image fields, and the
  histogram bins are modelled on their own rather than as a step of `Execute`.
  Because lines 50 and 53 run inside the `try` of line 13, a failure while
  drawing or encoding (a node label that matplotlib cannot typeset, say) turns
  into an error record after the metrics were computed. The model does not
  produce that error, so NetworkAnalysis.MetricsExactlyWhenInputUsable's
  "exactly when" covers only the metric steps.
- The `async` signature, the `BaseWorkflow` base class and `task_description`,
  which is read but never used (lines 7, 12, 16). chains/base.py is not part of
  this model, and neither is run.py.
- A missing `additional_files` key (line 15) is the same as an empty bundle.
  A value that is not a mapping is not modelled.
- FileSelection.Lower lower-cases ASCII letters only and keeps the length.
  Python's `str.lower` changes other characters too, and can change the
  length: U+0130 becomes `i` followed by U+0307. The only non-ASCII characters
  whose lower-case form contains ASCII letters are U+0130 (`i`) and U+212A
  (`k`). Neither letter occurs in `edges` or `.csv`, so the filename test
  gives the same answer.
- Error texts that come from libraries are opaque strings. A failed parse
  carries the parser's own message. A missing column gives `str(KeyError)`,
  the quoted column name. An empty edge list gives the `ValueError` text of
  `max` on an empty sequence, whose wording depends on the Python version.
- Python floats are exact reals, so rounding in `average_degree` and
  `density` is not modelled.
- The bare `except:` on line 46 maps any error of `shortest_path_length` to
  -1. Only the two real cases are modelled: a missing endpoint and no path.
- Metrics.DensityInUnitInterval assumes no self-loops. With self-loops the
  networkx formula can exceed 1 (Metrics.SelfLoopsExceedUnitDensity), so a
  density in [0, 1] for every graph with two or more nodes does not hold. The
  model follows the code here.

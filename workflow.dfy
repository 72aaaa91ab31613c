/**
  `NetworkAnalysisWorkflow.execute` (chains/network_analysis.py, lines 12-66):
  select the edge-list file, read its rows, build the graph, compute the
  metrics, and return either the metrics record or a record holding only an
  error message. The two rendered images of the success record are not part
  of this model.
*/
module NetworkAnalysis {
  import opened Wrappers
  import opened FileSelection
  import opened UndirectedGraph
  import opened EdgeList
  import opened Metrics
  import opened ShortestPath

  /** One parsed CSV row: column name to cell text. */
  type Row = map<string, string>

  /** The CSV reader, a foreign component: the rows of a text, or its error message. */
  type Parser = string -> Result<seq<Row>>

  const NotFoundMessage := "edges.csv not found in uploaded files"

  /** The message of the `ValueError` that `max` raises on an empty degree map. */
  const EmptyGraphMessage := "max() arg is an empty sequence"

  const PathSource: Node := "Alice"
  const PathTarget: Node := "Eve"

  /** `str(KeyError(column))`: the column name in single quotes. */
  function KeyErrorMessage(column: string): string {
    "'" + column + "'"
  }

  /** The dictionary the workflow returns: the metrics, or only `error`. */
  datatype Response =
    | MetricsRecord(edgeCount: nat, highestDegreeNode: Node, averageDegree: real,
              density: real, shortestPathAliceEve: int)
    | Error(message: string)

  /** The `node1`, `node2` lookups of line 34 over every row; the first missing column fails. */
  function RowEdges(rows: seq<Row>): Result<seq<Edge>> {
    if rows == [] then Success([])
    else
      match RowEdges(rows[..|rows| - 1])
      case Failure(m) => Failure(m)
      case Success(es) =>
        var row := rows[|rows| - 1];
        if "node1" !in row then Failure(KeyErrorMessage("node1"))
        else if "node2" !in row then Failure(KeyErrorMessage("node2"))
        else Success(es + [(row["node1"], row["node2"])])
  }

  predicate HasColumns(row: Row) {
    "node1" in row && "node2" in row
  }

  /**
    The rows give edges exactly when every row has both columns, one edge per
    row in order; otherwise the error names the first missing column of the
    first incomplete row, `node1` before `node2`.
  */
  lemma {:induction false} RowEdgesMeaning(rows: seq<Row>)
    ensures RowEdges(rows).Success? <==> forall i :: 0 <= i < |rows| ==> HasColumns(rows[i])
    ensures RowEdges(rows).Success? ==>
              |RowEdges(rows).value| == |rows| &&
              forall i :: 0 <= i < |rows| ==>
                RowEdges(rows).value[i] == (rows[i]["node1"], rows[i]["node2"])
    ensures RowEdges(rows).Failure? ==>
              exists i :: 0 <= i < |rows| && !HasColumns(rows[i]) &&
                (forall j :: 0 <= j < i ==> HasColumns(rows[j])) &&
                RowEdges(rows).error ==
                  KeyErrorMessage(if "node1" !in rows[i] then "node1" else "node2")
  {
    if rows != [] {
      var init := rows[..|rows| - 1];
      RowEdgesMeaning(init);
      assert forall i :: 0 <= i < |init| ==> init[i] == rows[i];
    }
  }

  /** An error in a prefix of the rows is the error of all the rows. */
  lemma {:induction false} RowEdgesFailureSticks(rows: seq<Row>, n: nat)
    requires n <= |rows| && RowEdges(rows[..n]).Failure?
    ensures RowEdges(rows) == RowEdges(rows[..n])
    decreases |rows| - n
  {
    if n < |rows| {
      var init := rows[..|rows| - 1];
      assert init[..n] == rows[..n];
      RowEdgesFailureSticks(init, n);
    } else {
      assert rows[..n] == rows;
    }
  }

  /** The metrics of the graph built from a non-empty edge list. */
  ghost function MetricsOf(es: seq<Edge>): Response
    requires es != []
  {
    var ns, adj := FirstSeen(es), AdjOf(es);
    NodesOfNonEmpty(es);
    var d := DegreeView(ns, adj);
    MetricsRecord(|EdgeSet(es)|, HighestNode(es), AverageDegree(d),
            Density(|ns|, |EdgeSet(es)|), Distance(adj, PathSource, PathTarget))
  }

  /** What `execute` returns, stated through the meaning of each step. */
  ghost function Analyze(files: Bundle, parse: Parser): Response {
    match SelectedContent(files)
    case None => Error(NotFoundMessage)
    case Some(content) =>
      if content == "" then Error(NotFoundMessage)
      else
        match parse(content)
        case Failure(m) => Error(m)
        case Success(rows) =>
          match RowEdges(rows)
          case Failure(m) => Error(m)
          case Success(es) => if es == [] then Error(EmptyGraphMessage) else MetricsOf(es)
  }

  /**
    The result is a metrics record exactly when a matching file with non-empty
    content exists, its text parses, it has at least one row and every row
    has both columns; otherwise it is a record holding only an error.
  */
  lemma MetricsExactlyWhenInputUsable(files: Bundle, parse: Parser)
    ensures Analyze(files, parse).MetricsRecord? <==>
              && SelectedContent(files).Some?
              && SelectedContent(files).value != ""
              && parse(SelectedContent(files).value).Success?
              && |parse(SelectedContent(files).value).value| > 0
              && forall i :: 0 <= i < |parse(SelectedContent(files).value).value| ==>
                   HasColumns(parse(SelectedContent(files).value).value[i])
  {
    match SelectedContent(files)
    case None =>
    case Some(content) =>
      match parse(content)
      case Failure(_) =>
      case Success(rows) =>
        RowEdgesMeaning(rows);
  }

  /**
    When no filename matches, or the first matching file is empty, the result
    is the not-found error, whatever later files hold.
  */
  lemma NotFoundWhenNoUsableFirstMatch(files: Bundle, parse: Parser)
    requires (forall j :: 0 <= j < |files| ==> !IsEdgesFileName(files[j].0)) ||
             (exists i :: IsFirstMatch(files, i) && files[i].1 == "")
    ensures Analyze(files, parse) == Error(NotFoundMessage)
  {
    SelectedIsFirstMatch(files);
    if exists i :: IsFirstMatch(files, i) && files[i].1 == "" {
      var i :| IsFirstMatch(files, i) && files[i].1 == "";
      var k :| IsFirstMatch(files, k) && SelectedContent(files).value == files[k].1;
      assert i == k;
    }
  }

  /**
    A row repeating an earlier row, as given or reversed, changes no metric:
    the graph is simple and undirected.
  */
  lemma RepeatedRowSameMetrics(es: seq<Edge>, i: nat, e: Edge)
    requires i < |es| && (e == es[i] || e == (es[i].1, es[i].0))
    ensures MetricsOf(es + [e]) == MetricsOf(es)
  {
    assert {e.0, e.1} == {es[i].0, es[i].1};
    RepeatedRowChangesNothing(es, e);
  }

  /**
    The loop of lines 32-34: one `add_edge` per row, failing at the first row
    without a `node1` or `node2` value.
  */
  method BuildGraph(rows: seq<Row>) returns (g: Graph, err: Option<string>)
    ensures fresh(g) && g.Valid()
    ensures RowEdges(rows).Failure? ==> err == Some(RowEdges(rows).error)
    ensures RowEdges(rows).Success? ==>
              err == None && g.nodes == FirstSeen(RowEdges(rows).value) &&
              g.adj == AdjOf(RowEdges(rows).value)
  {
    g := new Graph();
    ghost var es: seq<Edge> := [];
    assert AdjOf(es) == map[];
    var i := 0;
    while i < |rows|
      invariant 0 <= i <= |rows|
      invariant fresh(g) && g.Valid()
      invariant RowEdges(rows[..i]) == Success(es)
      invariant g.nodes == FirstSeen(es) && g.adj == AdjOf(es)
    {
      var row := rows[i];
      assert rows[..i + 1][..i] == rows[..i];
      if "node1" !in row || "node2" !in row {
        RowEdgesFailureSticks(rows, i + 1);
        err := Some(KeyErrorMessage(if "node1" !in row then "node1" else "node2"));
        return;
      }
      g.AddEdge(row["node1"], row["node2"]);
      FirstSeenStep(es, (row["node1"], row["node2"]));
      AdjOfStep(es, (row["node1"], row["node2"]));
      es := es + [(row["node1"], row["node2"])];
      i := i + 1;
    }
    assert rows[..i] == rows;
    err := None;
  }

  /** The metric lines 37-47 on a built graph with at least one node. */
  method ComputeMetrics(g: Graph, ghost es: seq<Edge>) returns (r: Response)
    requires es != [] && g.nodes == FirstSeen(es) && g.adj == AdjOf(es)
    ensures r == MetricsOf(es)
  {
    var ns, adj := g.nodes, g.adj;
    NodesOfNonEmpty(es);
    var degrees := DegreeView(ns, adj);
    Handshake(es);
    var edgeCount := SumDegrees(degrees) / 2;
    assert edgeCount == |EdgeSet(es)|;
    var highest := degrees[HighestDegreeIndex(degrees)].0;
    assert highest == HighestNode(es);
    var average := AverageDegree(degrees);
    var density := Density(|ns|, edgeCount);
    var shortest := ShortestPathLength(adj, PathSource, PathTarget);
    r := MetricsRecord(edgeCount, highest, average, density, shortest);
  }

  /** `execute`: every failure becomes a record holding only its message. */
  method Execute(files: Bundle, parse: Parser) returns (r: Response)
    ensures r == Analyze(files, parse)
  {
    var content := FindEdgesContent(files);
    if content.None? || content.value == "" {
      return Error(NotFoundMessage);
    }
    var parsed := parse(content.value);
    if parsed.Failure? {
      return Error(parsed.error);
    }
    var g, err := BuildGraph(parsed.value);
    if err.Some? {
      return Error(err.value);
    }
    ghost var es := RowEdges(parsed.value).value;
    NodesOfNonEmpty(es);
    if |g.nodes| == 0 {
      return Error(EmptyGraphMessage);
    }
    r := ComputeMetrics(g, es);
  }

  /** The adjacency of the path Alice - Bob - Eve. */
  const MinimalGraph: Adjacency :=
    map["Alice" := {"Bob"}, "Bob" := {"Alice", "Eve"}, "Eve" := {"Bob"}]

  const MinimalCsv := "node1,node2\nAlice,Bob\nBob,Eve\n"

  lemma DistinctNames()
    ensures "Alice" != "Bob" && "Bob" != "Eve" && "Alice" != "Eve"
  {
    assert "Bob"[0] != "Eve"[0];
  }

  /** The graph of the rows Alice,Bob and Bob,Eve: its node order, ... */
  lemma MinimalOrder()
    ensures FirstSeen([("Alice", "Bob"), ("Bob", "Eve")]) == ["Alice", "Bob", "Eve"]
  {
    var e1, e2 := ("Alice", "Bob"), ("Bob", "Eve");
    DistinctNames();
    assert [e1] == [] + [e1];
    assert [e1, e2] == [e1] + [e2];
    FirstSeenStep([], e1);
    FirstSeenStep([e1], e2);
    assert FirstSeen([e1]) == ["Alice", "Bob"];
  }

  /** The first row links Alice and Bob ... */
  lemma MinimalFirstLink()
    ensures Link(map[], "Alice", "Bob") == map["Alice" := {"Bob"}, "Bob" := {"Alice"}]
  {
    DistinctNames();
    var empty: Adjacency := map[];
    assert NeighboursIn(empty, "Alice") == {};
    var none: set<Node> := {};
    assert none + {"Bob"} == {"Bob"};
    var a1: Adjacency := map["Alice" := {"Bob"}];
    assert empty["Alice" := none + {"Bob"}] == a1;
    assert NeighboursIn(a1, "Bob") == {};
    assert none + {"Alice"} == {"Alice"};
    assert a1["Bob" := none + {"Alice"}] == map["Alice" := {"Bob"}, "Bob" := {"Alice"}];
  }

  /** ... the second links Bob and Eve ... */
  lemma MinimalSecondLink()
    ensures Link(map["Alice" := {"Bob"}, "Bob" := {"Alice"}], "Bob", "Eve") == MinimalGraph
  {
    DistinctNames();
    var g1: Adjacency := map["Alice" := {"Bob"}, "Bob" := {"Alice"}];
    assert NeighboursIn(g1, "Bob") == {"Alice"};
    assert {"Alice"} + {"Eve"} == {"Alice", "Eve"};
    var a2: Adjacency := map["Alice" := {"Bob"}, "Bob" := {"Alice", "Eve"}];
    assert g1["Bob" := {"Alice"} + {"Eve"}] == a2;
    assert NeighboursIn(a2, "Eve") == {};
    var none: set<Node> := {};
    assert none + {"Bob"} == {"Bob"};
    assert a2["Eve" := none + {"Bob"}] == MinimalGraph;
  }

  /** ... so that together they give the adjacency of the path ... */
  lemma MinimalAdjacency()
    ensures AdjOf([("Alice", "Bob"), ("Bob", "Eve")]) == MinimalGraph
  {
    var e1, e2 := ("Alice", "Bob"), ("Bob", "Eve");
    assert [e1] == [] + [e1];
    assert [e1, e2] == [e1] + [e2];
    assert AdjOf([]) == map[];
    AdjOfStep([], e1);
    AdjOfStep([e1], e2);
    MinimalFirstLink();
    MinimalSecondLink();
  }

  /** ... and its two edges. */
  lemma MinimalEdges()
    ensures |EdgeSet([("Alice", "Bob"), ("Bob", "Eve")])| == 2
  {
    var e1, e2 := ("Alice", "Bob"), ("Bob", "Eve");
    DistinctNames();
    assert [e1] == [] + [e1];
    assert [e1, e2] == [e1] + [e2];
    assert EdgeSet([]) == {};
    EdgeSetStep([], e1);
    EdgeSetStep([e1], e2);
    assert EdgeSet([e1, e2]) == {{"Alice", "Bob"}, {"Bob", "Eve"}};
    assert "Alice" !in {"Bob", "Eve"};
  }

  /** In that graph Eve is first reached at the second level from Alice. */
  lemma MinimalDistance()
    ensures Distance(MinimalGraph, "Alice", "Eve") == 2
  {
    var adj := MinimalGraph;
    DistinctNames();
    assert Reach(adj, "Alice", 0) == {"Alice"};
    assert "Bob" in adj["Alice"];
    assert Successors(adj, {"Alice"}) == {"Bob"};
    assert Reach(adj, "Alice", 1) == {"Alice", "Bob"};
    assert "Eve" in adj["Bob"];
    assert "Eve" in Successors(adj, {"Alice", "Bob"});
    assert "Eve" in Reach(adj, "Alice", 2);
    assert IsLevel(adj, "Alice", "Eve", 2);
    DistanceOfLevel(adj, "Alice", "Eve", 2);
  }

  /** The minimal bundle reaches the metrics of its two rows. */
  lemma MinimalPipeline(parse: Parser)
    requires parse(MinimalCsv) ==
             Success([map["node1" := "Alice", "node2" := "Bob"],
                      map["node1" := "Bob", "node2" := "Eve"]])
    ensures Analyze([("edges.csv", MinimalCsv)], parse) ==
            MetricsOf([("Alice", "Bob"), ("Bob", "Eve")])
  {
    assert Lower("edges.csv") == "edges.csv";
    assert OccursAt("edges.csv", "edges", 0);
    assert IsEdgesFileName("edges.csv");
    var rows := [map["node1" := "Alice", "node2" := "Bob"], map["node1" := "Bob", "node2" := "Eve"]];
    var es := [("Alice", "Bob"), ("Bob", "Eve")];
    assert "node1" != "node2" by {
      assert "node1"[4] != "node2"[4];
    }
    assert HasColumns(rows[0]) && HasColumns(rows[1]);
    RowEdgesMeaning(rows);
    assert RowEdges(rows).value == es;
  }

  /** Its degree view in node order ... */
  lemma MinimalView()
    ensures DegreeView(["Alice", "Bob", "Eve"], MinimalGraph) ==
            [("Alice", 1), ("Bob", 2), ("Eve", 1)]
  {
    DistinctNames();
    assert Degree(MinimalGraph, "Alice") == 1;
    assert Degree(MinimalGraph, "Bob") == 2;
    assert Degree(MinimalGraph, "Eve") == 1;
  }

  /** ... and the figures drawn from it. */
  lemma MinimalFigures()
    ensures HighestDegreeIndex([("Alice", 1), ("Bob", 2), ("Eve", 1)]) == 1
    ensures AverageDegree([("Alice", 1), ("Bob", 2), ("Eve", 1)]) == 4.0 / 3.0
    ensures Density(3, 2) == 2.0 / 3.0
  {
    var d: seq<(Node, nat)> := [("Alice", 1), ("Bob", 2), ("Eve", 1)];
    assert d[..2][..1][..0] == [];
    assert SumDegrees(d[..2][..1]) == 1;
    assert SumDegrees(d[..2]) == 3;
    assert SumDegrees(d) == 4;
  }

  /** The metrics of the rows Alice,Bob and Bob,Eve. */
  lemma MinimalMetrics()
    ensures MetricsOf([("Alice", "Bob"), ("Bob", "Eve")]) ==
            MetricsRecord(2, "Bob", 4.0 / 3.0, 2.0 / 3.0, 2)
  {
    MinimalOrder();
    MinimalAdjacency();
    MinimalEdges();
    MinimalDistance();
    MinimalView();
    MinimalFigures();
  }

  /**
    The path Alice - Bob - Eve: two edges, Bob has the highest degree, the
    average degree is 4/3, the density 2/3 and Eve is two hops from Alice.
  */
  lemma MinimalScenario(parse: Parser)
    requires parse(MinimalCsv) ==
             Success([map["node1" := "Alice", "node2" := "Bob"],
                      map["node1" := "Bob", "node2" := "Eve"]])
    ensures Analyze([("edges.csv", MinimalCsv)], parse) ==
            MetricsRecord(2, "Bob", 4.0 / 3.0, 2.0 / 3.0, 2)
  {
    MinimalPipeline(parse);
    MinimalMetrics();
  }
}

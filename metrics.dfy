/**
  The metrics computed on the finished graph
  (chains/network_analysis.py, lines 37-41): the node of highest degree, the
  average degree and the density. Python floats are modelled as exact reals.
*/
module Metrics {
  import opened UndirectedGraph
  import opened EdgeList

  /**
    `max(degrees, key=degrees.get)`: the position of a maximal degree; among
    equal maxima the earliest one in the view, which Python's `max` keeps
    because it only replaces its candidate on a strictly larger key.
  */
  function HighestDegreeIndex(d: seq<(Node, nat)>): (k: nat)
    requires |d| > 0
    ensures k < |d|
    ensures forall j :: 0 <= j < |d| ==> d[j].1 <= d[k].1
    ensures forall j :: 0 <= j < k ==> d[j].1 < d[k].1
  {
    if |d| == 1 then 0
    else
      var k := HighestDegreeIndex(d[..|d| - 1]);
      if d[|d| - 1].1 > d[k].1 then |d| - 1 else k
  }

  /**
    When the nodes are listed in first-appearance order, the chosen node's
    degree is at least that of node `i`, and larger when node `i` first
    appears before it.
  */
  lemma EarliestMaximum(ns: seq<Node>, adj: Adjacency, xs: seq<Node>, i: nat)
    requires i < |ns| && InFirstAppearanceOrder(ns, xs)
    ensures var h := ns[HighestDegreeIndex(DegreeView(ns, adj))];
      && Degree(adj, ns[i]) <= Degree(adj, h)
      && (FirstIndex(xs, ns[i]) < FirstIndex(xs, h) ==> Degree(adj, ns[i]) < Degree(adj, h))
  {
    var d := DegreeView(ns, adj);
    var k := HighestDegreeIndex(d);
    assert d[i].1 <= d[k].1;
    if FirstIndex(xs, ns[i]) < FirstIndex(xs, ns[k]) {
      assert !(k <= i);
      assert d[i].1 < d[k].1;
    }
  }

  /** The node of highest degree in the graph of `es`, as `max` picks it. */
  function HighestNode(es: seq<Edge>): Node
    requires es != []
  {
    NodesOfNonEmpty(es);
    var ns := FirstSeen(es);
    ns[HighestDegreeIndex(DegreeView(ns, AdjOf(es)))]
  }

  /**
    The node of highest degree is an endpoint of maximal degree, and every
    endpoint that first occurs earlier in the rows has a strictly smaller degree.
  */
  lemma HighestNodeIsEarliest(es: seq<Edge>)
    requires es != []
    ensures var h, adj, xs := HighestNode(es), AdjOf(es), EndpointList(es);
      && h in Endpoints(es)
      && (forall x :: x in Endpoints(es) ==> Degree(adj, x) <= Degree(adj, h))
      && (forall x :: x in Endpoints(es) && FirstIndex(xs, x) < FirstIndex(xs, h) ==>
            Degree(adj, x) < Degree(adj, h))
  {
    var ns, adj, xs := FirstSeen(es), AdjOf(es), EndpointList(es);
    NodesOfNonEmpty(es);
    FirstSeenNodes(es);
    FirstSeenOrder(es);
    var h := HighestNode(es);
    forall x | x in Endpoints(es)
      ensures Degree(adj, x) <= Degree(adj, h)
      ensures FirstIndex(xs, x) < FirstIndex(xs, h) ==> Degree(adj, x) < Degree(adj, h)
    {
      var i :| 0 <= i < |ns| && ns[i] == x;
      EarliestMaximum(ns, adj, xs, i);
    }
  }

  /** `sum(degrees.values()) / len(degrees)`. */
  function AverageDegree(d: seq<(Node, nat)>): real
    requires |d| > 0
  {
    (SumDegrees(d) as real) / (|d| as real)
  }

  /**
    `nx.density(G)` for an undirected graph with `n` nodes and `m` edges:
    0 when there are no edges or fewer than two nodes, 2m / (n(n-1)) otherwise.
  */
  function Density(n: nat, m: nat): (r: real)
    ensures r >= 0.0
    ensures n < 2 ==> r == 0.0
    ensures n >= 2 ==> r == (2 * m) as real / ((n * (n - 1)) as real)
  {
    if m == 0 || n <= 1 then 0.0
    else (m as real) / ((n * (n - 1)) as real) * 2.0
  }

  /** The average degree of the built graph is twice its edge count over its node count. */
  lemma AverageIsTwiceEdgesPerNode(es: seq<Edge>)
    requires es != []
    ensures |DegreeView(FirstSeen(es), AdjOf(es))| > 0
    ensures AverageDegree(DegreeView(FirstSeen(es), AdjOf(es))) ==
            (2 * |EdgeSet(es)|) as real / (|FirstSeen(es)| as real)
  {
    NodesOfNonEmpty(es);
    Handshake(es);
  }

  /**
    Without self-loops the density of the built graph lies in [0, 1], and it is
    0 when there are fewer than two nodes.
  */
  lemma DensityInUnitInterval(es: seq<Edge>)
    requires forall i :: 0 <= i < |es| ==> es[i].0 != es[i].1
    ensures 0.0 <= Density(|FirstSeen(es)|, |EdgeSet(es)|) <= 1.0
  {
    var n, m := |FirstSeen(es)|, |EdgeSet(es)|;
    EdgeBoundWithoutSelfLoops(es);
    if m != 0 && n > 1 {
      var p := n * (n - 1);
      assert p > 0 by {
        assert n - 1 >= 1;
      }
      HalfRatioAtMostOne(m as real, p as real);
    }
  }

  lemma HalfRatioAtMostOne(a: real, p: real)
    requires 0.0 <= a && 0.0 < p && 2.0 * a <= p
    ensures 0.0 <= a / p * 2.0 <= 1.0
  {
    var r := a / p * 2.0;
    assert r * p == 2.0 * a;
  }

  /** The rows Alice,Alice and Bob,Bob and Alice,Bob list two nodes ... */
  lemma SelfLoopNodes()
    ensures FirstSeen([("Alice", "Alice"), ("Bob", "Bob"), ("Alice", "Bob")]) == ["Alice", "Bob"]
  {
    var e1, e2, e3 := ("Alice", "Alice"), ("Bob", "Bob"), ("Alice", "Bob");
    assert "Alice" != "Bob" by {
      assert "Alice"[0] != "Bob"[0];
    }
    assert [e1] == [] + [e1];
    assert [e1, e2] == [e1] + [e2];
    assert [e1, e2, e3] == [e1, e2] + [e3];
    FirstSeenStep([], e1);
    FirstSeenStep([e1], e2);
    FirstSeenStep([e1, e2], e3);
  }

  /** ... two self-loops, as their first two rows ... */
  lemma SelfLoopPair()
    ensures EdgeSet([("Alice", "Alice"), ("Bob", "Bob")]) == {{"Alice"}, {"Bob"}}
    ensures |EdgeSet([("Alice", "Alice"), ("Bob", "Bob")])| == 2
  {
    var e1, e2 := ("Alice", "Alice"), ("Bob", "Bob");
    assert "Alice" != "Bob" by {
      assert "Alice"[0] != "Bob"[0];
    }
    var a, b: set<Node> := {"Alice"}, {"Bob"};
    assert {e1.0, e1.1} == a && {e2.0, e2.1} == b;
    assert [e1] == [] + [e1];
    assert [e1, e2] == [e1] + [e2];
    assert EdgeSet([]) == {};
    EdgeSetStep([], e1);
    EdgeSetStep([e1], e2);
    assert "Alice" !in b;
  }

  /** ... and three edges in all ... */
  lemma SelfLoopEdges()
    ensures |EdgeSet([("Alice", "Alice"), ("Bob", "Bob"), ("Alice", "Bob")])| == 3
  {
    var es, e3 := [("Alice", "Alice"), ("Bob", "Bob")], ("Alice", "Bob");
    SelfLoopPair();
    var ab: set<Node> := {"Alice", "Bob"};
    assert {e3.0, e3.1} == ab;
    assert "Alice" != "Bob" by {
      assert "Alice"[0] != "Bob"[0];
    }
    assert "Bob" in ab && "Alice" in ab && "Bob" !in {"Alice"} && "Alice" !in {"Bob"};
    assert ab !in EdgeSet(es);
    assert es + [e3] == [("Alice", "Alice"), ("Bob", "Bob"), ("Alice", "Bob")];
    EdgeSetStep(es, e3);
  }

  /**
    ... so with self-loops the bound fails: their density is 3, not in [0, 1].
  */
  lemma SelfLoopsExceedUnitDensity()
    ensures var es := [("Alice", "Alice"), ("Bob", "Bob"), ("Alice", "Bob")];
            Density(|FirstSeen(es)|, |EdgeSet(es)|) == 3.0
  {
    SelfLoopNodes();
    SelfLoopEdges();
  }
}

/**
  The simple undirected graph that the workflow builds row by row
  (chains/network_analysis.py, lines 32-34), following the data layout of a
  networkx `Graph`: the nodes in the order they were first added and, for every
  node, the set of its neighbours. A self-loop at `n` puts `n` among its own
  neighbours; adding an edge that is already present changes nothing.
*/
module UndirectedGraph {

  type Node = string

  /** Neighbour sets, keyed by node. */
  type Adjacency = map<Node, set<Node>>

  predicate Distinct(ns: seq<Node>) {
    forall i, j :: 0 <= i < j < |ns| ==> ns[i] != ns[j]
  }

  /** The neighbours of `x`, empty when `x` is not a node. */
  function NeighboursIn(adj: Adjacency, x: Node): set<Node> {
    if x in adj then adj[x] else {}
  }

  /** Appending `x` to the insertion order unless it is already there. */
  function AddNode(ns: seq<Node>, x: Node): seq<Node> {
    if x in ns then ns else ns + [x]
  }

  /** The adjacency after adding the undirected edge {u, v}. */
  function Link(adj: Adjacency, u: Node, v: Node): Adjacency {
    var a := adj[u := NeighboursIn(adj, u) + {v}];
    a[v := NeighboursIn(a, v) + {u}]
  }

  /**
    The degree of a node as networkx counts it: one per neighbour, and one more
    when the node is its own neighbour, so that a self-loop counts twice.
    A node that is not in the graph has degree 0.
  */
  function Degree(adj: Adjacency, n: Node): nat {
    |NeighboursIn(adj, n)| + (if n in NeighboursIn(adj, n) then 1 else 0)
  }

  /** `dict(G.degree())`: (node, degree) pairs in node insertion order. */
  function DegreeView(ns: seq<Node>, adj: Adjacency): (d: seq<(Node, nat)>)
    ensures |d| == |ns|
    ensures forall i :: 0 <= i < |ns| ==> d[i] == (ns[i], Degree(adj, ns[i]))
  {
    if ns == [] then []
    else DegreeView(ns[..|ns| - 1], adj) + [(ns[|ns| - 1], Degree(adj, ns[|ns| - 1]))]
  }

  /** `sum(degrees.values())`. */
  function SumDegrees(d: seq<(Node, nat)>): nat {
    if d == [] then 0 else SumDegrees(d[..|d| - 1]) + d[|d| - 1].1
  }

  /** The sum of the degrees of the listed nodes. */
  function TotalDegree(ns: seq<Node>, adj: Adjacency): nat {
    SumDegrees(DegreeView(ns, adj))
  }

  lemma TotalDegreeAppend(ns: seq<Node>, adj: Adjacency, x: Node)
    ensures TotalDegree(ns + [x], adj) == TotalDegree(ns, adj) + Degree(adj, x)
  {
    assert (ns + [x])[..|ns|] == ns;
    var d := DegreeView(ns + [x], adj);
    assert d[..|d| - 1] == DegreeView(ns, adj);
  }

  /** Listing a node that is already listed changes nothing; a new one adds its degree. */
  lemma TotalDegreeAddNode(ns: seq<Node>, adj: Adjacency, x: Node)
    ensures TotalDegree(AddNode(ns, x), adj) ==
            TotalDegree(ns, adj) + (if x in ns then 0 else Degree(adj, x))
  {
    if x !in ns {
      TotalDegreeAppend(ns, adj, x);
    }
  }

  /**
    Adding a new edge {u, v} raises the degree of u and of v by one each, and
    so the degree of a new self-loop's node by two.
  */
  lemma DegreeAfterLink(adj: Adjacency, u: Node, v: Node, n: Node)
    requires v !in NeighboursIn(adj, u) && u !in NeighboursIn(adj, v)
    ensures Degree(Link(adj, u, v), n) ==
            Degree(adj, n) + (if n == u then 1 else 0) + (if n == v then 1 else 0)
  {
    var a := adj[u := NeighboursIn(adj, u) + {v}];
    var l := a[v := NeighboursIn(a, v) + {u}];
    assert l == Link(adj, u, v);
    var before := NeighboursIn(adj, n);
    var after := NeighboursIn(l, n);
    if n == u && n == v {
      assert after == before + {n};
      assert n !in before;
    } else if n == u {
      assert after == before + {v};
      assert v !in before;
      assert n in after <==> n in before;
    } else if n == v {
      assert NeighboursIn(a, v) == before;
      assert after == before + {u};
      assert u !in before;
      assert n in after <==> n in before;
    } else {
      assert after == before;
    }
  }

  /** Adding a new edge raises the degree total by one for each listed endpoint. */
  lemma {:induction false} TotalDegreeAfterLink(ns: seq<Node>, adj: Adjacency, u: Node, v: Node)
    requires Distinct(ns)
    requires v !in NeighboursIn(adj, u) && u !in NeighboursIn(adj, v)
    ensures TotalDegree(ns, Link(adj, u, v)) ==
            TotalDegree(ns, adj) + (if u in ns then 1 else 0) + (if v in ns then 1 else 0)
  {
    if ns != [] {
      var init, y := ns[..|ns| - 1], ns[|ns| - 1];
      assert ns == init + [y];
      TotalDegreeAfterLink(init, adj, u, v);
      TotalDegreeAppend(init, adj, y);
      TotalDegreeAppend(init, Link(adj, u, v), y);
      DegreeAfterLink(adj, u, v, y);
      assert u in ns <==> u in init || u == y;
      assert v in ns <==> v in init || v == y;
      assert y !in init;
    }
  }

  /** Adding an edge that is already present leaves the adjacency unchanged. */
  lemma LinkExisting(adj: Adjacency, u: Node, v: Node)
    requires v in NeighboursIn(adj, u) && u in NeighboursIn(adj, v)
    ensures Link(adj, u, v) == adj
  {
    assert u in adj && v in adj;
    assert adj[u] + {v} == adj[u];
    var a := adj[u := NeighboursIn(adj, u) + {v}];
    assert a == adj;
    assert a[v] + {u} == a[v];
  }

  /** Every listed node of degree at most `b` bounds the total by `|ns| * b`. */
  lemma {:induction false} TotalDegreeBound(ns: seq<Node>, adj: Adjacency, b: nat)
    requires forall n :: n in ns ==> Degree(adj, n) <= b
    ensures TotalDegree(ns, adj) <= |ns| * b
  {
    if ns != [] {
      var init, y := ns[..|ns| - 1], ns[|ns| - 1];
      assert ns == init + [y];
      assert y in ns;
      TotalDegreeBound(init, adj, b);
      TotalDegreeAppend(init, adj, y);
      MulSucc(|init|, b);
    }
  }

  lemma MulSucc(n: nat, b: nat)
    ensures (n + 1) * b == n * b + b
  {
  }

  /** A distinct listing has as many entries as it has elements. */
  lemma {:induction false} DistinctCardinality(ns: seq<Node>)
    requires Distinct(ns)
    ensures |set x | x in ns| == |ns|
  {
    if ns != [] {
      var init, y := ns[..|ns| - 1], ns[|ns| - 1];
      assert ns == init + [y];
      DistinctCardinality(init);
      assert (set x | x in ns) == (set x | x in init) + {y};
    }
  }

  /**
    Every node is listed once, the listed nodes are exactly the keys of the
    adjacency, and the neighbour relation is symmetric.
  */
  ghost predicate WellFormed(ns: seq<Node>, adj: Adjacency) {
    && Distinct(ns)
    && (forall x :: x in adj <==> x in ns)
    && (forall x, y :: x in adj && y in adj[x] ==> y in adj && x in adj[y])
  }

  /** Adding an edge keeps a graph well formed. */
  lemma LinkWellFormed(ns: seq<Node>, adj: Adjacency, u: Node, v: Node)
    requires WellFormed(ns, adj)
    ensures WellFormed(AddNode(AddNode(ns, u), v), Link(adj, u, v))
  {
    var ns' := AddNode(AddNode(ns, u), v);
    assert forall x :: x in ns' <==> x in ns || x == u || x == v;
    var adj' := Link(adj, u, v);
    forall x, y | x in adj' && y in adj'[x] ensures y in adj' && x in adj'[y] {
      if x != u && x != v {
        assert adj'[x] == adj[x];
      }
    }
  }

  /**
    A networkx `Graph` as the workflow uses it: `nodes` holds every node once,
    in the order it was first added, and `adj` holds a symmetric neighbour
    relation over exactly those nodes.
  */
  class Graph {
    var nodes: seq<Node>
    var adj: Adjacency

    ghost predicate Valid()
      reads this
    {
      WellFormed(nodes, adj)
    }

    /** `nx.Graph()`: the empty graph. */
    constructor ()
      ensures Valid()
      ensures nodes == [] && adj == map[]
    {
      nodes := [];
      adj := map[];
    }

    /**
      `G.add_edge(u, v)`: `u`, then `v`, are added as nodes when new, and each
      becomes a neighbour of the other.
    */
    method AddEdge(u: Node, v: Node)
      requires Valid()
      modifies this
      ensures Valid()
      ensures nodes == AddNode(AddNode(old(nodes), u), v)
      ensures adj == Link(old(adj), u, v)
    {
      ghost var adj0, nodes0 := adj, nodes;
      var a, ns := adj, nodes;
      if u !in a {
        a := a[u := {}];
        ns := ns + [u];
      }
      if v !in a {
        a := a[v := {}];
        ns := ns + [v];
      }
      a := a[u := a[u] + {v}];
      a := a[v := a[v] + {u}];
      assert a == Link(adj0, u, v);
      LinkWellFormed(nodes0, adj0, u, v);
      adj, nodes := a, ns;
    }
  }
}

/**
  What the graph built from a list of edge rows is, stated declaratively:
  its nodes are the row endpoints, its edges are the rows read as unordered
  pairs, and the neighbours of a node are the other endpoints of its rows.
  The insertion order of the nodes is the order in which they first appear.
*/
module EdgeList {
  import opened UndirectedGraph

  /** One row of the edge list: its `node1` and `node2` values. */
  type Edge = (Node, Node)

  function Endpoints(es: seq<Edge>): set<Node> {
    (set i | 0 <= i < |es| :: es[i].0) + (set i | 0 <= i < |es| :: es[i].1)
  }

  /** The distinct undirected edges: every row as an unordered pair (one element for a self-loop). */
  function EdgeSet(es: seq<Edge>): set<set<Node>> {
    set i | 0 <= i < |es| :: {es[i].0, es[i].1}
  }

  function Neighbours(es: seq<Edge>, n: Node): set<Node> {
    (set i | 0 <= i < |es| && es[i].0 == n :: es[i].1) +
    (set i | 0 <= i < |es| && es[i].1 == n :: es[i].0)
  }

  /** The adjacency of the graph of `es`. */
  function AdjOf(es: seq<Edge>): Adjacency {
    map n | n in Endpoints(es) :: Neighbours(es, n)
  }

  /** The endpoints in the order they first appear, `node1` before `node2` within a row. */
  function FirstSeen(es: seq<Edge>): seq<Node> {
    if es == [] then []
    else
      var e := es[|es| - 1];
      AddNode(AddNode(FirstSeen(es[..|es| - 1]), e.0), e.1)
  }

  lemma FirstSeenStep(es: seq<Edge>, e: Edge)
    ensures FirstSeen(es + [e]) == AddNode(AddNode(FirstSeen(es), e.0), e.1)
  {
    assert (es + [e])[..|es|] == es;
  }

  lemma EndpointsStep(es: seq<Edge>, e: Edge)
    ensures Endpoints(es + [e]) == Endpoints(es) + {e.0, e.1}
  {
    var es' := es + [e];
    assert es'[|es|] == e;
    forall x | x in Endpoints(es) ensures x in Endpoints(es') {
      var i :| 0 <= i < |es| && (es[i].0 == x || es[i].1 == x);
      assert es'[i] == es[i];
    }
  }

  lemma EdgeSetStep(es: seq<Edge>, e: Edge)
    ensures EdgeSet(es + [e]) == EdgeSet(es) + {{e.0, e.1}}
  {
    var es' := es + [e];
    assert es'[|es|] == e;
    forall p | p in EdgeSet(es) ensures p in EdgeSet(es') {
      var i :| 0 <= i < |es| && p == {es[i].0, es[i].1};
      assert es'[i] == es[i];
    }
  }

  lemma NeighboursStep(es: seq<Edge>, e: Edge, n: Node)
    ensures Neighbours(es + [e], n) ==
            Neighbours(es, n) + (if e.0 == n then {e.1} else {}) + (if e.1 == n then {e.0} else {})
  {
    var es' := es + [e];
    assert es'[|es|] == e;
    forall x | x in Neighbours(es, n) ensures x in Neighbours(es', n) {
      var i :| 0 <= i < |es| && ((es[i].0 == n && es[i].1 == x) || (es[i].1 == n && es[i].0 == x));
      assert es'[i] == es[i];
    }
  }

  /** Only an endpoint has neighbours. */
  lemma NeighboursOfEndpoints(es: seq<Edge>, n: Node)
    ensures Neighbours(es, n) <= Endpoints(es)
    ensures n !in Endpoints(es) ==> Neighbours(es, n) == {}
  {
  }

  /** {u, v} is an edge exactly when v is a neighbour of u. */
  lemma EdgeIffNeighbour(es: seq<Edge>, u: Node, v: Node)
    ensures {u, v} in EdgeSet(es) <==> v in Neighbours(es, u)
  {
    if {u, v} in EdgeSet(es) {
      var i :| 0 <= i < |es| && {u, v} == {es[i].0, es[i].1};
      assert u in {es[i].0, es[i].1} && v in {es[i].0, es[i].1};
      assert es[i].0 in {u, v} && es[i].1 in {u, v};
    }
    if v in Neighbours(es, u) {
      var i :| 0 <= i < |es| && ((es[i].0 == u && es[i].1 == v) || (es[i].1 == u && es[i].0 == v));
      assert {es[i].0, es[i].1} == {u, v};
    }
  }

  /** Adding a row to the list adds its edge to the graph. */
  lemma AdjOfStep(es: seq<Edge>, e: Edge)
    ensures AdjOf(es + [e]) == Link(AdjOf(es), e.0, e.1)
  {
    var l := Link(AdjOf(es), e.0, e.1);
    var a := AdjOf(es + [e]);
    EndpointsStep(es, e);
    forall n | n in a ensures n in l && a[n] == l[n] {
      NeighboursStep(es, e, n);
      NeighboursOfEndpoints(es, n);
    }
  }

  /** The insertion order lists every endpoint exactly once and nothing else. */
  lemma {:induction false} FirstSeenNodes(es: seq<Edge>)
    ensures Distinct(FirstSeen(es))
    ensures forall x :: x in FirstSeen(es) <==> x in Endpoints(es)
  {
    if es != [] {
      var init, e := es[..|es| - 1], es[|es| - 1];
      assert es == init + [e];
      FirstSeenNodes(init);
      FirstSeenStep(init, e);
      EndpointsStep(init, e);
    }
  }

  /** The endpoints read row by row, `node1` before `node2`: the order in which `add_edge` meets them. */
  function EndpointList(es: seq<Edge>): seq<Node> {
    if es == [] then [] else EndpointList(es[..|es| - 1]) + [es[|es| - 1].0, es[|es| - 1].1]
  }

  /** The position of the first occurrence of `x` in `xs`, or `|xs|` when there is none. */
  function FirstIndex(xs: seq<Node>, x: Node): (k: nat)
    ensures k <= |xs|
    ensures k < |xs| <==> x in xs
    ensures k < |xs| ==> xs[k] == x
    ensures forall j :: 0 <= j < k ==> xs[j] != x
  {
    if xs == [] then 0
    else if xs[0] == x then 0
    else 1 + FirstIndex(xs[1..], x)
  }

  /** Extending a sequence keeps the first occurrence of what it already holds. */
  lemma {:induction false} FirstIndexAppend(xs: seq<Node>, ys: seq<Node>, x: Node)
    ensures FirstIndex(xs + ys, x) == if x in xs then FirstIndex(xs, x) else |xs| + FirstIndex(ys, x)
  {
    if xs == [] {
      assert xs + ys == ys;
    } else if xs[0] != x {
      assert (xs + ys)[1..] == xs[1..] + ys;
      FirstIndexAppend(xs[1..], ys, x);
      assert x in xs <==> x in xs[1..];
    }
  }

  /** The nodes of `ns` are listed in the order in which they first occur in `xs`. */
  predicate InFirstAppearanceOrder(ns: seq<Node>, xs: seq<Node>) {
    forall i, j :: 0 <= i < j < |ns| ==> FirstIndex(xs, ns[i]) < FirstIndex(xs, ns[j])
  }

  /** Adding the next endpoint keeps the node order in first-appearance order. */
  lemma AddNodeOrder(ns: seq<Node>, xs: seq<Node>, x: Node)
    requires InFirstAppearanceOrder(ns, xs)
    requires forall y :: y in ns <==> y in xs
    ensures InFirstAppearanceOrder(AddNode(ns, x), xs + [x])
    ensures forall y :: y in AddNode(ns, x) <==> y in xs + [x]
  {
    forall y | y in xs ensures FirstIndex(xs + [x], y) == FirstIndex(xs, y) {
      FirstIndexAppend(xs, [x], y);
    }
    if x !in ns {
      FirstIndexAppend(xs, [x], x);
      var ns' := ns + [x];
      forall i, j | 0 <= i < j < |ns'| ensures FirstIndex(xs + [x], ns'[i]) < FirstIndex(xs + [x], ns'[j]) {
        assert ns'[i] == ns[i] && ns[i] in xs;
        if j == |ns| {
          assert ns'[j] == x;
        } else {
          assert ns'[j] == ns[j];
        }
      }
    }
  }

  /**
    The node order is the order of first appearance among the endpoints read
    row by row, `node1` before `node2`; with `FirstSeenNodes` this fixes it.
  */
  lemma {:induction false} FirstSeenOrder(es: seq<Edge>)
    ensures InFirstAppearanceOrder(FirstSeen(es), EndpointList(es))
    ensures forall y :: y in FirstSeen(es) <==> y in EndpointList(es)
  {
    if es != [] {
      var init, e := es[..|es| - 1], es[|es| - 1];
      assert es == init + [e];
      FirstSeenOrder(init);
      FirstSeenStep(init, e);
      var xs := EndpointList(init);
      assert EndpointList(es) == xs + [e.0] + [e.1];
      AddNodeOrder(FirstSeen(init), xs, e.0);
      AddNodeOrder(AddNode(FirstSeen(init), e.0), xs + [e.0], e.1);
    }
  }

  /** The graph of `es` is a well-formed undirected graph. */
  lemma {:induction false} GraphOfWellFormed(es: seq<Edge>)
    ensures WellFormed(FirstSeen(es), AdjOf(es))
  {
    if es == [] {
      assert AdjOf(es) == map[];
    } else {
      var init, e := es[..|es| - 1], es[|es| - 1];
      assert es == init + [e];
      GraphOfWellFormed(init);
      FirstSeenStep(init, e);
      AdjOfStep(init, e);
      LinkWellFormed(FirstSeen(init), AdjOf(init), e.0, e.1);
    }
  }

  /**
    The handshake lemma for the built graph: the degrees of all nodes add up to
    twice the number of distinct edges, a self-loop counting twice at its node.
  */
  lemma {:induction false} Handshake(es: seq<Edge>)
    ensures TotalDegree(FirstSeen(es), AdjOf(es)) == 2 * |EdgeSet(es)|
  {
    if es == [] {
      assert EdgeSet(es) == {};
    } else {
      var init, e := es[..|es| - 1], es[|es| - 1];
      assert es == init + [e];
      Handshake(init);
      if {e.0, e.1} in EdgeSet(init) {
        RepeatedRowChangesNothing(init, e);
      } else {
        NewRowAddsTwo(init, e);
      }
    }
  }

  /**
    A row whose unordered pair is already an edge (a duplicate, or the same
    pair reversed) leaves the nodes, their order and the edges unchanged.
  */
  lemma RepeatedRowChangesNothing(es: seq<Edge>, e: Edge)
    requires {e.0, e.1} in EdgeSet(es)
    ensures FirstSeen(es + [e]) == FirstSeen(es)
    ensures AdjOf(es + [e]) == AdjOf(es)
    ensures EdgeSet(es + [e]) == EdgeSet(es)
  {
    var (u, v) := e;
    FirstSeenStep(es, e);
    AdjOfStep(es, e);
    EdgeSetStep(es, e);
    FirstSeenNodes(es);
    EdgeIffNeighbour(es, u, v);
    EdgeIffNeighbour(es, v, u);
    assert {v, u} == {u, v};
    NeighboursOfEndpoints(es, u);
    NeighboursOfEndpoints(es, v);
    LinkExisting(AdjOf(es), u, v);
  }

  /** The endpoints of a pair that is not an edge are not neighbours. */
  lemma NotAdjacent(es: seq<Edge>, u: Node, v: Node)
    requires {u, v} !in EdgeSet(es)
    ensures v !in NeighboursIn(AdjOf(es), u) && u !in NeighboursIn(AdjOf(es), v)
  {
    EdgeIffNeighbour(es, u, v);
    EdgeIffNeighbour(es, v, u);
    assert {v, u} == {u, v};
  }

  /** A node not yet seen has degree 0. */
  lemma UnseenDegreeZero(es: seq<Edge>, x: Node)
    requires x !in FirstSeen(es)
    ensures Degree(AdjOf(es), x) == 0
  {
    FirstSeenNodes(es);
    assert x !in AdjOf(es);
  }

  /** Listing the endpoints of a row before linking them adds nothing to the degree total. */
  lemma ListingEndpointsAddsNothing(es: seq<Edge>, u: Node, v: Node)
    ensures TotalDegree(AddNode(AddNode(FirstSeen(es), u), v), AdjOf(es)) ==
            TotalDegree(FirstSeen(es), AdjOf(es))
  {
    var ns, adj := FirstSeen(es), AdjOf(es);
    TotalDegreeAddNode(ns, adj, u);
    TotalDegreeAddNode(AddNode(ns, u), adj, v);
    if u !in ns { UnseenDegreeZero(es, u); }
    if v !in AddNode(ns, u) { UnseenDegreeZero(es, v); }
  }

  /** A row with a new unordered pair adds one edge and two to the degree total. */
  lemma NewRowAddsTwo(es: seq<Edge>, e: Edge)
    requires {e.0, e.1} !in EdgeSet(es)
    ensures |EdgeSet(es + [e])| == |EdgeSet(es)| + 1
    ensures TotalDegree(FirstSeen(es + [e]), AdjOf(es + [e])) ==
            TotalDegree(FirstSeen(es), AdjOf(es)) + 2
  {
    var (u, v) := e;
    var ns, adj := FirstSeen(es), AdjOf(es);
    var ns' := AddNode(AddNode(ns, u), v);
    EdgeSetStep(es, e);
    FirstSeenStep(es, e);
    AdjOfStep(es, e);
    ListingEndpointsAddsNothing(es, u, v);
    FirstSeenNodes(es + [e]);
    NotAdjacent(es, u, v);
    TotalDegreeAfterLink(ns', adj, u, v);
  }

  /** A graph with an edge has a node. */
  lemma NodesOfNonEmpty(es: seq<Edge>)
    ensures |FirstSeen(es)| == |Endpoints(es)|
    ensures es != [] <==> FirstSeen(es) != []
  {
    FirstSeenNodes(es);
    DistinctCardinality(FirstSeen(es));
    assert (set x | x in FirstSeen(es)) == Endpoints(es);
    if es != [] {
      assert es[0].0 in Endpoints(es);
    }
  }

  /** Without self-loops a node's neighbours are among the other nodes. */
  lemma DegreeBoundWithoutSelfLoops(es: seq<Edge>, x: Node)
    requires forall i :: 0 <= i < |es| ==> es[i].0 != es[i].1
    requires x in FirstSeen(es)
    ensures Degree(AdjOf(es), x) <= |FirstSeen(es)| - 1
  {
    FirstSeenNodes(es);
    NodesOfNonEmpty(es);
    NeighboursOfEndpoints(es, x);
    var nb := NeighboursIn(AdjOf(es), x);
    assert nb == Neighbours(es, x);
    assert x !in nb;
    var others := Endpoints(es) - {x};
    assert nb <= others;
    assert others == nb + (others - nb);
    assert |others| == |Endpoints(es)| - 1;
  }

  /** Without self-loops there are at most n(n-1)/2 edges on n nodes. */
  lemma EdgeBoundWithoutSelfLoops(es: seq<Edge>)
    requires forall i :: 0 <= i < |es| ==> es[i].0 != es[i].1
    ensures 2 * |EdgeSet(es)| <= |FirstSeen(es)| * (|FirstSeen(es)| - 1)
  {
    var ns := FirstSeen(es);
    Handshake(es);
    if ns == [] {
      NodesOfNonEmpty(es);
      assert EdgeSet(es) == {};
    } else {
      forall x | x in ns ensures Degree(AdjOf(es), x) <= |ns| - 1 {
        DegreeBoundWithoutSelfLoops(es, x);
      }
      TotalDegreeBound(ns, AdjOf(es), |ns| - 1);
    }
  }
}

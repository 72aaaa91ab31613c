/**
  `nx.shortest_path_length(G, 'Alice', 'Eve')` with its failure turned into -1
  (chains/network_analysis.py, lines 44-47): the least number of edges on a
  walk from the source to the target, or -1 when either node is missing from
  the graph or the target cannot be reached.
*/
module ShortestPath {
  import opened UndirectedGraph

  /** The nodes one edge away from some node of `s`. */
  function Successors(adj: Adjacency, s: set<Node>): set<Node> {
    set u, v | u in s && u in adj && v in adj[u] :: v
  }

  /** The nodes at most `k` edges away from `src`. */
  function Reach(adj: Adjacency, src: Node, k: nat): set<Node> {
    if k == 0 then {src}
    else
      var r := Reach(adj, src, k - 1);
      r + Successors(adj, r)
  }

  /** Every node that occurs in the adjacency, as a key or as a neighbour. */
  ghost function Vertices(adj: Adjacency): set<Node> {
    adj.Keys + (set u, v | u in adj && v in adj[u] :: v)
  }

  /** `p` is a walk from `s` to `t`: consecutive entries are neighbours. */
  ghost predicate IsWalk(adj: Adjacency, s: Node, t: Node, p: seq<Node>) {
    |p| >= 1 && p[0] == s && p[|p| - 1] == t &&
    forall i :: 0 <= i < |p| - 1 ==> p[i + 1] in NeighboursIn(adj, p[i])
  }

  /** `t` is first reached after exactly `k` breadth-first levels. */
  ghost predicate IsLevel(adj: Adjacency, s: Node, t: Node, k: nat) {
    t in Reach(adj, s, k) && UnreachedBefore(adj, s, t, k)
  }

  /** `t` is not among the nodes within fewer than `k` levels. */
  ghost predicate UnreachedBefore(adj: Adjacency, s: Node, t: Node, k: nat) {
    forall j: nat :: j < k ==> t !in Reach(adj, s, j)
  }

  /** The hop distance from `s` to `t`, with -1 when there is none. */
  ghost function Distance(adj: Adjacency, s: Node, t: Node): int {
    if s in adj && t in adj && exists k: nat :: t in Reach(adj, s, k) then
      var k0: nat :| t in Reach(adj, s, k0);
      LeastLevel(adj, s, t, k0);
      var k: nat :| IsLevel(adj, s, t, k);
      k
    else -1
  }

  lemma {:induction false} ReachMonotone(adj: Adjacency, s: Node, j: nat, k: nat)
    requires j <= k
    ensures Reach(adj, s, j) <= Reach(adj, s, k)
  {
    if j < k {
      ReachMonotone(adj, s, j, k - 1);
    }
  }

  /** Once a level adds nothing new, no later level does either. */
  lemma {:induction false} ReachStable(adj: Adjacency, s: Node, k: nat, j: nat)
    requires Successors(adj, Reach(adj, s, k)) <= Reach(adj, s, k)
    requires k <= j
    ensures Reach(adj, s, j) == Reach(adj, s, k)
  {
    if k < j {
      ReachStable(adj, s, k, j - 1);
    }
  }

  lemma {:induction false} LeastLevel(adj: Adjacency, s: Node, t: Node, k: nat)
    requires t in Reach(adj, s, k)
    ensures exists m: nat :: m <= k && IsLevel(adj, s, t, m)
  {
    if k > 0 && t in Reach(adj, s, k - 1) {
      LeastLevel(adj, s, t, k - 1);
    } else {
      forall j: nat | j < k ensures t !in Reach(adj, s, j) {
        ReachMonotone(adj, s, j, k - 1);
      }
      assert IsLevel(adj, s, t, k);
    }
  }

  /** The level at which a node is first reached is unique. */
  lemma LevelUnique(adj: Adjacency, s: Node, t: Node, k: nat, m: nat)
    requires IsLevel(adj, s, t, k) && IsLevel(adj, s, t, m)
    ensures k == m
  {
  }

  /** A walk with `|p| - 1` edges ends within `|p| - 1` levels. */
  lemma {:induction false} WalkInReach(adj: Adjacency, s: Node, t: Node, p: seq<Node>)
    requires IsWalk(adj, s, t, p)
    ensures t in Reach(adj, s, |p| - 1)
    decreases |p|
  {
    if |p| > 1 {
      var q := p[..|p| - 1];
      var u := q[|q| - 1];
      WalkInReach(adj, s, u, q);
      assert t in NeighboursIn(adj, u);
      assert t in Successors(adj, Reach(adj, s, |q| - 1));
    }
  }

  /** Every node within `k` levels is the end of a walk of at most `k` edges. */
  lemma {:induction false} ReachHasWalk(adj: Adjacency, s: Node, t: Node, k: nat)
    requires t in Reach(adj, s, k)
    ensures exists p :: IsWalk(adj, s, t, p) && |p| <= k + 1
    decreases k
  {
    if k == 0 {
      assert IsWalk(adj, s, t, [s]);
    } else if t in Reach(adj, s, k - 1) {
      ReachHasWalk(adj, s, t, k - 1);
    } else {
      var u :| u in Reach(adj, s, k - 1) && u in adj && t in adj[u];
      ReachHasWalk(adj, s, u, k - 1);
      var q :| IsWalk(adj, s, u, q) && |q| <= k;
      assert IsWalk(adj, s, t, q + [t]);
    }
  }

  /**
    The distance is the least number of edges on a walk from `s` to `t`, and
    -1 exactly when one of the two is not a node or no walk connects them.
  */
  lemma DistanceIsShortestWalk(adj: Adjacency, s: Node, t: Node)
    ensures Distance(adj, s, t) >= -1
    ensures Distance(adj, s, t) == -1 <==>
              s !in adj || t !in adj || forall p :: !IsWalk(adj, s, t, p)
    ensures Distance(adj, s, t) >= 0 ==>
              (exists p :: IsWalk(adj, s, t, p) && |p| == Distance(adj, s, t) + 1) &&
              (forall p :: IsWalk(adj, s, t, p) ==> |p| >= Distance(adj, s, t) + 1)
  {
    var d := Distance(adj, s, t);
    if d >= 0 {
      assert IsLevel(adj, s, t, d);
      ReachHasWalk(adj, s, t, d);
      var p :| IsWalk(adj, s, t, p) && |p| <= d + 1;
      forall q | IsWalk(adj, s, t, q) ensures |q| >= d + 1 {
        WalkInReach(adj, s, t, q);
      }
      assert |p| == d + 1;
    } else if s in adj && t in adj {
      forall p | IsWalk(adj, s, t, p) ensures false {
        WalkInReach(adj, s, t, p);
      }
    }
  }

  lemma SuccessorsUnion(adj: Adjacency, a: set<Node>, b: set<Node>)
    ensures Successors(adj, a + b) == Successors(adj, a) + Successors(adj, b)
  {
  }

  lemma {:induction false} ReachInVertices(adj: Adjacency, s: Node, k: nat)
    requires s in adj
    ensures Reach(adj, s, k) <= Vertices(adj)
  {
    if k > 0 {
      ReachInVertices(adj, s, k - 1);
    }
  }

  lemma DistanceOfLevel(adj: Adjacency, s: Node, t: Node, k: nat)
    requires s in adj && t in adj && IsLevel(adj, s, t, k)
    ensures Distance(adj, s, t) == k
  {
  }

  lemma DistanceUnreached(adj: Adjacency, s: Node, t: Node)
    requires forall j: nat :: t !in Reach(adj, s, j)
    ensures Distance(adj, s, t) == -1
  {
  }

  /**
    One breadth-first step: when every successor of the nodes found before
    the last level is already visited, the next level is the visited set plus
    the new successors of the last level, and the same holds one level on.
  */
  lemma LevelStep(adj: Adjacency, s: Node, k: nat, visited: set<Node>, frontier: set<Node>)
    requires visited == Reach(adj, s, k)
    requires frontier <= visited
    requires Successors(adj, visited - frontier) <= visited
    ensures Reach(adj, s, k + 1) == visited + (Successors(adj, frontier) - visited)
    ensures Successors(adj, Reach(adj, s, k + 1) - (Successors(adj, frontier) - visited))
              <= Reach(adj, s, k + 1)
  {
    assert visited == (visited - frontier) + frontier;
    SuccessorsUnion(adj, visited - frontier, frontier);
    var next := Successors(adj, frontier) - visited;
    assert (visited + next) - next == visited;
  }

  /** When the last level has no new successors, no level ever reaches a node not yet visited. */
  lemma NoNewLevel(adj: Adjacency, s: Node, t: Node, k: nat, visited: set<Node>, frontier: set<Node>)
    requires visited == Reach(adj, s, k)
    requires frontier <= visited
    requires Successors(adj, visited - frontier) <= visited
    requires Successors(adj, frontier) - visited == {}
    requires t !in visited && UnreachedBefore(adj, s, t, k)
    ensures forall j: nat :: t !in Reach(adj, s, j)
  {
    LevelStep(adj, s, k, visited, frontier);
    forall j: nat | j > k ensures t !in Reach(adj, s, j) {
      ReachStable(adj, s, k, j);
    }
  }

  /** A level that adds nodes brings the search closer to exhausting the graph. */
  lemma Progress(adj: Adjacency, s: Node, k: nat, visited: set<Node>, next: set<Node>)
    requires s in adj
    requires visited + next == Reach(adj, s, k) && next != {} && next !! visited
    ensures |Vertices(adj) - (visited + next)| < |Vertices(adj) - visited|
  {
    ReachInVertices(adj, s, k);
    var rest := Vertices(adj) - visited;
    assert rest == (rest - next) + next;
    assert Vertices(adj) - (visited + next) == rest - next;
  }

  /**
    Breadth-first search level by level: `visited` holds the nodes within `k`
    edges of `s` and `frontier` those first reached at level `k`.
  */
  method ShortestPathLength(adj: Adjacency, s: Node, t: Node) returns (d: int)
    ensures d == Distance(adj, s, t)
  {
    if s !in adj || t !in adj {
      return -1;
    }
    var visited, frontier, k := {s}, {s}, 0;
    while t !in visited
      invariant visited == Reach(adj, s, k)
      invariant frontier <= visited
      invariant Successors(adj, visited - frontier) <= visited
      invariant UnreachedBefore(adj, s, t, k)
      decreases |Vertices(adj) - visited|
    {
      var next := Successors(adj, frontier) - visited;
      if next == {} {
        NoNewLevel(adj, s, t, k, visited, frontier);
        DistanceUnreached(adj, s, t);
        return -1;
      }
      LevelStep(adj, s, k, visited, frontier);
      Progress(adj, s, k + 1, visited, next);
      visited, frontier, k := visited + next, next, k + 1;
    }
    DistanceOfLevel(adj, s, t, k);
    return k;
  }
}

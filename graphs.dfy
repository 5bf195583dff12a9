/** The read-only graph that the traversals and Dijkstra borrow, and the
    notions of path, path cost, reachability and hop distance that their
    contracts are stated in. The container itself (graph/graph.py) is not
    part of this model: only what the algorithms read from it is. */
module Graphs {

  type Vertex = string

  /** A graph snapshot: the vertex set, each vertex's neighbour list in the
      container's fixed order, and the weight of every listed edge. An
      undirected graph lists each edge in both neighbour lists. */
  datatype Graph = Graph(vertices: set<Vertex>, adj: map<Vertex, seq<Vertex>>, weight: map<(Vertex, Vertex), int>)

  /** The container's invariant: every vertex has a neighbour list, every
      neighbour is a vertex and every listed edge has a weight. */
  predicate ValidGraph(g: Graph) {
    && g.adj.Keys == g.vertices
    && forall u, v | u in g.adj && v in g.adj[u] :: v in g.vertices && (u, v) in g.weight
  }

  /** A walk: a non-empty vertex sequence whose consecutive vertices are
      neighbours. */
  ghost predicate IsPath(g: Graph, p: seq<Vertex>) {
    && |p| > 0
    && (forall i | 0 <= i < |p| :: p[i] in g.vertices)
    && (forall i | 0 <= i < |p| - 1 :: p[i] in g.adj && p[i + 1] in g.adj[p[i]])
  }

  ghost predicate IsPathFrom(g: Graph, p: seq<Vertex>, s: Vertex, t: Vertex) {
    IsPath(g, p) && p[0] == s && p[|p| - 1] == t
  }

  ghost predicate Reachable(g: Graph, s: Vertex, t: Vertex) {
    exists p :: IsPathFrom(g, p, s, t)
  }

  /** Sum of the weights of the edges of a path. */
  ghost function Cost(g: Graph, p: seq<Vertex>): int
    requires ValidGraph(g) && IsPath(g, p)
    decreases |p|
  {
    if |p| == 1 then 0
    else
      assert IsPath(g, p[..|p| - 1]);
      Cost(g, p[..|p| - 1]) + g.weight[(p[|p| - 2], p[|p| - 1])]
  }

  /** No vertex occurs twice. */
  ghost predicate NoDuplicates(s: seq<Vertex>) {
    forall i, j | 0 <= i < j < |s| :: s[i] != s[j]
  }

  /** The elements of a sequence. */
  ghost function Elems(s: seq<Vertex>): set<Vertex> {
    set v | v in s
  }

  /** Every neighbour of a member of `S` is in `S`. */
  ghost predicate Closed(g: Graph, S: set<Vertex>) {
    forall u, v | u in S && u in g.adj && v in g.adj[u] :: v in S
  }

  /** `k` is the least number of edges of a path from `s` to `t`. */
  ghost predicate IsHopDistance(g: Graph, s: Vertex, t: Vertex, k: nat) {
    && (exists p :: IsPathFrom(g, p, s, t) && |p| == k + 1)
    && (forall p :: IsPathFrom(g, p, s, t) ==> k + 1 <= |p|)
  }

  /** Extending a path by a neighbour of its last vertex adds that edge's
      weight. */
  lemma PathAppend(g: Graph, p: seq<Vertex>, v: Vertex)
    requires ValidGraph(g) && IsPath(g, p)
    requires v in g.adj[p[|p| - 1]]
    ensures IsPath(g, p + [v])
    ensures Cost(g, p + [v]) == Cost(g, p) + g.weight[(p[|p| - 1], v)]
  {
    var q := p + [v];
    assert q[..|q| - 1] == p;
  }

  /** Putting a neighbour of its first vertex in front of a path gives a
      path. */
  lemma PrependIsPath(g: Graph, u: Vertex, p: seq<Vertex>)
    requires IsPath(g, p) && u in g.vertices && u in g.adj && p[0] in g.adj[u]
    ensures IsPath(g, [u] + p)
  {
    var q := [u] + p;
    forall i | 0 <= i < |q| - 1 ensures q[i] in g.adj && q[i + 1] in g.adj[q[i]] {
      if i > 0 {
        assert q[i] == p[i - 1] && q[i + 1] == p[i];
      }
    }
  }

  /** Putting a vertex in front of a path whose first vertex is its
      neighbour adds that edge's weight. */
  lemma {:induction false} PathPrepend(g: Graph, u: Vertex, p: seq<Vertex>)
    requires ValidGraph(g) && IsPath(g, p) && u in g.vertices
    requires p[0] in g.adj[u]
    ensures IsPath(g, [u] + p)
    ensures Cost(g, [u] + p) == g.weight[(u, p[0])] + Cost(g, p)
    decreases |p|
  {
    PrependIsPath(g, u, p);
    var q := [u] + p;
    if |p| > 1 {
      var front := p[..|p| - 1];
      assert IsPath(g, front);
      PathPrepend(g, u, front);
      assert q[..|q| - 1] == [u] + front;
      assert Cost(g, q) == Cost(g, [u] + front) + g.weight[(p[|p| - 2], p[|p| - 1])];
    }
  }

  /** A neighbour of `u` that reaches `t` makes `u` reach `t`. */
  lemma ReachableThrough(g: Graph, u: Vertex, v: Vertex, t: Vertex)
    requires ValidGraph(g) && u in g.vertices && v in g.adj[u]
    requires Reachable(g, v, t)
    ensures Reachable(g, u, t)
  {
    var p :| IsPathFrom(g, p, v, t);
    PathPrepend(g, u, p);
    assert IsPathFrom(g, [u] + p, u, t);
  }

  /** Every vertex of a path that starts in a closed set lies in the set. */
  lemma {:induction false} PathStaysInClosed(g: Graph, S: set<Vertex>, p: seq<Vertex>)
    requires IsPath(g, p) && p[0] in S && Closed(g, S)
    ensures forall i | 0 <= i < |p| :: p[i] in S
    decreases |p|
  {
    if |p| > 1 {
      var front := p[..|p| - 1];
      assert IsPath(g, front);
      PathStaysInClosed(g, S, front);
      assert p[|p| - 2] == front[|front| - 1];
    }
  }

  /** A closed set holding `s` holds every vertex reachable from `s`. */
  lemma ClosedContainsReachable(g: Graph, S: set<Vertex>, s: Vertex)
    requires s in S && Closed(g, S)
    ensures forall t | Reachable(g, s, t) :: t in S
  {
    forall t | Reachable(g, s, t) ensures t in S {
      var p :| IsPathFrom(g, p, s, t);
      PathStaysInClosed(g, S, p);
    }
  }

  /** Every path can be shortened to a path with the fewest edges. */
  lemma {:induction false} ShortestPathExists(g: Graph, s: Vertex, t: Vertex, p: seq<Vertex>)
    requires IsPathFrom(g, p, s, t)
    ensures exists k: nat :: k < |p| && IsHopDistance(g, s, t, k)
    decreases |p|
  {
    if !IsHopDistance(g, s, t, |p| - 1) {
      var q :| IsPathFrom(g, q, s, t) && |q| < |p|;
      ShortestPathExists(g, s, t, q);
    }
  }

  /** The hop distance from `s` to a vertex it reaches. */
  ghost function HopDistance(g: Graph, s: Vertex, t: Vertex): (k: nat)
    requires Reachable(g, s, t)
    ensures IsHopDistance(g, s, t, k)
  {
    var p :| IsPathFrom(g, p, s, t);
    ShortestPathExists(g, s, t, p);
    var k: nat :| IsHopDistance(g, s, t, k);
    k
  }

  /** The hop distance from `s` to `t`, taken as 0 when `s` does not
      reach `t`, so that it can be written of any vertex. */
  ghost function Hops(g: Graph, s: Vertex, t: Vertex): nat {
    if Reachable(g, s, t) then HopDistance(g, s, t) else 0
  }

  /** A vertex is at hop distance 0 from `s` exactly when it is `s`. */
  lemma HopsZero(g: Graph, s: Vertex, t: Vertex)
    requires Reachable(g, s, t)
    ensures (Hops(g, s, t) == 0) == (s == t)
  {
    var p :| IsPathFrom(g, p, s, t);
    if s == t {
      assert IsPathFrom(g, [s], s, s);
    }
  }

  /** Following one edge adds at most one hop. */
  lemma HopsEdge(g: Graph, s: Vertex, u: Vertex, v: Vertex)
    requires ValidGraph(g) && Reachable(g, s, u) && u in g.adj && v in g.adj[u]
    ensures Reachable(g, s, v) && Hops(g, s, v) <= Hops(g, s, u) + 1
  {
    var p :| IsPathFrom(g, p, s, u) && |p| == HopDistance(g, s, u) + 1;
    PathAppend(g, p, v);
    assert IsPathFrom(g, p + [v], s, v);
  }

  /** A vertex other than `s` has a neighbour-predecessor one hop closer
      to `s`: the last step of a path with the fewest edges. */
  lemma HopsPredecessor(g: Graph, s: Vertex, w: Vertex) returns (x: Vertex)
    requires Reachable(g, s, w) && s != w
    ensures Reachable(g, s, x) && x in g.adj && w in g.adj[x]
    ensures Hops(g, s, x) + 1 == Hops(g, s, w)
  {
    var k := HopDistance(g, s, w);
    var p :| IsPathFrom(g, p, s, w) && |p| == k + 1;
    HopsZero(g, s, w);
    x := p[k - 1];
    assert IsPathFrom(g, p[..k], s, x);
    var j := HopDistance(g, s, x);
    if j < k - 1 {
      var q :| IsPathFrom(g, q, s, x) && |q| == j + 1;
      assert IsPathFrom(g, q + [w], s, w);
    }
  }

  /** No path from `s` to `t` has fewer edges than the hop distance. */
  lemma HopsShortest(g: Graph, s: Vertex, t: Vertex, p: seq<Vertex>)
    requires IsPathFrom(g, p, s, t)
    ensures Reachable(g, s, t) && Hops(g, s, t) + 1 <= |p|
  {
    assert IsHopDistance(g, s, t, HopDistance(g, s, t));
  }

  /** Growing a subset of `V` shrinks what is left of `V`. */
  lemma RemainderShrinks(V: set<Vertex>, A: set<Vertex>, B: set<Vertex>, x: Vertex)
    requires A <= B <= V && x in B && x !in A
    ensures |V - B| < |V - A|
  {
    assert V - A == (V - B) + (B - A);
    assert (V - B) * (B - A) == {};
    assert x in B - A;
  }

  /** A neighbour is a vertex. */
  lemma NeighbourIsVertex(g: Graph, u: Vertex, v: Vertex)
    requires ValidGraph(g) && u in g.adj && v in g.adj[u]
    ensures v in g.vertices
  {
  }
}

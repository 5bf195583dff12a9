/** Dijkstra's algorithm of examples/dijkstra_example.py: `dijkstra`, the
    distance from a source to every vertex, and `dijkstra_with_path`, the
    distance and a path to one target. The `heapq` list is a sequence of
    (distance, vertex) entries from which the least distance is removed;
    `float('inf')` is the `Inf` value of `Dist`. */
module DijkstraExample {
  import opened Wrappers
  import opened Graphs

  /** A tentative distance: a finite integer or the infinity sentinel. */
  datatype Dist = Fin(n: int) | Inf

  /** `a < d` in Python, with every integer below infinity. */
  predicate Below(a: int, d: Dist) {
    d.Inf? || a < d.n
  }

  /** A priority-queue entry: a distance and a vertex. */
  type Entry = (int, Vertex)

  /** No listed edge has a negative weight. */
  predicate NonNegative(g: Graph) {
    forall u, v | u in g.adj && v in g.adj[u] && (u, v) in g.weight :: g.weight[(u, v)] >= 0
  }

  /** `d` is the cost of some path from `s` to `v`. */
  ghost predicate Achieved(g: Graph, s: Vertex, v: Vertex, d: int) {
    ValidGraph(g) && exists p :: IsPathFrom(g, p, s, v) && Cost(g, p) == d
  }

  /** No path from `s` to `v` costs less than `d`. */
  ghost predicate NoShorter(g: Graph, s: Vertex, v: Vertex, d: int) {
    ValidGraph(g) && forall p | IsPathFrom(g, p, s, v) :: d <= Cost(g, p)
  }

  /** The loop over `graph.edges()` that rejects a negative weight. */
  method CheckWeights(g: Graph) returns (ok: bool)
    requires ValidGraph(g)
    ensures ok <==> NonNegative(g)
  {
    var todo := g.vertices;
    while todo != {}
      invariant todo <= g.vertices
      invariant forall u, v | u in g.adj && u !in todo && v in g.adj[u] :: g.weight[(u, v)] >= 0
      decreases |todo|
    {
      var u := Pick(todo);
      var ns := g.adj[u];
      for i := 0 to |ns|
        invariant forall j | 0 <= j < i :: g.weight[(u, ns[j])] >= 0
      {
        if g.weight[(u, ns[i])] < 0 {
          return false;
        }
      }
      todo := todo - {u};
    }
    return true;
  }

  /** `heapq.heappop`: removes an entry of least distance. */
  method PopMin(pq: seq<Entry>) returns (e: Entry, rest: seq<Entry>)
    requires pq != []
    ensures e in pq && forall x | x in pq :: e.0 <= x.0
    ensures multiset(rest) == multiset(pq) - multiset{e} && |rest| == |pq| - 1
  {
    var k := 0;
    for i := 1 to |pq|
      invariant 0 <= k < |pq|
      invariant forall j | 0 <= j < i :: pq[k].0 <= pq[j].0
    {
      if pq[i].0 < pq[k].0 {
        k := i;
      }
    }
    e := pq[k];
    rest := pq[..k] + pq[k + 1..];
    assert pq == pq[..k] + [e] + pq[k + 1..];
  }

  /** Every neighbour of `u` has an edge weight and a distance. */
  predicate Relaxable(g: Graph, u: Vertex, dist: map<Vertex, Dist>) {
    u in g.adj && forall v | v in g.adj[u] :: (u, v) in g.weight && v in dist
  }

  /** The neighbour loop of `u`, popped at distance `d`, over the first `k`
      neighbours of `u`: the new distances and the entries pushed. A
      neighbour `v` outside `visited` takes `d + weight(u, v)` and is pushed
      with it when that is below its distance so far. */
  function Relax(g: Graph, u: Vertex, k: nat, d: int, visited: set<Vertex>, dist: map<Vertex, Dist>)
    : (r: (map<Vertex, Dist>, seq<Entry>))
    requires Relaxable(g, u, dist) && k <= |g.adj[u]|
    ensures r.0.Keys == dist.Keys
  {
    if k == 0 then (dist, [])
    else
      var prior := Relax(g, u, k - 1, d, visited, dist);
      var v := g.adj[u][k - 1];
      var newDist := d + g.weight[(u, v)];
      if v !in visited && Below(newDist, prior.0[v]) then (prior.0[v := Fin(newDist)], prior.1 + [(newDist, v)])
      else prior
  }

  /** The loop of `dijkstra` over the neighbours of `u`, popped at distance
      `d`: the distances become those of `Relax` and the queue gains its
      pushed entries. */
  method RelaxNeighbours(g: Graph, u: Vertex, d: int, visited: set<Vertex>, dist: map<Vertex, Dist>, pq: seq<Entry>)
    returns (dist': map<Vertex, Dist>, pq': seq<Entry>)
    requires ValidGraph(g) && u in g.adj && dist.Keys == g.vertices
    ensures dist' == Relax(g, u, |g.adj[u]|, d, visited, dist).0
    ensures pq' == pq + Relax(g, u, |g.adj[u]|, d, visited, dist).1
  {
    assert Relaxable(g, u, dist);
    var ns := g.adj[u];
    var pushed := [];
    dist' := dist;
    for i := 0 to |ns|
      invariant dist' == Relax(g, u, i, d, visited, dist).0
      invariant pushed == Relax(g, u, i, d, visited, dist).1
    {
      var v := ns[i];
      if v in visited {
        continue;
      }
      var newDist := d + g.weight[(u, v)];
      if Below(newDist, dist'[v]) {
        dist' := dist'[v := Fin(newDist)];
        pushed := pushed + [(newDist, v)];
      }
    }
    pq' := pq + pushed;
  }

  /** What the neighbour loop does to a distance: it changes only for an
      unvisited neighbour of `u`, and then to the smaller `d + weight(u, x)`. */
  lemma {:induction false} RelaxChange(g: Graph, u: Vertex, k: nat, d: int, visited: set<Vertex>,
                                       dist: map<Vertex, Dist>, x: Vertex)
    requires Relaxable(g, u, dist) && k <= |g.adj[u]| && x in dist
    ensures var r := Relax(g, u, k, d, visited, dist).0;
      || r[x] == dist[x]
      || (x in g.adj[u] && x !in visited && r[x] == Fin(d + g.weight[(u, x)]) && Below(d + g.weight[(u, x)], dist[x]))
  {
    if k > 0 {
      RelaxChange(g, u, k - 1, d, visited, dist, x);
    }
  }

  /** After the loop has passed the `j`-th neighbour of `u`, an unvisited
      one, that neighbour is no farther than `d + weight(u, v)`. */
  lemma {:induction false} RelaxBound(g: Graph, u: Vertex, k: nat, d: int, visited: set<Vertex>,
                                      dist: map<Vertex, Dist>, j: nat)
    requires Relaxable(g, u, dist) && j < k <= |g.adj[u]| && g.adj[u][j] !in visited
    ensures var r, v := Relax(g, u, k, d, visited, dist).0, g.adj[u][j];
      r[v].Fin? && r[v].n <= d + g.weight[(u, v)]
  {
    if j < k - 1 {
      RelaxBound(g, u, k - 1, d, visited, dist, j);
    }
  }

  /** Each entry the loop pushes carries its vertex's final distance,
      `d + weight(u, v)`, for an unvisited neighbour `v`. */
  lemma {:induction false} RelaxPushed(g: Graph, u: Vertex, k: nat, d: int, visited: set<Vertex>,
                                       dist: map<Vertex, Dist>, e: Entry)
    requires Relaxable(g, u, dist) && k <= |g.adj[u]|
    requires e in Relax(g, u, k, d, visited, dist).1
    ensures e.1 in g.adj[u] && e.1 !in visited && e.0 == d + g.weight[(u, e.1)]
    ensures Relax(g, u, k, d, visited, dist).0[e.1] == Fin(e.0)
  {
    var (cur, pushed) := Relax(g, u, k - 1, d, visited, dist);
    if e in pushed {
      RelaxPushed(g, u, k - 1, d, visited, dist, e);
    }
  }

  /** Each distance the loop changes is pushed. */
  lemma {:induction false} RelaxRecorded(g: Graph, u: Vertex, k: nat, d: int, visited: set<Vertex>,
                                         dist: map<Vertex, Dist>, x: Vertex)
    requires Relaxable(g, u, dist) && k <= |g.adj[u]| && x in dist
    requires Relax(g, u, k, d, visited, dist).0[x] != dist[x]
    ensures var (r, pushed) := Relax(g, u, k, d, visited, dist);
      r[x].Fin? && (r[x].n, x) in pushed
  {
    var (cur, pushed) := Relax(g, u, k - 1, d, visited, dist);
    if cur[x] != dist[x] {
      RelaxRecorded(g, u, k - 1, d, visited, dist, x);
    }
  }

  /** What the neighbour loop of `u`, popped at distance `d`, achieves,
      stated without the loop: only unvisited neighbours of `u` change, each
      to a smaller `d + weight(u, x)`; every unvisited neighbour ends no
      farther than that; every pushed entry carries its vertex's new
      distance; and every changed distance is pushed. */
  ghost predicate Relaxed(g: Graph, u: Vertex, d: int, visited: set<Vertex>, dist: map<Vertex, Dist>,
                          dist': map<Vertex, Dist>, pushed: seq<Entry>)
    requires ValidGraph(g) && u in g.adj
  {
    && dist'.Keys == dist.Keys
    && (forall x | x in dist :: || dist'[x] == dist[x]
                                 || (x in g.adj[u] && x !in visited && dist'[x] == Fin(d + g.weight[(u, x)])
                                     && Below(d + g.weight[(u, x)], dist[x])))
    && (forall v | v in g.adj[u] && v !in visited && v in dist ::
          dist'[v].Fin? && dist'[v].n <= d + g.weight[(u, v)])
    && (forall e | e in pushed ::
          e.1 in g.adj[u] && e.1 !in visited && e.0 == d + g.weight[(u, e.1)] && e.1 in dist' && dist'[e.1] == Fin(e.0))
    && (forall x | x in dist && dist'[x] != dist[x] :: dist'[x].Fin? && (dist'[x].n, x) in pushed)
  }

  /** The neighbour loop meets its description. */
  lemma RelaxIsRelaxed(g: Graph, u: Vertex, d: int, visited: set<Vertex>, dist: map<Vertex, Dist>)
    requires ValidGraph(g) && u in g.adj && dist.Keys == g.vertices
    ensures var r := Relax(g, u, |g.adj[u]|, d, visited, dist);
      Relaxed(g, u, d, visited, dist, r.0, r.1)
  {
    var k := |g.adj[u]|;
    var r := Relax(g, u, k, d, visited, dist);
    forall x | x in dist
      ensures || r.0[x] == dist[x]
              || (x in g.adj[u] && x !in visited && r.0[x] == Fin(d + g.weight[(u, x)])
                  && Below(d + g.weight[(u, x)], dist[x]))
    {
      RelaxChange(g, u, k, d, visited, dist, x);
    }
    forall v | v in g.adj[u] && v !in visited && v in dist
      ensures r.0[v].Fin? && r.0[v].n <= d + g.weight[(u, v)]
    {
      var j :| 0 <= j < k && g.adj[u][j] == v;
      RelaxBound(g, u, k, d, visited, dist, j);
    }
    forall e | e in r.1
      ensures e.1 in g.adj[u] && e.1 !in visited && e.0 == d + g.weight[(u, e.1)] && e.1 in r.0 && r.0[e.1] == Fin(e.0)
    {
      RelaxPushed(g, u, k, d, visited, dist, e);
    }
    forall x | x in dist && r.0[x] != dist[x] ensures r.0[x].Fin? && (r.0[x].n, x) in r.1 {
      RelaxRecorded(g, u, k, d, visited, dist, x);
    }
  }

  /** With no negative weight, no path costs less than 0. */
  lemma {:induction false} CostNonNegative(g: Graph, p: seq<Vertex>)
    requires ValidGraph(g) && NonNegative(g) && IsPath(g, p)
    ensures Cost(g, p) >= 0
    decreases |p|
  {
    if |p| > 1 {
      assert IsPath(g, p[..|p| - 1]);
      CostNonNegative(g, p[..|p| - 1]);
    }
  }

  /** With no negative weight, a prefix of a path costs no more than the
      path. */
  lemma {:induction false} PrefixCost(g: Graph, p: seq<Vertex>, k: nat)
    requires ValidGraph(g) && NonNegative(g) && IsPath(g, p) && 1 <= k <= |p|
    ensures IsPath(g, p[..k]) && Cost(g, p[..k]) <= Cost(g, p)
    decreases |p| - k
  {
    assert IsPath(g, p[..k]);
    if k < |p| {
      PrefixCost(g, p, k + 1);
      var q := p[..k + 1];
      assert q[..|q| - 1] == p[..k];
      assert g.weight[(q[k - 1], q[k])] >= 0;
    } else {
      assert p[..k] == p;
    }
  }

  /** A path that starts inside `S` and ends outside leaves `S` along some
      edge. */
  lemma {:induction false} FirstOutside(p: seq<Vertex>, S: set<Vertex>) returns (i: nat)
    requires |p| > 0 && p[0] in S && p[|p| - 1] !in S
    ensures 0 < i < |p| && p[i - 1] in S && p[i] !in S
    decreases |p|
  {
    if p[|p| - 2] !in S {
      i := FirstOutside(p[..|p| - 1], S);
    } else {
      i := |p| - 1;
    }
  }

  /** Every finite distance is the cost of some path from `s`. */
  ghost predicate Sound(g: Graph, s: Vertex, dist: map<Vertex, Dist>) {
    forall v | v in dist && dist[v].Fin? :: Achieved(g, s, v, dist[v].n)
  }

  /** Every queue entry is at or above its vertex's finite distance, and
      every unvisited vertex with a finite distance has an entry at it
      (entries above it are the stale ones the loop skips). */
  ghost predicate QueueOk(dist: map<Vertex, Dist>, visited: set<Vertex>, pq: seq<Entry>) {
    && (forall e | e in pq :: e.1 in dist && dist[e.1].Fin? && dist[e.1].n <= e.0)
    && (forall v | v in dist && v !in visited && dist[v].Fin? :: (dist[v].n, v) in pq)
  }

  /** Visited vertices have finite distances, and every edge from a
      visited vertex to an unvisited one has been relaxed. */
  ghost predicate EdgesRelaxed(g: Graph, dist: map<Vertex, Dist>, visited: set<Vertex>) {
    && (forall v | v in visited :: v in dist && dist[v].Fin?)
    && (forall x, y | x in visited && x in g.adj && y in g.adj[x] && y !in visited && (x, y) in g.weight ::
          y in dist && dist[y].Fin? && dist[y].n <= dist[x].n + g.weight[(x, y)])
  }

  /** The invariant of the main loops of `dijkstra` and
      `dijkstra_with_path`: every vertex has a distance, the source's is 0,
      before the first pop the queue holds just the source and after it
      the source is visited; and the three predicates above hold. */
  ghost predicate DistInv(g: Graph, s: Vertex, dist: map<Vertex, Dist>, visited: set<Vertex>, pq: seq<Entry>) {
    && ValidGraph(g) && dist.Keys == g.vertices && s in g.vertices && visited <= g.vertices
    && dist[s] == Fin(0)
    && (visited == {} ==> pq == [(0, s)])
    && (visited != {} ==> s in visited)
    && Sound(g, s, dist)
    && QueueOk(dist, visited, pq)
    && EdgesRelaxed(g, dist, visited)
  }

  /** Every visited vertex's distance is the least cost of a path to it. */
  ghost predicate VisitedOptimal(g: Graph, s: Vertex, dist: map<Vertex, Dist>, visited: set<Vertex>) {
    forall v | v in visited && v in dist && dist[v].Fin? :: NoShorter(g, s, v, dist[v].n)
  }

  /** An unvisited vertex popped with the least entry is popped at its
      distance. */
  lemma PopAtDistance(g: Graph, s: Vertex, dist: map<Vertex, Dist>, visited: set<Vertex>, pq: seq<Entry>, e: Entry)
    requires DistInv(g, s, dist, visited, pq)
    requires e in pq && (forall x | x in pq :: e.0 <= x.0) && e.1 !in visited
    ensures dist[e.1] == Fin(e.0)
  {
    assert (dist[e.1].n, e.1) in pq;
  }

  /** With no negative weight, the unvisited vertex popped with the least
      entry has no shorter path: a path to it leaves the visited set along
      an edge whose far end has an entry no smaller than the popped one,
      and the rest of the path costs nothing negative. */
  lemma PopIsShortest(g: Graph, s: Vertex, dist: map<Vertex, Dist>, visited: set<Vertex>, pq: seq<Entry>, e: Entry)
    requires DistInv(g, s, dist, visited, pq) && VisitedOptimal(g, s, dist, visited) && NonNegative(g)
    requires e in pq && (forall x | x in pq :: e.0 <= x.0) && e.1 !in visited
    ensures NoShorter(g, s, e.1, e.0)
  {
    var (d, u) := e;
    forall p | IsPathFrom(g, p, s, u) ensures d <= Cost(g, p) {
      CostNonNegative(g, p);
      if s in visited {
        var i := FirstOutside(p, visited);
        var x, y := p[i - 1], p[i];
        assert (dist[y].n, y) in pq;
        LeavingEdgeBound(g, s, p, i, dist[x].n, dist[y].n);
      }
    }
  }

  /** A path whose `i`-th edge leads from a vertex with no shorter path
      than `dx` to one with `dy <= dx + weight` costs at least `dy`, when no
      weight is negative. */
  lemma LeavingEdgeBound(g: Graph, s: Vertex, p: seq<Vertex>, i: nat, dx: int, dy: int)
    requires ValidGraph(g) && NonNegative(g) && IsPath(g, p) && p[0] == s && 0 < i < |p|
    requires NoShorter(g, s, p[i - 1], dx) && dy <= dx + g.weight[(p[i - 1], p[i])]
    ensures dy <= Cost(g, p)
  {
    PrefixCost(g, p, i);
    PrefixCost(g, p, i + 1);
    var q := p[..i + 1];
    assert q[..|q| - 1] == p[..i];
    assert IsPathFrom(g, p[..i], s, p[i - 1]);
  }

  /** Visiting `u`, popped at distance `d`, keeps every finite distance
      achieved: a lowered distance is the cost of a path to `u` and one
      more edge. */
  lemma VisitKeepsSound(g: Graph, s: Vertex, dist: map<Vertex, Dist>, u: Vertex, d: int, visited: set<Vertex>,
                        dist': map<Vertex, Dist>, pushed: seq<Entry>)
    requires ValidGraph(g) && u in g.adj && dist.Keys == g.vertices
    requires Sound(g, s, dist) && Achieved(g, s, u, d)
    requires Relaxed(g, u, d, visited, dist, dist', pushed)
    ensures Sound(g, s, dist')
  {
    forall v | v in dist' && dist'[v].Fin? ensures Achieved(g, s, v, dist'[v].n) {
      if dist'[v] != dist[v] {
        var p :| IsPathFrom(g, p, s, u) && Cost(g, p) == d;
        PathAppend(g, p, v);
        assert IsPathFrom(g, p + [v], s, v);
      }
    }
  }

  /** An entry other than the popped one is still in the queue. */
  lemma StillQueued(pq: seq<Entry>, e: Entry, rest: seq<Entry>, x: Entry)
    requires multiset(rest) == multiset(pq) - multiset{e}
    ensures x in rest ==> x in pq
    ensures x in pq && x != e ==> x in rest
  {
    assert x in rest <==> x in multiset(rest);
    assert x in pq <==> x in multiset(pq);
  }

  /** Visiting the popped vertex keeps the queue invariant: surviving
      entries sit at or above distances that only went down, pushed entries
      sit at their vertex's new distance, and every lowered distance was
      pushed. */
  lemma VisitKeepsQueue(g: Graph, dist: map<Vertex, Dist>, visited: set<Vertex>, pq: seq<Entry>, e: Entry,
                        rest: seq<Entry>, dist': map<Vertex, Dist>, pushed: seq<Entry>)
    requires ValidGraph(g) && e.1 in g.adj && dist.Keys == g.vertices
    requires QueueOk(dist, visited, pq) && e in pq && multiset(rest) == multiset(pq) - multiset{e}
    requires Relaxed(g, e.1, e.0, visited + {e.1}, dist, dist', pushed)
    ensures QueueOk(dist', visited + {e.1}, rest + pushed)
  {
    VisitKeepsEntries(g, dist, visited, pq, e, rest, dist', pushed);
    VisitKeepsLazy(g, dist, visited, pq, e, rest, dist', pushed);
  }

  /** After a visit every queue entry is still at or above its vertex's
      distance. */
  lemma VisitKeepsEntries(g: Graph, dist: map<Vertex, Dist>, visited: set<Vertex>, pq: seq<Entry>, e: Entry,
                          rest: seq<Entry>, dist': map<Vertex, Dist>, pushed: seq<Entry>)
    requires ValidGraph(g) && e.1 in g.adj && dist.Keys == g.vertices
    requires forall x | x in pq :: x.1 in dist && dist[x.1].Fin? && dist[x.1].n <= x.0
    requires multiset(rest) == multiset(pq) - multiset{e}
    requires Relaxed(g, e.1, e.0, visited + {e.1}, dist, dist', pushed)
    ensures forall x | x in rest + pushed :: x.1 in dist' && dist'[x.1].Fin? && dist'[x.1].n <= x.0
  {
    forall x | x in rest + pushed ensures x.1 in dist' && dist'[x.1].Fin? && dist'[x.1].n <= x.0 {
      if x in rest {
        StillQueued(pq, e, rest, x);
      } else {
        assert x in pushed;
      }
    }
  }

  /** After a visit every unvisited vertex with a finite distance still has
      an entry at that distance. */
  lemma VisitKeepsLazy(g: Graph, dist: map<Vertex, Dist>, visited: set<Vertex>, pq: seq<Entry>, e: Entry,
                       rest: seq<Entry>, dist': map<Vertex, Dist>, pushed: seq<Entry>)
    requires ValidGraph(g) && e.1 in g.adj && dist.Keys == g.vertices
    requires forall v | v in dist && v !in visited && dist[v].Fin? :: (dist[v].n, v) in pq
    requires e in pq && multiset(rest) == multiset(pq) - multiset{e}
    requires Relaxed(g, e.1, e.0, visited + {e.1}, dist, dist', pushed)
    ensures forall v | v in dist' && v !in visited + {e.1} && dist'[v].Fin? :: (dist'[v].n, v) in rest + pushed
  {
    forall v | v in dist' && v !in visited + {e.1} && dist'[v].Fin? ensures (dist'[v].n, v) in rest + pushed {
      if dist'[v] == dist[v] {
        assert (dist[v].n, v) != e;
        StillQueued(pq, e, rest, (dist[v].n, v));
      } else {
        assert (dist'[v].n, v) in pushed;
      }
    }
  }

  /** Visiting `u` keeps visited distances finite and every edge out of
      the visited set relaxed: the edges of `u` by the neighbour loop, the
      others because distances only go down. */
  lemma VisitKeepsRelaxed(g: Graph, dist: map<Vertex, Dist>, visited: set<Vertex>, u: Vertex, d: int,
                          dist': map<Vertex, Dist>, pushed: seq<Entry>)
    requires ValidGraph(g) && u in g.adj && dist.Keys == g.vertices
    requires EdgesRelaxed(g, dist, visited) && dist[u] == Fin(d)
    requires Relaxed(g, u, d, visited + {u}, dist, dist', pushed)
    ensures EdgesRelaxed(g, dist', visited + {u})
  {
    var visited' := visited + {u};
    forall x, y | x in visited' && x in g.adj && y in g.adj[x] && y !in visited' && (x, y) in g.weight
      ensures y in dist' && dist'[y].Fin? && dist'[y].n <= dist'[x].n + g.weight[(x, y)]
    {
      assert dist'[x] == dist[x];
      assert y in dist;
    }
  }

  /** Visiting `u` at its least cost keeps every visited distance least:
      visited distances do not change. */
  lemma VisitKeepsOptimal(g: Graph, s: Vertex, dist: map<Vertex, Dist>, visited: set<Vertex>, u: Vertex, d: int,
                          dist': map<Vertex, Dist>, pushed: seq<Entry>)
    requires ValidGraph(g) && u in g.adj && dist.Keys == g.vertices
    requires VisitedOptimal(g, s, dist, visited) && dist[u] == Fin(d) && NoShorter(g, s, u, d)
    requires Relaxed(g, u, d, visited + {u}, dist, dist', pushed)
    ensures VisitedOptimal(g, s, dist', visited + {u})
  {
    forall v | v in visited + {u} && v in dist' && dist'[v].Fin? ensures NoShorter(g, s, v, dist'[v].n) {
      assert dist'[v] == dist[v];
    }
  }

  /** Popping an unvisited vertex with the least entry, marking it visited
      and relaxing its edges keeps the loop invariant. */
  lemma VisitKeepsInv(g: Graph, s: Vertex, dist: map<Vertex, Dist>, visited: set<Vertex>, pq: seq<Entry>, e: Entry,
                      rest: seq<Entry>, dist': map<Vertex, Dist>, pushed: seq<Entry>)
    requires DistInv(g, s, dist, visited, pq)
    requires e in pq && (forall x | x in pq :: e.0 <= x.0) && e.1 !in visited
    requires multiset(rest) == multiset(pq) - multiset{e}
    requires e.1 in g.adj && Relaxed(g, e.1, e.0, visited + {e.1}, dist, dist', pushed)
    ensures DistInv(g, s, dist', visited + {e.1}, rest + pushed)
  {
    var (d, u) := e;
    PopAtDistance(g, s, dist, visited, pq, e);
    if visited == {} {
      assert e == (0, s);
    }
    assert dist'[s] == dist[s];
    VisitKeepsSound(g, s, dist, u, d, visited + {u}, dist', pushed);
    VisitKeepsQueue(g, dist, visited, pq, e, rest, dist', pushed);
    VisitKeepsRelaxed(g, dist, visited, u, d, dist', pushed);
  }

  /** The step of both main loops that visits the popped vertex: the
      invariant is kept, and with no negative weight so is the optimality
      of visited distances. */
  lemma VisitStep(g: Graph, s: Vertex, dist: map<Vertex, Dist>, visited: set<Vertex>, pq: seq<Entry>, e: Entry,
                  rest: seq<Entry>)
    requires DistInv(g, s, dist, visited, pq)
    requires e in pq && (forall x | x in pq :: e.0 <= x.0) && e.1 !in visited
    requires multiset(rest) == multiset(pq) - multiset{e}
    ensures e.1 in g.adj && dist[e.1] == Fin(e.0) && s in visited + {e.1} && Relaxable(g, e.1, dist)
    ensures var (dist', pushed) := Relax(g, e.1, |g.adj[e.1]|, e.0, visited + {e.1}, dist);
      && DistInv(g, s, dist', visited + {e.1}, rest + pushed)
      && (NonNegative(g) && VisitedOptimal(g, s, dist, visited) ==> VisitedOptimal(g, s, dist', visited + {e.1}))
  {
    PopAtDistance(g, s, dist, visited, pq, e);
    if visited == {} {
      assert e == (0, s);
    }
    var r := Relax(g, e.1, |g.adj[e.1]|, e.0, visited + {e.1}, dist);
    RelaxIsRelaxed(g, e.1, e.0, visited + {e.1}, dist);
    VisitKeepsInv(g, s, dist, visited, pq, e, rest, r.0, r.1);
    if NonNegative(g) && VisitedOptimal(g, s, dist, visited) {
      PopIsShortest(g, s, dist, visited, pq, e);
      VisitKeepsOptimal(g, s, dist, visited, e.1, e.0, r.0, r.1);
    }
  }

  /** Popping a visited vertex drops a stale entry and keeps the loop
      invariant. */
  lemma SkipKeepsInv(g: Graph, s: Vertex, dist: map<Vertex, Dist>, visited: set<Vertex>, pq: seq<Entry>, e: Entry,
                     rest: seq<Entry>)
    requires DistInv(g, s, dist, visited, pq)
    requires e in pq && e.1 in visited && multiset(rest) == multiset(pq) - multiset{e}
    ensures DistInv(g, s, dist, visited, rest)
  {
    forall x | x in rest ensures x in pq {
      StillQueued(pq, e, rest, x);
    }
    forall v | v in dist && v !in visited && dist[v].Fin? ensures (dist[v].n, v) in rest {
      StillQueued(pq, e, rest, (dist[v].n, v));
    }
  }

  /** The state before the first pop satisfies the loop invariant. */
  lemma DistInit(g: Graph, s: Vertex, dist: map<Vertex, Dist>)
    requires ValidGraph(g) && s in g.vertices
    requires dist == map v | v in g.vertices :: if v == s then Fin(0) else Inf
    ensures DistInv(g, s, dist, {}, [(0, s)]) && VisitedOptimal(g, s, dist, {})
  {
    assert IsPathFrom(g, [s], s, s) && Cost(g, [s]) == 0;
  }

  /** Once the queue is empty the visited set is closed under edges, so a
      vertex has a finite distance exactly when the source reaches it, and
      then it is visited. */
  lemma DistDone(g: Graph, s: Vertex, dist: map<Vertex, Dist>, visited: set<Vertex>)
    requires DistInv(g, s, dist, visited, [])
    ensures forall v | v in dist :: (dist[v].Fin? <==> Reachable(g, s, v))
    ensures forall v | v in dist && dist[v].Fin? :: v in visited
  {
    assert Closed(g, visited) by {
      forall x, y | x in visited && x in g.adj && y in g.adj[x] ensures y in visited {
      }
    }
    ClosedContainsReachable(g, visited, s);
    forall v | v in dist && dist[v].Fin? ensures Reachable(g, s, v) {
      assert Achieved(g, s, v, dist[v].n);
    }
  }

  /** One pass of the main loop of `dijkstra`: pop the least entry; skip a
      visited vertex, otherwise visit it and relax its edges. The invariant
      is kept, and either one more vertex is visited or the queue is
      shorter. */
  method DijkstraRound(g: Graph, s: Vertex, dist: map<Vertex, Dist>, visited: set<Vertex>, pq: seq<Entry>)
    returns (dist': map<Vertex, Dist>, visited': set<Vertex>, pq': seq<Entry>)
    requires DistInv(g, s, dist, visited, pq) && VisitedOptimal(g, s, dist, visited) && NonNegative(g)
    requires pq != []
    ensures DistInv(g, s, dist', visited', pq') && VisitedOptimal(g, s, dist', visited')
    ensures visited <= visited'
    ensures |g.vertices - visited'| < |g.vertices - visited| || (visited' == visited && |pq'| < |pq|)
  {
    var e, rest := PopMin(pq);
    var (d, u) := e;
    if u in visited {
      SkipKeepsInv(g, s, dist, visited, pq, e, rest);
      return dist, visited, rest;
    }
    VisitStep(g, s, dist, visited, pq, e, rest);
    visited' := visited + {u};
    dist', pq' := RelaxNeighbours(g, u, d, visited', dist, rest);
    RemainderShrinks(g.vertices, visited, visited', u);
  }

  /** `dijkstra`: a missing source is a `KeyError`, a negative weight a
      `ValueError`; otherwise every vertex's distance is finite exactly
      when the source reaches it, and then it is the least cost of a path
      to it. */
  method Dijkstra(g: Graph, source: Vertex) returns (r: Result<map<Vertex, Dist>>)
    requires ValidGraph(g)
    ensures source !in g.vertices ==> r == Err(KeyError)
    ensures source in g.vertices ==> (r == Err(ValueError) <==> !NonNegative(g))
    ensures r.Ok? ==> r.value.Keys == g.vertices
    ensures r.Ok? ==> forall v | v in r.value :: (r.value[v].Fin? <==> Reachable(g, source, v))
    ensures r.Ok? ==> forall v | v in r.value && r.value[v].Fin? ::
      Achieved(g, source, v, r.value[v].n) && NoShorter(g, source, v, r.value[v].n)
  {
    if source !in g.vertices {
      return Err(KeyError);
    }
    var ok := CheckWeights(g);
    if !ok {
      return Err(ValueError);
    }
    var dist := map v | v in g.vertices :: if v == source then Fin(0) else Inf;
    var pq := [(0, source)];
    var visited := {};
    DistInit(g, source, dist);
    while pq != []
      invariant DistInv(g, source, dist, visited, pq) && VisitedOptimal(g, source, dist, visited)
      decreases |g.vertices - visited|, |pq|
    {
      dist, visited, pq := DijkstraRound(g, source, dist, visited, pq);
    }
    DistDone(g, source, dist, visited);
    return Ok(dist);
  }

  /** The `previous` map after the neighbour loop of `dijkstra_with_path`
      over the first `k` neighbours of `u`: a neighbour whose distance the
      loop lowers gets `u`. */
  function RelaxPrev(g: Graph, u: Vertex, k: nat, d: int, visited: set<Vertex>, dist: map<Vertex, Dist>,
                     prev: map<Vertex, Option<Vertex>>): (r: map<Vertex, Option<Vertex>>)
    requires Relaxable(g, u, dist) && k <= |g.adj[u]| && forall v | v in g.adj[u] :: v in prev
    ensures r.Keys == prev.Keys
  {
    if k == 0 then prev
    else
      var before := RelaxPrev(g, u, k - 1, d, visited, dist, prev);
      var v := g.adj[u][k - 1];
      if v !in visited && Below(d + g.weight[(u, v)], Relax(g, u, k - 1, d, visited, dist).0[v]) then before[v := Some(u)]
      else before
  }

  /** A vertex's `previous` entry becomes `u` exactly when the neighbour
      loop of `u` lowers its distance, and is otherwise left alone. */
  lemma {:induction false} RelaxPrevChanged(g: Graph, u: Vertex, k: nat, d: int, visited: set<Vertex>,
                                            dist: map<Vertex, Dist>, prev: map<Vertex, Option<Vertex>>, x: Vertex)
    requires Relaxable(g, u, dist) && k <= |g.adj[u]| && (forall v | v in g.adj[u] :: v in prev)
    requires x in prev && x in dist
    ensures RelaxPrev(g, u, k, d, visited, dist, prev)[x]
              == if Relax(g, u, k, d, visited, dist).0[x] != dist[x] then Some(u) else prev[x]
  {
    if k > 0 {
      RelaxPrevChanged(g, u, k - 1, d, visited, dist, prev, x);
      RelaxNext(g, u, k - 1, d, visited, dist, prev);
      if x == g.adj[u][k - 1] {
        RelaxChange(g, u, k - 1, d, visited, dist, x);
      }
    }
  }

  /** The neighbour loop of `dijkstra_with_path`: as in `dijkstra`, and a
      neighbour whose distance is lowered records `u` as its previous
      vertex. */
  method RelaxNeighboursWithPrevious(g: Graph, u: Vertex, d: int, visited: set<Vertex>, dist: map<Vertex, Dist>,
                                     prev: map<Vertex, Option<Vertex>>, pq: seq<Entry>)
    returns (dist': map<Vertex, Dist>, prev': map<Vertex, Option<Vertex>>, pq': seq<Entry>)
    requires ValidGraph(g) && u in g.adj && dist.Keys == g.vertices && prev.Keys == g.vertices
    ensures dist' == Relax(g, u, |g.adj[u]|, d, visited, dist).0
    ensures prev' == RelaxPrev(g, u, |g.adj[u]|, d, visited, dist, prev)
    ensures pq' == pq + Relax(g, u, |g.adj[u]|, d, visited, dist).1
  {
    assert Relaxable(g, u, dist);
    var ns := g.adj[u];
    var pushed := [];
    dist', prev' := dist, prev;
    for i := 0 to |ns|
      invariant dist' == Relax(g, u, i, d, visited, dist).0
      invariant prev' == RelaxPrev(g, u, i, d, visited, dist, prev)
      invariant pushed == Relax(g, u, i, d, visited, dist).1
    {
      var v := ns[i];
      RelaxNext(g, u, i, d, visited, dist, prev);
      if v in visited {
        continue;
      }
      var newDist := d + g.weight[(u, v)];
      if Below(newDist, dist'[v]) {
        dist' := dist'[v := Fin(newDist)];
        prev' := prev'[v := Some(u)];
        pushed := pushed + [(newDist, v)];
      }
    }
    pq' := pq + pushed;
  }

  /** The neighbour loop over one more neighbour `v` of `u`: `v` is
      relaxed or left alone. */
  lemma RelaxNext(g: Graph, u: Vertex, i: nat, d: int, visited: set<Vertex>, dist: map<Vertex, Dist>,
                  prev: map<Vertex, Option<Vertex>>)
    requires Relaxable(g, u, dist) && i < |g.adj[u]| && (forall v | v in g.adj[u] :: v in prev)
    ensures var v, prior := g.adj[u][i], Relax(g, u, i, d, visited, dist);
      var newDist := d + g.weight[(u, v)];
      if v !in visited && Below(newDist, prior.0[v]) then
        && Relax(g, u, i + 1, d, visited, dist) == (prior.0[v := Fin(newDist)], prior.1 + [(newDist, v)])
        && RelaxPrev(g, u, i + 1, d, visited, dist, prev) == RelaxPrev(g, u, i, d, visited, dist, prev)[v := Some(u)]
      else
        && Relax(g, u, i + 1, d, visited, dist) == prior
        && RelaxPrev(g, u, i + 1, d, visited, dist, prev) == RelaxPrev(g, u, i, d, visited, dist, prev)
  {
  }

  /** `v`'s previous vertex `u` is visited, `v` is its neighbour, `v`'s
      distance is `u`'s plus the edge, and `u` was visited before `v`. */
  ghost predicate PrevEdge(g: Graph, dist: map<Vertex, Dist>, rank: map<Vertex, nat>, u: Vertex, v: Vertex) {
    && u in rank && u in g.adj && v in g.adj[u] && (u, v) in g.weight
    && u in dist && v in dist && dist[u].Fin? && dist[v].Fin?
    && dist[v].n == dist[u].n + g.weight[(u, v)]
    && (v in rank ==> rank[u] < rank[v])
  }

  /** The invariant of `previous` in `dijkstra_with_path`: the source has
      none, another vertex has one exactly when its distance is finite, and
      each previous link is a `PrevEdge`. The ghost `rank` numbers the
      visited vertices in visiting order. */
  ghost predicate PrevInv(g: Graph, s: Vertex, dist: map<Vertex, Dist>, prev: map<Vertex, Option<Vertex>>,
                          visited: set<Vertex>, rank: map<Vertex, nat>) {
    && prev.Keys == dist.Keys && rank.Keys == visited
    && (forall v | v in rank :: rank[v] < |visited|)
    && s in prev && prev[s] == None
    && (forall v | v in prev && v != s :: (prev[v].Some? <==> dist[v].Fin?))
    && (forall v | v in prev && prev[v].Some? :: PrevEdge(g, dist, rank, prev[v].value, v))
  }

  /** What a visit of `u` at distance `d` does to the entries of `x` in
      `dist` and `previous`: they change only for an unvisited neighbour of
      `u`, which gets distance `d` plus the edge and previous vertex `u`. */
  ghost predicate LoweredAt(g: Graph, u: Vertex, d: int, visited: set<Vertex>, dist: map<Vertex, Dist>,
                            dist': map<Vertex, Dist>, prev: map<Vertex, Option<Vertex>>,
                            prev': map<Vertex, Option<Vertex>>, x: Vertex)
    requires x in dist && x in dist' && x in prev && x in prev'
  {
    if dist'[x] == dist[x] then prev'[x] == prev[x]
    else (u in g.adj && x in g.adj[u] && x !in visited && (u, x) in g.weight
          && dist'[x] == Fin(d + g.weight[(u, x)]) && prev'[x] == Some(u))
  }

  /** `LoweredAt` for every vertex. */
  ghost predicate Lowered(g: Graph, u: Vertex, d: int, visited: set<Vertex>, dist: map<Vertex, Dist>,
                          dist': map<Vertex, Dist>, prev: map<Vertex, Option<Vertex>>, prev': map<Vertex, Option<Vertex>>) {
    && dist'.Keys == dist.Keys && prev'.Keys == prev.Keys
    && forall x | x in dist && x in prev :: LoweredAt(g, u, d, visited, dist, dist', prev, prev', x)
  }

  /** The neighbour loop of `dijkstra_with_path` lowers as described. */
  lemma RelaxLowered(g: Graph, u: Vertex, d: int, visited: set<Vertex>, dist: map<Vertex, Dist>,
                     prev: map<Vertex, Option<Vertex>>)
    requires ValidGraph(g) && u in g.adj && dist.Keys == g.vertices && prev.Keys == g.vertices
    ensures Lowered(g, u, d, visited, dist, Relax(g, u, |g.adj[u]|, d, visited, dist).0,
                    prev, RelaxPrev(g, u, |g.adj[u]|, d, visited, dist, prev))
  {
    var dist' := Relax(g, u, |g.adj[u]|, d, visited, dist).0;
    var prev' := RelaxPrev(g, u, |g.adj[u]|, d, visited, dist, prev);
    forall x | x in dist && x in prev ensures LoweredAt(g, u, d, visited, dist, dist', prev, prev', x) {
      RelaxChange(g, u, |g.adj[u]|, d, visited, dist, x);
      RelaxPrevChanged(g, u, |g.adj[u]|, d, visited, dist, prev, x);
    }
  }

  /** Visiting `u` at its distance `d` keeps the invariant of `previous`. */
  lemma PrevStep(g: Graph, s: Vertex, dist: map<Vertex, Dist>, prev: map<Vertex, Option<Vertex>>,
                 visited: set<Vertex>, rank: map<Vertex, nat>, u: Vertex, d: int,
                 dist': map<Vertex, Dist>, prev': map<Vertex, Option<Vertex>>)
    requires PrevInv(g, s, dist, prev, visited, rank) && u in dist && u !in visited && dist[u] == Fin(d)
    requires s in visited + {u}
    requires Lowered(g, u, d, visited + {u}, dist, dist', prev, prev')
    ensures PrevInv(g, s, dist', prev', visited + {u}, rank[u := |visited|])
  {
    var visited', rank' := visited + {u}, rank[u := |visited|];
    assert |visited'| == |visited| + 1;
    forall v | v in prev' && prev'[v].Some? ensures PrevEdge(g, dist', rank', prev'[v].value, v) {
      if dist'[v] == dist[v] {
        var w := prev[v].value;
        assert PrevEdge(g, dist, rank, w, v);
        assert w in visited' && dist'[w] == dist[w];
        PrevLinkKept(g, dist, dist', rank, u, |visited|, w, v);
      } else {
        assert u in visited' && dist'[u] == dist[u];
        PrevLinkNew(g, dist', rank', u, d, v);
      }
    }
  }

  /** A previous link survives a visit that changes neither end's
      distance and ranks the new vertex after every visited one. */
  lemma PrevLinkKept(g: Graph, dist: map<Vertex, Dist>, dist': map<Vertex, Dist>, rank: map<Vertex, nat>,
                     u: Vertex, k: nat, w: Vertex, v: Vertex)
    requires PrevEdge(g, dist, rank, w, v) && u !in rank && (forall x | x in rank :: rank[x] < k)
    requires w in dist' && v in dist' && dist'[w] == dist[w] && dist'[v] == dist[v]
    ensures PrevEdge(g, dist', rank[u := k], w, v)
  {
  }

  /** The link to `u` that the neighbour loop of `u` records, at distance
      `d` plus the edge, is a previous link. */
  lemma PrevLinkNew(g: Graph, dist': map<Vertex, Dist>, rank': map<Vertex, nat>, u: Vertex, d: int, v: Vertex)
    requires u in rank' && u in g.adj && v in g.adj[u] && (u, v) in g.weight && v !in rank'
    requires u in dist' && v in dist' && dist'[u] == Fin(d) && dist'[v] == Fin(d + g.weight[(u, v)])
    ensures PrevEdge(g, dist', rank', u, v)
  {
  }

  /** One pass of the main loop of `dijkstra_with_path` after popping `e`,
      which is not the target: skip a visited vertex, otherwise visit it,
      relax its edges and record previous vertices. */
  method PathRound(g: Graph, s: Vertex, target: Vertex, dist: map<Vertex, Dist>, prev: map<Vertex, Option<Vertex>>,
                   visited: set<Vertex>, pq: seq<Entry>, e: Entry, rest: seq<Entry>, ghost rank: map<Vertex, nat>)
    returns (dist': map<Vertex, Dist>, prev': map<Vertex, Option<Vertex>>, visited': set<Vertex>, pq': seq<Entry>,
             ghost rank': map<Vertex, nat>)
    requires DistInv(g, s, dist, visited, pq) && PrevInv(g, s, dist, prev, visited, rank) && target !in visited
    requires NonNegative(g) ==> VisitedOptimal(g, s, dist, visited)
    requires e in pq && (forall x | x in pq :: e.0 <= x.0) && e.1 != target
    requires multiset(rest) == multiset(pq) - multiset{e} && |rest| == |pq| - 1
    ensures DistInv(g, s, dist', visited', pq') && PrevInv(g, s, dist', prev', visited', rank') && target !in visited'
    ensures NonNegative(g) ==> VisitedOptimal(g, s, dist', visited')
    ensures visited <= visited'
    ensures |g.vertices - visited'| < |g.vertices - visited| || (visited' == visited && |pq'| < |pq|)
  {
    var (d, u) := e;
    if u in visited {
      SkipKeepsInv(g, s, dist, visited, pq, e, rest);
      return dist, prev, visited, rest, rank;
    }
    VisitStep(g, s, dist, visited, pq, e, rest);
    RelaxLowered(g, u, d, visited + {u}, dist, prev);
    PrevStep(g, s, dist, prev, visited, rank, u, d, Relax(g, u, |g.adj[u]|, d, visited + {u}, dist).0,
             RelaxPrev(g, u, |g.adj[u]|, d, visited + {u}, dist, prev));
    visited' := visited + {u};
    rank' := rank[u := |visited|];
    dist', prev', pq' := RelaxNeighboursWithPrevious(g, u, d, visited', dist, prev, rest);
    RemainderShrinks(g.vertices, visited, visited', u);
  }

  /** `list.reverse`, on a value. */
  function Reverse(xs: seq<Vertex>): (r: seq<Vertex>)
    ensures |r| == |xs| && forall i | 0 <= i < |xs| :: r[i] == xs[|xs| - 1 - i]
  {
    if xs == [] then [] else [xs[|xs| - 1]] + Reverse(xs[..|xs| - 1])
  }

  /** Following one previous link from the far end of the reversed walk
      extends the path by one edge, whose weight the distances account
      for. */
  lemma TraceStep(g: Graph, dist: map<Vertex, Dist>, rank: map<Vertex, nat>, rev: seq<Vertex>, c: Vertex, target: Vertex)
    requires ValidGraph(g) && rev != [] && target in dist && dist[target].Fin?
    requires PrevEdge(g, dist, rank, c, rev[|rev| - 1])
    requires IsPathFrom(g, Reverse(rev), rev[|rev| - 1], target)
    requires Cost(g, Reverse(rev)) + dist[rev[|rev| - 1]].n == dist[target].n
    ensures IsPathFrom(g, Reverse(rev + [c]), c, target)
    ensures Cost(g, Reverse(rev + [c])) + dist[c].n == dist[target].n
  {
    assert (rev + [c])[..|rev|] == rev;
    PathPrepend(g, c, Reverse(rev));
  }

  /** The state of the reconstruction loop: `rev` is the walk so far,
      from `target` backwards, and `current` the next vertex to add. The
      reversed walk is a path to `target` whose cost plus the distance of
      its first vertex is `target`'s distance; the loop stops at the
      source. */
  ghost predicate Traced(g: Graph, s: Vertex, target: Vertex, dist: map<Vertex, Dist>,
                         prev: map<Vertex, Option<Vertex>>, rev: seq<Vertex>, current: Option<Vertex>) {
    && ValidGraph(g) && target in dist && dist[target].Fin?
    && (current.Some? ==> current.value in prev && current.value in dist && dist[current.value].Fin?)
    && (rev == [] ==> current == Some(target))
    && (rev != [] ==>
          && rev[|rev| - 1] in prev && rev[|rev| - 1] in dist && current == prev[rev[|rev| - 1]]
          && IsPathFrom(g, Reverse(rev), rev[|rev| - 1], target)
          && dist[rev[|rev| - 1]].Fin?
          && Cost(g, Reverse(rev)) + dist[rev[|rev| - 1]].n == dist[target].n)
    && (current.None? ==> rev != [] && rev[|rev| - 1] == s)
  }

  /** How far the reconstruction is from the source: previous links lead
      to vertices visited earlier. */
  ghost function TraceRank(current: Option<Vertex>, visited: set<Vertex>, rank: map<Vertex, nat>): nat {
    match current
    case None => 0
    case Some(c) => if c in rank then rank[c] + 1 else |visited| + 1
  }

  /** One pass of the reconstruction loop keeps `Traced` and moves closer
      to the source. */
  lemma TraceAdvance(g: Graph, s: Vertex, target: Vertex, dist: map<Vertex, Dist>, prev: map<Vertex, Option<Vertex>>,
                     visited: set<Vertex>, rank: map<Vertex, nat>, rev: seq<Vertex>, current: Option<Vertex>)
    requires PrevInv(g, s, dist, prev, visited, rank) && target in g.vertices
    requires Traced(g, s, target, dist, prev, rev, current) && current.Some?
    ensures Traced(g, s, target, dist, prev, rev + [current.value], prev[current.value])
    ensures TraceRank(prev[current.value], visited, rank) < TraceRank(current, visited, rank)
  {
    var c := current.value;
    if rev == [] {
      assert Reverse([c]) == [c];
      assert IsPathFrom(g, [c], c, target);
    } else {
      TraceStep(g, dist, rank, rev, c, target);
    }
    assert (rev + [c])[|rev + [c]| - 1] == c;
  }

  /** The reconstruction of `dijkstra_with_path`: following `previous` back
      from `target` ends at the source, and the reversed walk is a path from
      the source to `target` costing `target`'s distance. */
  method TracePath(g: Graph, s: Vertex, target: Vertex, dist: map<Vertex, Dist>, prev: map<Vertex, Option<Vertex>>,
                   ghost visited: set<Vertex>, ghost rank: map<Vertex, nat>)
    returns (path: seq<Vertex>)
    requires ValidGraph(g) && PrevInv(g, s, dist, prev, visited, rank) && dist[s] == Fin(0)
    requires target in g.vertices && target in prev && dist[target].Fin?
    ensures IsPathFrom(g, path, s, target) && Cost(g, path) == dist[target].n
  {
    var rev: seq<Vertex> := [];
    var current: Option<Vertex> := Some(target);
    while current.Some?
      invariant Traced(g, s, target, dist, prev, rev, current)
      decreases TraceRank(current, visited, rank)
    {
      TraceAdvance(g, s, target, dist, prev, visited, rank, rev, current);
      rev := rev + [current.value];
      current := prev[current.value];
    }
    path := Reverse(rev);
  }

  /** What the search of `dijkstra_with_path` establishes about the
      target: its distance is finite exactly when the source reaches it,
      and then it is the cost of a path, the least one when no weight is
      negative. */
  ghost predicate TargetDistance(g: Graph, s: Vertex, target: Vertex, dist: map<Vertex, Dist>) {
    && target in dist
    && (dist[target].Fin? <==> Reachable(g, s, target))
    && (dist[target].Fin? ==> Achieved(g, s, target, dist[target].n))
    && (dist[target].Fin? && NonNegative(g) ==> NoShorter(g, s, target, dist[target].n))
  }

  /** The target popped with the least entry has its final distance. */
  lemma TargetPopped(g: Graph, s: Vertex, target: Vertex, dist: map<Vertex, Dist>, visited: set<Vertex>,
                     pq: seq<Entry>, e: Entry)
    requires DistInv(g, s, dist, visited, pq) && (NonNegative(g) ==> VisitedOptimal(g, s, dist, visited))
    requires e in pq && (forall x | x in pq :: e.0 <= x.0) && e.1 == target && target !in visited
    ensures TargetDistance(g, s, target, dist)
  {
    PopAtDistance(g, s, dist, visited, pq, e);
    assert Achieved(g, s, target, e.0);
    if NonNegative(g) {
      PopIsShortest(g, s, dist, visited, pq, e);
    }
  }

  /** A target the search never popped is unreachable. */
  lemma TargetUnreached(g: Graph, s: Vertex, target: Vertex, dist: map<Vertex, Dist>, visited: set<Vertex>)
    requires DistInv(g, s, dist, visited, []) && target in g.vertices && target !in visited
    ensures TargetDistance(g, s, target, dist)
  {
    DistDone(g, s, dist, visited);
  }

  /** The state of `dijkstra_with_path` before its main loop satisfies the
      invariants. */
  lemma PathInit(g: Graph, s: Vertex, dist: map<Vertex, Dist>, prev: map<Vertex, Option<Vertex>>)
    requires ValidGraph(g) && s in g.vertices
    requires dist == map v | v in g.vertices :: if v == s then Fin(0) else Inf
    requires prev == map v | v in g.vertices :: None
    ensures DistInv(g, s, dist, {}, [(0, s)]) && VisitedOptimal(g, s, dist, {})
    ensures PrevInv(g, s, dist, prev, {}, map[])
  {
    DistInit(g, s, dist);
  }

  /** The search of `dijkstra_with_path`, up to the reconstruction: the
      main loop, which stops early when it pops the target. */
  method PathSearch(g: Graph, source: Vertex, target: Vertex)
    returns (dist: map<Vertex, Dist>, prev: map<Vertex, Option<Vertex>>, visited: set<Vertex>,
             ghost rank: map<Vertex, nat>)
    requires ValidGraph(g) && source in g.vertices && target in g.vertices && source != target
    ensures dist.Keys == g.vertices && dist[source] == Fin(0) && PrevInv(g, source, dist, prev, visited, rank)
    ensures TargetDistance(g, source, target, dist)
  {
    dist := map v | v in g.vertices :: if v == source then Fin(0) else Inf;
    prev := map v | v in g.vertices :: None;
    var pq := [(0, source)];
    visited := {};
    rank := map[];
    ghost var reached := false;
    PathInit(g, source, dist, prev);
    while pq != []
      invariant DistInv(g, source, dist, visited, pq) && PrevInv(g, source, dist, prev, visited, rank)
      invariant target !in visited && !reached
      invariant NonNegative(g) ==> VisitedOptimal(g, source, dist, visited)
      decreases |g.vertices - visited|, |pq|
    {
      var e, rest := PopMin(pq);
      if e.1 == target {
        TargetPopped(g, source, target, dist, visited, pq, e);
        reached := true;
        break;
      }
      dist, prev, visited, pq, rank := PathRound(g, source, target, dist, prev, visited, pq, e, rest, rank);
    }
    if !reached {
      TargetUnreached(g, source, target, dist, visited);
    }
  }

  /** `dijkstra_with_path`: a missing endpoint gives `(Inf, [])`, equal
      endpoints `(0, [source])`. Otherwise the distance is finite exactly
      when the source reaches the target, the path is empty exactly when it
      is infinite, and a returned path leads from source to target and
      costs the returned distance, which is the least when no weight is
      negative. */
  method DijkstraWithPath(g: Graph, source: Vertex, target: Vertex) returns (d: Dist, path: seq<Vertex>)
    requires ValidGraph(g)
    ensures source !in g.vertices || target !in g.vertices ==> d == Inf && path == []
    ensures source in g.vertices && source == target ==> d == Fin(0) && path == [source]
    ensures d.Inf? <==> path == []
    ensures source in g.vertices && target in g.vertices ==> (d.Fin? <==> Reachable(g, source, target))
    ensures d.Fin? ==> IsPathFrom(g, path, source, target) && Cost(g, path) == d.n
    ensures d.Fin? && NonNegative(g) ==> NoShorter(g, source, target, d.n)
  {
    if source !in g.vertices || target !in g.vertices {
      return Inf, [];
    }
    if source == target {
      assert IsPathFrom(g, [source], source, target) && Cost(g, [source]) == 0;
      if NonNegative(g) {
        forall p | IsPathFrom(g, p, source, target) ensures 0 <= Cost(g, p) {
          CostNonNegative(g, p);
        }
      }
      return Fin(0), [source];
    }
    var dist, prev, visited, rank := PathSearch(g, source, target);
    if dist[target] == Inf {
      return Inf, [];
    }
    path := TracePath(g, source, target, dist, prev, visited, rank);
    return dist[target], path;
  }
}
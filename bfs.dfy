/** Breadth-first search of examples/bfs_example.py: the visit order of
    `bfs_traversal` and the fewest-edges path of `bfs_shortest_path`. The
    FIFO queue is a sequence dequeued at the front, `visited` a set, and the
    traversal order a sequence appended at the back. */
module BfsExample {
  import opened Wrappers
  import opened Graphs

  /** The vertices of `ns` outside `seen`, each once, in the order of their
      first occurrence: what the neighbour loop marks and enqueues. */
  function Unseen(ns: seq<Vertex>, seen: set<Vertex>): (r: seq<Vertex>)
    ensures forall v :: v in r <==> v in ns && v !in seen
    ensures NoDuplicates(r)
    decreases |ns|
  {
    if ns == [] then []
    else
      var front := Unseen(ns[..|ns| - 1], seen);
      var v := ns[|ns| - 1];
      if v in seen || v in ns[..|ns| - 1] then front else front + [v]
  }

  /** The loop of `bfs_traversal` over the neighbours of a dequeued
      vertex: each neighbour not yet visited is marked and enqueued. */
  method EnqueueUnvisited(ns: seq<Vertex>, visited: set<Vertex>, queue: seq<Vertex>)
    returns (visited': set<Vertex>, queue': seq<Vertex>)
    ensures visited' == visited + Elems(ns)
    ensures queue' == queue + Unseen(ns, visited)
  {
    visited', queue' := visited, queue;
    for i := 0 to |ns|
      invariant visited' == visited + Elems(ns[..i])
      invariant queue' == queue + Unseen(ns[..i], visited)
    {
      assert ns[..i + 1][..i] == ns[..i];
      if ns[i] !in visited' {
        visited' := visited' + {ns[i]};
        queue' := queue' + [ns[i]];
      }
    }
    assert ns[..|ns|] == ns;
  }

  /** Hop distances from `start` never decrease along `s`. */
  ghost predicate ByDistance(g: Graph, start: Vertex, s: seq<Vertex>) {
    forall i, j | 0 <= i < j < |s| :: Hops(g, start, s[i]) <= Hops(g, start, s[j])
  }

  /** The invariant of the main loop of `bfs_traversal`, with `order` the
      vertices dequeued so far: the vertices ever enqueued, in order, are
      `order + queue`, begin with `start`, hold no vertex twice, are the
      visited set, are reachable and come by non-decreasing hop distance;
      the queue spans at most two distances; every neighbour of a dequeued
      vertex is visited; and every vertex no farther than the head of the
      queue is visited. */
  ghost predicate BfsInv(g: Graph, start: Vertex, order: seq<Vertex>, queue: seq<Vertex>, visited: set<Vertex>) {
    && |order + queue| > 0 && (order + queue)[0] == start
    && NoDuplicates(order + queue)
    && visited == Elems(order + queue)
    && (forall v | v in visited :: Reachable(g, start, v))
    && ByDistance(g, start, order + queue)
    && (queue != [] ==> Hops(g, start, queue[|queue| - 1]) <= Hops(g, start, queue[0]) + 1)
    && (forall u, v | u in order && u in g.adj && v in g.adj[u] :: v in visited)
    && (queue != [] ==> forall w | Reachable(g, start, w) && Hops(g, start, w) <= Hops(g, start, queue[0]) :: w in visited)
  }

  /** The state before the first dequeue satisfies the invariant. */
  lemma BfsInit(g: Graph, start: Vertex)
    requires start in g.vertices
    ensures BfsInv(g, start, [], [start], {start})
  {
    assert IsPathFrom(g, [start], start, start);
    forall w | Reachable(g, start, w) && Hops(g, start, w) <= Hops(g, start, start)
      ensures w in {start}
    {
      HopsZero(g, start, start);
      HopsZero(g, start, w);
    }
    assert Elems([start]) == {start};
  }

  /** An unvisited neighbour of the vertex at the head of the queue lies
      exactly one hop beyond it. */
  lemma NextLevel(g: Graph, start: Vertex, u: Vertex, visited: set<Vertex>, v: Vertex)
    requires ValidGraph(g) && u in visited && Reachable(g, start, u)
    requires forall w | Reachable(g, start, w) && Hops(g, start, w) <= Hops(g, start, u) :: w in visited
    requires u in g.adj && v in g.adj[u] && v !in visited
    ensures Reachable(g, start, v) && Hops(g, start, v) == Hops(g, start, u) + 1
  {
    HopsEdge(g, start, u, v);
  }

  /** Dequeuing the head `u` and enqueuing its unvisited neighbours keeps
      the invariant; the new vertices are one hop beyond `u`. */
  lemma BfsStep(g: Graph, start: Vertex, order: seq<Vertex>, queue: seq<Vertex>, visited: set<Vertex>,
                N: seq<Vertex>, visited': set<Vertex>)
    requires ValidGraph(g) && BfsInv(g, start, order, queue, visited) && queue != []
    requires queue[0] in g.adj && N == Unseen(g.adj[queue[0]], visited)
    requires visited' == visited + Elems(g.adj[queue[0]])
    ensures forall v | v in N :: Reachable(g, start, v) && Hops(g, start, v) == Hops(g, start, queue[0]) + 1
    ensures BfsInv(g, start, order + [queue[0]], queue[1..] + N, visited')
  {
    var u, rest := queue[0], queue[1..];
    var enq := order + queue;
    HeadLevel(g, start, order, queue, visited, N);
    var k := Hops(g, start, u);
    var order', queue' := order + [u], rest + N;
    Dequeue(order, queue, N);
    VisitedStep(enq, visited, g.adj[u], N, visited');
    StepKeepsSequence(g, start, enq, N, visited, k);
    NeighboursVisited(g, order, u, visited, visited');
    if queue' != [] {
      NewQueueBounds(g, start, order, queue, N, k);
      assert forall x | x in visited :: x in order' || x in rest;
      StepKeepsLevels(g, start, order', u, rest, N, visited, visited', k);
    }
  }

  /** The vertices enqueued from the head of the queue lie one hop beyond
      it. */
  lemma HeadLevel(g: Graph, start: Vertex, order: seq<Vertex>, queue: seq<Vertex>, visited: set<Vertex>,
                  N: seq<Vertex>)
    requires ValidGraph(g) && BfsInv(g, start, order, queue, visited) && queue != []
    requires queue[0] in g.adj && N == Unseen(g.adj[queue[0]], visited)
    ensures queue[0] in visited
    ensures forall v | v in N :: Reachable(g, start, v) && Hops(g, start, v) == Hops(g, start, queue[0]) + 1
  {
    assert (order + queue)[|order|] == queue[0];
    forall v | v in N ensures Reachable(g, start, v) && Hops(g, start, v) == Hops(g, start, queue[0]) + 1 {
      NextLevel(g, start, queue[0], visited, v);
    }
  }

  /** Once `u` is dequeued and its neighbours marked, every neighbour of a
      dequeued vertex is visited. */
  lemma NeighboursVisited(g: Graph, order: seq<Vertex>, u: Vertex, visited: set<Vertex>, visited': set<Vertex>)
    requires u in g.adj && visited' == visited + Elems(g.adj[u])
    requires forall x, v | x in order && x in g.adj && v in g.adj[x] :: v in visited
    ensures forall x, v | x in order + [u] && x in g.adj && v in g.adj[x] :: v in visited'
  {
  }

  /** Marking the neighbours `ns` adds to the visited set exactly the
      vertices that are enqueued. */
  lemma VisitedStep(enq: seq<Vertex>, visited: set<Vertex>, ns: seq<Vertex>, N: seq<Vertex>, visited': set<Vertex>)
    requires visited == Elems(enq) && visited' == visited + Elems(ns)
    requires forall v :: v in N <==> v in ns && v !in visited
    ensures visited' == Elems(enq + N)
  {
  }

  /** Moving the head of the queue to the end of the order and appending
      to the queue leaves the enqueued sequence extended at the back. */
  lemma Dequeue<X>(order: seq<X>, queue: seq<X>, tail: seq<X>)
    requires queue != []
    ensures (order + [queue[0]]) + (queue[1..] + tail) == (order + queue) + tail
  {
    assert queue == [queue[0]] + queue[1..];
  }

  /** Appending the new vertices, all at distance `k + 1` and outside the
      visited set, keeps the enqueued sequence duplicate-free and ordered
      by distance. */
  lemma StepKeepsSequence(g: Graph, start: Vertex, enq: seq<Vertex>, N: seq<Vertex>, visited: set<Vertex>, k: nat)
    requires NoDuplicates(enq) && visited == Elems(enq) && ByDistance(g, start, enq) && |enq| > 0
    requires Hops(g, start, enq[|enq| - 1]) <= k + 1
    requires NoDuplicates(N) && forall v | v in N :: v !in visited && Hops(g, start, v) == k + 1
    ensures NoDuplicates(enq + N) && ByDistance(g, start, enq + N)
  {
    var s := enq + N;
    forall i, j | 0 <= i < j < |s| ensures s[i] != s[j] {
      if j >= |enq| && i < |enq| {
        assert s[i] in visited;
        assert s[j] in N;
      }
      if i >= |enq| {
        assert s[i] == N[i - |enq|] && s[j] == N[j - |enq|];
      }
    }
    forall i, j | 0 <= i < j < |s| ensures Hops(g, start, s[i]) <= Hops(g, start, s[j]) {
      if j >= |enq| {
        assert s[j] in N;
        if i >= |enq| {
          assert s[i] in N;
        }
      }
    }
  }

  /** After the step the new queue begins at distance `k` or `k + 1`, no
      later vertex is nearer than its head, and none is farther than
      `k + 1`. */
  lemma NewQueueBounds(g: Graph, start: Vertex, order: seq<Vertex>, queue: seq<Vertex>, N: seq<Vertex>, k: nat)
    requires queue != [] && ByDistance(g, start, order + queue)
    requires Hops(g, start, queue[|queue| - 1]) <= Hops(g, start, queue[0]) + 1
    requires k == Hops(g, start, queue[0])
    requires forall v | v in N :: Hops(g, start, v) == k + 1
    requires queue[1..] + N != []
    ensures var q := queue[1..] + N;
      && k <= Hops(g, start, q[0]) <= k + 1
      && Hops(g, start, q[|q| - 1]) <= Hops(g, start, q[0]) + 1
      && forall v | v in q :: Hops(g, start, q[0]) <= Hops(g, start, v)
  {
    var enq := order + queue;
    var q := queue[1..] + N;
    assert forall i | 0 <= i < |queue| :: queue[i] == enq[|order| + i];
    if |queue| > 1 {
      assert q[0] == enq[|order| + 1];
    } else {
      assert q[0] in N;
    }
    if N != [] {
      assert q[|q| - 1] in N;
    } else {
      assert q[|q| - 1] == queue[|queue| - 1];
    }
    forall v | v in q ensures Hops(g, start, q[0]) <= Hops(g, start, v) {
      if v !in N {
        var i :| 0 <= i < |queue[1..]| && queue[1..][i] == v;
        assert v == enq[|order| + 1 + i];
      }
    }
  }

  /** After the step every vertex no farther than the new head of the
      queue is visited: when the head has moved one hop further, each
      vertex at the new distance is a neighbour of a dequeued vertex. */
  lemma StepKeepsLevels(g: Graph, start: Vertex, order': seq<Vertex>, u: Vertex, rest: seq<Vertex>, N: seq<Vertex>,
                        visited: set<Vertex>, visited': set<Vertex>, k: nat)
    requires ValidGraph(g) && Reachable(g, start, u) && k == Hops(g, start, u)
    requires forall w | Reachable(g, start, w) && Hops(g, start, w) <= k :: w in visited
    requires forall x, v | x in order' && x in g.adj && v in g.adj[x] :: v in visited'
    requires visited <= visited'
    requires forall x | x in visited :: x in order' || x in rest
    requires rest + N != []
    requires k <= Hops(g, start, (rest + N)[0]) <= k + 1
    requires forall v | v in rest + N :: Hops(g, start, (rest + N)[0]) <= Hops(g, start, v)
    ensures forall w | Reachable(g, start, w) && Hops(g, start, w) <= Hops(g, start, (rest + N)[0]) :: w in visited'
  {
    var q := rest + N;
    forall w | Reachable(g, start, w) && Hops(g, start, w) <= Hops(g, start, q[0]) ensures w in visited' {
      if Hops(g, start, w) > k {
        HopsZero(g, start, w);
        var x := HopsPredecessor(g, start, w);
        assert x in visited;
        assert x !in q;
      }
    }
  }

  /** With the queue empty, the order is exactly the reachable vertices. */
  lemma BfsDone(g: Graph, start: Vertex, order: seq<Vertex>, visited: set<Vertex>)
    requires BfsInv(g, start, order, [], visited)
    ensures forall v :: v in order <==> Reachable(g, start, v)
  {
    assert order + [] == order;
    assert Closed(g, visited);
    ClosedContainsReachable(g, visited, start);
  }

  /** Enqueuing at least one new vertex grows the visited set; enqueuing
      none leaves it as it was. */
  lemma StepMeasure(V: set<Vertex>, visited: set<Vertex>, ns: seq<Vertex>, N: seq<Vertex>, visited': set<Vertex>)
    requires visited' == visited + Elems(ns) && visited' <= V
    requires forall v :: v in N <==> v in ns && v !in visited
    ensures N != [] ==> |V - visited'| < |V - visited|
    ensures N == [] ==> visited' == visited
  {
    if N != [] {
      RemainderShrinks(V, visited, visited', N[0]);
    } else {
      forall v | v in ns ensures v in visited {
        assert v !in N;
      }
    }
  }

  /** One round of the main loop of `bfs_traversal`: dequeue the head,
      append it to the order and enqueue its unvisited neighbours. The
      invariant is kept, and either the visited set grows or it stays and
      the queue shrinks. */
  method BfsRound(g: Graph, start: Vertex, order: seq<Vertex>, queue: seq<Vertex>, visited: set<Vertex>)
    returns (order': seq<Vertex>, queue': seq<Vertex>, visited': set<Vertex>)
    requires ValidGraph(g) && BfsInv(g, start, order, queue, visited) && visited <= g.vertices && queue != []
    ensures BfsInv(g, start, order', queue', visited') && visited' <= g.vertices
    ensures order' == order + [queue[0]]
    ensures |g.vertices - visited'| < |g.vertices - visited|
         || (|g.vertices - visited'| == |g.vertices - visited| && |queue'| < |queue|)
  {
    var u := queue[0];
    assert u in visited by {
      assert (order + queue)[|order|] == u;
    }
    var N := Unseen(g.adj[u], visited);
    visited', queue' := EnqueueUnvisited(g.adj[u], visited, queue[1..]);
    BfsStep(g, start, order, queue, visited, N, visited');
    StepMeasure(g.vertices, visited, g.adj[u], N, visited');
    order' := order + [u];
  }

  /** `bfs_traversal`: a missing start vertex is a `KeyError`; otherwise
      the visit order begins at `start`, lists every vertex reachable from
      `start` exactly once and nothing else, and lists them by
      non-decreasing number of edges from `start`. */
  method BfsTraversal(g: Graph, start: Vertex) returns (r: Result<seq<Vertex>>)
    requires ValidGraph(g)
    ensures start !in g.vertices <==> r == Err(KeyError)
    ensures r.Ok? ==> var order := r.value;
      && |order| > 0 && order[0] == start
      && NoDuplicates(order)
      && (forall v :: v in order <==> Reachable(g, start, v))
      && ByDistance(g, start, order)
  {
    if start !in g.vertices {
      return Err(KeyError);
    }
    var visited: set<Vertex> := {start};
    var queue: seq<Vertex> := [start];
    var order: seq<Vertex> := [];
    BfsInit(g, start);
    while queue != []
      invariant BfsInv(g, start, order, queue, visited)
      invariant visited <= g.vertices
      decreases |g.vertices - visited|, |queue|
    {
      order, queue, visited := BfsRound(g, start, order, queue, visited);
    }
    BfsDone(g, start, order, visited);
    assert order + [] == order;
    return Ok(order);
  }

  /** A queue entry of `bfs_shortest_path`: a vertex and the path that
      led to it. */
  type Entry = (Vertex, seq<Vertex>)

  /** The vertices of the queue entries. */
  ghost function Firsts(q: seq<Entry>): seq<Vertex> {
    seq(|q|, i requires 0 <= i < |q| => q[i].0)
  }

  /** The entries enqueued for the new vertices `vs`, each with `path`
      extended by it. */
  function Extend(vs: seq<Vertex>, path: seq<Vertex>): seq<Entry> {
    seq(|vs|, i requires 0 <= i < |vs| => (vs[i], path + [vs[i]]))
  }

  /** The neighbour loop of `bfs_shortest_path` for the entry `(u, path)`:
      it stops with `path + [goal]` at the first neighbour that is the
      goal; otherwise it marks every unvisited neighbour and enqueues it
      with its extended path. */
  method ScanNeighbours(ns: seq<Vertex>, goal: Vertex, path: seq<Vertex>, visited: set<Vertex>, queue: seq<Entry>)
    returns (found: Option<seq<Vertex>>, visited': set<Vertex>, queue': seq<Entry>)
    ensures found.Some? <==> goal in ns
    ensures found.Some? ==> found.value == path + [goal]
    ensures found.None? ==> visited' == visited + Elems(ns) && queue' == queue + Extend(Unseen(ns, visited), path)
  {
    visited', queue' := visited, queue;
    for i := 0 to |ns|
      invariant goal !in ns[..i]
      invariant visited' == visited + Elems(ns[..i])
      invariant queue' == queue + Extend(Unseen(ns[..i], visited), path)
    {
      assert ns[..i + 1][..i] == ns[..i];
      if ns[i] == goal {
        return Some(path + [goal]), visited', queue';
      }
      if ns[i] !in visited' {
        visited' := visited' + {ns[i]};
        ExtendAppend(Unseen(ns[..i], visited), ns[i], path);
        queue' := queue' + [(ns[i], path + [ns[i]])];
      }
    }
    assert ns[..|ns|] == ns;
    return None, visited', queue';
  }

  lemma ExtendAppend(vs: seq<Vertex>, v: Vertex, path: seq<Vertex>)
    ensures Extend(vs + [v], path) == Extend(vs, path) + [(v, path + [v])]
  {
  }

  /** The invariant of the main loop of `bfs_shortest_path`, with `order`
      the vertices dequeued so far: the vertices of the queue satisfy the
      traversal invariant, the goal is not visited, and every entry's path
      leads from `start` to its vertex with the fewest edges. */
  ghost predicate ShortestInv(g: Graph, start: Vertex, goal: Vertex, order: seq<Vertex>, queue: seq<Entry>, visited: set<Vertex>) {
    && BfsInv(g, start, order, Firsts(queue), visited)
    && goal !in visited
    && visited <= g.vertices
    && forall i | 0 <= i < |queue| ::
         IsPathFrom(g, queue[i].1, start, queue[i].0) && |queue[i].1| == Hops(g, start, queue[i].0) + 1
  }

  /** Dequeuing and extending keeps the vertices of the queue in step. */
  lemma FirstsStep(queue: seq<Entry>, N: seq<Vertex>, path: seq<Vertex>)
    requires queue != []
    ensures Firsts(queue[1..] + Extend(N, path)) == Firsts(queue)[1..] + N
  {
  }

  /** Dequeuing `(u, path)` without meeting the goal keeps the invariant
      of `bfs_shortest_path`. */
  lemma ShortestStep(g: Graph, start: Vertex, goal: Vertex, order: seq<Vertex>, queue: seq<Entry>, visited: set<Vertex>,
                     N: seq<Vertex>, visited': set<Vertex>)
    requires ValidGraph(g) && ShortestInv(g, start, goal, order, queue, visited) && queue != []
    requires queue[0].0 in g.adj && goal !in g.adj[queue[0].0]
    requires N == Unseen(g.adj[queue[0].0], visited) && visited' == visited + Elems(g.adj[queue[0].0])
    ensures ShortestInv(g, start, goal, order + [queue[0].0], queue[1..] + Extend(N, queue[0].1), visited')
  {
    var (u, path) := queue[0];
    assert Firsts(queue)[0] == u;
    BfsStep(g, start, order, Firsts(queue), visited, N, visited');
    FirstsStep(queue, N, path);
    NewEntries(g, start, u, path, N);
    var q' := queue[1..] + Extend(N, path);
    forall i | 0 <= i < |q'|
      ensures IsPathFrom(g, q'[i].1, start, q'[i].0) && |q'[i].1| == Hops(g, start, q'[i].0) + 1
    {
      if i < |queue| - 1 {
        assert q'[i] == queue[i + 1];
      } else {
        assert q'[i] == Extend(N, path)[i - (|queue| - 1)];
      }
    }
  }

  /** A goal met among the neighbours of the head `(u, path)` is one hop
      beyond `u`, so `path + [goal]` has the fewest edges. */
  lemma FoundIsShortest(g: Graph, start: Vertex, goal: Vertex, order: seq<Vertex>, queue: seq<Entry>, visited: set<Vertex>)
    requires ValidGraph(g) && ShortestInv(g, start, goal, order, queue, visited) && queue != []
    requires queue[0].0 in g.adj && goal in g.adj[queue[0].0]
    ensures IsPathFrom(g, queue[0].1 + [goal], start, goal) && |queue[0].1 + [goal]| == Hops(g, start, goal) + 1
  {
    var (u, path) := queue[0];
    assert Firsts(queue)[0] == u;
    assert u in visited by {
      assert (order + Firsts(queue))[|order|] == u;
    }
    NextLevel(g, start, u, visited, goal);
    PathAppend(g, path, goal);
  }

  /** One round of the main loop of `bfs_shortest_path`. A found path
      leads from `start` to `goal` with the fewest edges; otherwise the
      invariant is kept and the search has progressed. */
  method ShortestRound(g: Graph, start: Vertex, goal: Vertex, ghost order: seq<Vertex>, queue: seq<Entry>, visited: set<Vertex>)
    returns (found: Option<seq<Vertex>>, ghost order': seq<Vertex>, queue': seq<Entry>, visited': set<Vertex>)
    requires ValidGraph(g) && ShortestInv(g, start, goal, order, queue, visited) && queue != []
    ensures found.Some? ==> IsPathFrom(g, found.value, start, goal) && |found.value| == Hops(g, start, goal) + 1
    ensures found.None? ==> ShortestInv(g, start, goal, order', queue', visited')
    ensures found.None? ==> (|g.vertices - visited'| < |g.vertices - visited|
                             || (|g.vertices - visited'| == |g.vertices - visited| && |queue'| < |queue|))
  {
    var (u, path) := queue[0];
    assert Firsts(queue)[0] == u;
    assert u in visited by {
      assert (order + Firsts(queue))[|order|] == u;
    }
    ghost var N := Unseen(g.adj[u], visited);
    found, visited', queue' := ScanNeighbours(g.adj[u], goal, path, visited, queue[1..]);
    order' := order + [u];
    if found.Some? {
      FoundIsShortest(g, start, goal, order, queue, visited);
    } else {
      ShortestStep(g, start, goal, order, queue, visited, N, visited');
      StepMeasure(g.vertices, visited, g.adj[u], N, visited');
    }
  }

  /** The entries enqueued for the new neighbours of `u` carry paths with
      the fewest edges. */
  lemma NewEntries(g: Graph, start: Vertex, u: Vertex, path: seq<Vertex>, N: seq<Vertex>)
    requires ValidGraph(g) && u in g.adj && IsPathFrom(g, path, start, u) && |path| == Hops(g, start, u) + 1
    requires forall v | v in N :: v in g.adj[u] && Hops(g, start, v) == Hops(g, start, u) + 1
    ensures forall i | 0 <= i < |N| ::
              IsPathFrom(g, Extend(N, path)[i].1, start, Extend(N, path)[i].0)
              && |Extend(N, path)[i].1| == Hops(g, start, Extend(N, path)[i].0) + 1
  {
    forall i | 0 <= i < |N|
      ensures IsPathFrom(g, path + [N[i]], start, N[i])
    {
      PathAppend(g, path, N[i]);
    }
  }

  /** `bfs_shortest_path`: the empty list when either end is missing or
      the goal is unreachable, and otherwise a path from `start` to `goal`
      with the fewest edges (just `[start]` when they coincide). */
  method BfsShortestPath(g: Graph, start: Vertex, goal: Vertex) returns (r: seq<Vertex>)
    requires ValidGraph(g)
    ensures start !in g.vertices || goal !in g.vertices ==> r == []
    ensures start in g.vertices && goal in g.vertices ==> (r == [] <==> !Reachable(g, start, goal))
    ensures r != [] ==> IsPathFrom(g, r, start, goal)
    ensures r != [] ==> forall p | IsPathFrom(g, p, start, goal) :: |r| <= |p|
  {
    if start !in g.vertices || goal !in g.vertices {
      return [];
    }
    if start == goal {
      assert IsPathFrom(g, [start], start, goal);
      return [start];
    }
    var visited: set<Vertex> := {start};
    var queue: seq<Entry> := [(start, [start])];
    ghost var order: seq<Vertex> := [];
    BfsInit(g, start);
    assert Firsts(queue) == [start];
    assert IsPathFrom(g, [start], start, start);
    HopsZero(g, start, start);
    while queue != []
      invariant ShortestInv(g, start, goal, order, queue, visited)
      decreases |g.vertices - visited|, |queue|
    {
      var found;
      found, order, queue, visited := ShortestRound(g, start, goal, order, queue, visited);
      if found.Some? {
        forall p | IsPathFrom(g, p, start, goal) ensures |found.value| <= |p| {
          HopsShortest(g, start, goal, p);
        }
        return found.value;
      }
    }
    assert Firsts(queue) == [];
    BfsDone(g, start, order, visited);
    assert order + [] == order;
    return [];
  }
}

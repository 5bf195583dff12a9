/** Depth-first search of examples/dfs_example.py: the recursive
    `dfs_traversal`, the explicit-stack `dfs_iterative` and the reachability
    test `has_path_dfs`. The `visited` set and the traversal order that the
    nested Python helpers update through their closure are passed in and
    returned here. */
module DfsExample {
  import opened Wrappers
  import opened Graphs

  /** Every neighbour of a vertex of `S` lies in `T`. */
  ghost predicate NeighboursIn(g: Graph, S: set<Vertex>, T: set<Vertex>) {
    forall u, v | u in S && u in g.adj && v in g.adj[u] :: v in T
  }

  /** What a call `dfs_recursive(vertex)` has done once it has started
      on the state (`visited`, `order`) and reached (`visited'`, `order'`):
      the order has grown by a block that starts at `vertex` and holds the
      newly visited vertices once each, all reachable from `vertex`. */
  ghost predicate Descended(g: Graph, vertex: Vertex, visited: set<Vertex>, order: seq<Vertex>,
                            visited': set<Vertex>, order': seq<Vertex>) {
    && vertex !in visited
    && visited' == Elems(order') && NoDuplicates(order') && visited + {vertex} <= visited' <= g.vertices
    && |order'| > |order| && order'[..|order|] == order && order'[|order|] == vertex
    && forall v | v in visited' - visited :: Reachable(g, vertex, v)
  }

  /** `dfs_recursive(vertex)`: marks `vertex`, appends it to the order and
      descends into each neighbour still unvisited, in neighbour order.
      Afterwards every neighbour of each newly visited vertex has been
      visited. */
  method DfsRecursive(g: Graph, vertex: Vertex, visited: set<Vertex>, order: seq<Vertex>)
    returns (visited': set<Vertex>, order': seq<Vertex>)
    requires ValidGraph(g) && vertex in g.vertices && vertex !in visited && visited <= g.vertices
    requires visited == Elems(order) && NoDuplicates(order)
    ensures Descended(g, vertex, visited, order, visited', order')
    ensures NeighboursIn(g, visited' - visited, visited')
    decreases |g.vertices - visited|, 1
  {
    visited' := visited + {vertex};
    order' := order + [vertex];
    StartDescent(g, vertex, visited, order);
    var ns := g.adj[vertex];
    for i := 0 to |ns|
      invariant Descended(g, vertex, visited, order, visited', order')
      invariant forall j | 0 <= j < i :: ns[j] in visited'
      invariant NeighboursIn(g, visited' - (visited + {vertex}), visited')
    {
      if ns[i] !in visited' {
        visited', order' := VisitNeighbour(g, vertex, ns[i], visited, order, visited', order');
      }
    }
    FinishNeighbours(g, vertex, visited, visited');
  }

  /** The call `dfs_recursive(n)` made from `dfs_recursive(vertex)` for
      an unvisited neighbour `n`. */
  method VisitNeighbour(g: Graph, vertex: Vertex, n: Vertex, visited: set<Vertex>, order: seq<Vertex>,
                        current: set<Vertex>, currentOrder: seq<Vertex>)
    returns (visited': set<Vertex>, order': seq<Vertex>)
    requires ValidGraph(g) && vertex in g.adj && n in g.adj[vertex] && n !in current
    requires Descended(g, vertex, visited, order, current, currentOrder)
    requires NeighboursIn(g, current - (visited + {vertex}), current)
    ensures Descended(g, vertex, visited, order, visited', order')
    ensures current + {n} <= visited'
    ensures NeighboursIn(g, visited' - (visited + {vertex}), visited')
    decreases |g.vertices - visited|, 0
  {
    RemainderShrinks(g.vertices, visited, current, vertex);
    NeighbourIsVertex(g, vertex, n);
    visited', order' := DfsRecursive(g, n, current, currentOrder);
    DescentKeepsOrder(order, currentOrder, order', vertex);
    DescentKeepsReach(g, vertex, n, visited, current, visited');
    DescentKeepsNeighbours(g, visited + {vertex}, current, visited');
  }

  /** Marking and appending `vertex` starts a descent. */
  lemma StartDescent(g: Graph, vertex: Vertex, visited: set<Vertex>, order: seq<Vertex>)
    requires vertex in g.vertices && vertex !in visited && visited <= g.vertices
    requires visited == Elems(order) && NoDuplicates(order)
    ensures Descended(g, vertex, visited, order, visited + {vertex}, order + [vertex])
  {
    assert IsPathFrom(g, [vertex], vertex, vertex);
    assert (order + [vertex])[..|order|] == order;
  }

  /** The vertices a descent into the neighbour `n` of `vertex` newly
      visits are reachable from `vertex`. */
  lemma DescentKeepsReach(g: Graph, vertex: Vertex, n: Vertex, visited: set<Vertex>, before: set<Vertex>, after: set<Vertex>)
    requires ValidGraph(g) && vertex in g.vertices && n in g.adj[vertex]
    requires forall v | v in before - visited :: Reachable(g, vertex, v)
    requires forall v | v in after - before :: Reachable(g, n, v)
    ensures forall v | v in after - visited :: Reachable(g, vertex, v)
  {
    forall v | v in after - before ensures Reachable(g, vertex, v) {
      ReachableThrough(g, vertex, n, v);
    }
  }

  /** The explored region stays explored when a descent explores more. */
  lemma DescentKeepsNeighbours(g: Graph, S: set<Vertex>, before: set<Vertex>, after: set<Vertex>)
    requires S <= before <= after
    requires NeighboursIn(g, before - S, before) && NeighboursIn(g, after - before, after)
    ensures NeighboursIn(g, after - S, after)
  {
  }

  /** Once every neighbour of `vertex` is visited, all newly visited
      vertices are explored. */
  lemma FinishNeighbours(g: Graph, vertex: Vertex, visited: set<Vertex>, after: set<Vertex>)
    requires vertex in g.adj && forall j | 0 <= j < |g.adj[vertex]| :: g.adj[vertex][j] in after
    requires NeighboursIn(g, after - (visited + {vertex}), after)
    ensures NeighboursIn(g, after - visited, after)
  {
  }

  /** An extension of an order that extends `order` by a block starting at
      `vertex` still does. */
  lemma DescentKeepsOrder(order: seq<Vertex>, mid: seq<Vertex>, order': seq<Vertex>, vertex: Vertex)
    requires |mid| > |order| && mid[..|order|] == order && mid[|order|] == vertex
    requires |order'| > |mid| && order'[..|mid|] == mid
    ensures |order'| > |order| && order'[..|order|] == order && order'[|order|] == vertex
  {
    assert order'[..|order|] == mid[..|order|];
  }

  /** `dfs_traversal`: a missing start vertex is a `KeyError`; otherwise
      the order begins at `start` and lists every vertex reachable from
      `start` exactly once and nothing else. */
  method DfsTraversal(g: Graph, start: Vertex) returns (r: Result<seq<Vertex>>)
    requires ValidGraph(g)
    ensures start !in g.vertices <==> r == Err(KeyError)
    ensures r.Ok? ==> var order := r.value;
      && |order| > 0 && order[0] == start
      && NoDuplicates(order)
      && (forall v :: v in order <==> Reachable(g, start, v))
  {
    if start !in g.vertices {
      return Err(KeyError);
    }
    var visited, order := DfsRecursive(g, start, {}, []);
    assert visited - {} == visited;
    ClosedContainsReachable(g, visited, start);
    return Ok(order);
  }

  /** The neighbours of `ns` outside `seen`, last first: what the loop
      over `reversed(neighbors)` pushes, so that the first neighbour ends
      up on top of the stack. */
  function Pushed(ns: seq<Vertex>, seen: set<Vertex>): (r: seq<Vertex>)
    ensures forall v :: v in r <==> v in ns && v !in seen
  {
    if ns == [] then []
    else Pushed(ns[1..], seen) + (if ns[0] in seen then [] else [ns[0]])
  }

  /** The loop of `dfs_iterative` that pushes the unvisited neighbours in
      reverse order. */
  method PushUnvisited(ns: seq<Vertex>, visited: set<Vertex>, stack: seq<Vertex>) returns (stack': seq<Vertex>)
    ensures stack' == stack + Pushed(ns, visited)
  {
    stack' := stack;
    for i := |ns| downto 0
      invariant stack' == stack + Pushed(ns[i..], visited)
    {
      assert ns[i..][1..] == ns[i + 1..];
      if ns[i] !in visited {
        stack' := stack' + [ns[i]];
      }
    }
    assert ns[0..] == ns;
  }

  /** The invariant of the loop of `dfs_iterative`: the order lists the
      visited vertices once each, beginning at `start` (before the first
      pop the stack holds just `start`); everything visited or stacked is
      a reachable vertex; and every neighbour of a visited vertex is
      visited or on the stack. */
  ghost predicate StackInv(g: Graph, start: Vertex, order: seq<Vertex>, stack: seq<Vertex>, visited: set<Vertex>) {
    && visited == Elems(order) && NoDuplicates(order) && visited <= g.vertices
    && (order == [] ==> stack == [start])
    && (order != [] ==> order[0] == start)
    && (forall v | v in visited + Elems(stack) :: Reachable(g, start, v))
    && NeighboursIn(g, visited, visited + Elems(stack))
  }

  /** One pop of `dfs_iterative`: a visited vertex is dropped; an
      unvisited one is marked, appended and its unvisited neighbours are
      pushed. The invariant is kept, and either the visited set grows or
      it stays and the stack shrinks. */
  method DfsPop(g: Graph, start: Vertex, order: seq<Vertex>, stack: seq<Vertex>, visited: set<Vertex>)
    returns (order': seq<Vertex>, stack': seq<Vertex>, visited': set<Vertex>)
    requires ValidGraph(g) && StackInv(g, start, order, stack, visited) && stack != []
    ensures StackInv(g, start, order', stack', visited')
    ensures |g.vertices - visited'| < |g.vertices - visited|
         || (|g.vertices - visited'| == |g.vertices - visited| && |stack'| < |stack|)
  {
    var vertex := stack[|stack| - 1];
    var rest := stack[..|stack| - 1];
    assert stack == rest + [vertex];
    if vertex in visited {
      DropKeepsInv(g, start, order, stack, visited, vertex, rest);
      return order, rest, visited;
    }
    visited' := visited + {vertex};
    order' := order + [vertex];
    RemainderShrinks(g.vertices, visited, visited', vertex);
    var ns := g.adj[vertex];
    stack' := PushUnvisited(ns, visited', rest);
    PopKeepsInv(g, start, order, stack, visited, vertex, rest, stack');
  }

  /** The invariant after popping an already visited vertex. */
  lemma DropKeepsInv(g: Graph, start: Vertex, order: seq<Vertex>, stack: seq<Vertex>, visited: set<Vertex>,
                     vertex: Vertex, rest: seq<Vertex>)
    requires StackInv(g, start, order, stack, visited)
    requires stack == rest + [vertex] && vertex in visited
    ensures StackInv(g, start, order, rest, visited)
  {
    assert Elems(stack) == Elems(rest) + {vertex};
    assert order != [] by {
      assert vertex in Elems(order);
    }
    forall u, v | u in visited && u in g.adj && v in g.adj[u] ensures v in visited + Elems(rest) {
      assert v in visited + Elems(stack);
    }
  }

  /** The invariant after popping the unvisited `vertex` and pushing its
      unvisited neighbours. */
  lemma PopKeepsInv(g: Graph, start: Vertex, order: seq<Vertex>, stack: seq<Vertex>, visited: set<Vertex>,
                    vertex: Vertex, rest: seq<Vertex>, stack': seq<Vertex>)
    requires ValidGraph(g) && StackInv(g, start, order, stack, visited)
    requires stack == rest + [vertex] && vertex !in visited
    requires vertex in g.adj && stack' == rest + Pushed(g.adj[vertex], visited + {vertex})
    ensures StackInv(g, start, order + [vertex], stack', visited + {vertex})
  {
    var visited', order' := visited + {vertex}, order + [vertex];
    assert vertex in Elems(stack);
    assert Reachable(g, start, vertex);
    assert Elems(stack) == Elems(rest) + {vertex};
    assert visited' == Elems(order');
    forall v | v in Elems(stack') ensures v in Elems(rest) || v in g.adj[vertex] {
      var i :| 0 <= i < |stack'| && stack'[i] == v;
      if i >= |rest| {
        assert v in Pushed(g.adj[vertex], visited');
      } else {
        assert v == rest[i];
      }
    }
    forall v | v in visited' + Elems(stack') ensures Reachable(g, start, v) {
      if v in g.adj[vertex] {
        HopsEdge(g, start, vertex, v);
      }
    }
    forall u, v | u in visited' && u in g.adj && v in g.adj[u] ensures v in visited' + Elems(stack') {
      if v !in visited' {
        assert v in Pushed(g.adj[vertex], visited') || v in Elems(rest) by {
          if u == vertex {
            assert v in Pushed(g.adj[vertex], visited');
          } else {
            assert v in visited + Elems(stack);
          }
        }
        if v in Pushed(g.adj[vertex], visited') {
          assert stack'[|rest| ..] == Pushed(g.adj[vertex], visited');
        } else {
          assert stack'[..|rest|] == rest;
        }
      }
    }
  }

  /** `dfs_iterative`: a missing start vertex is a `KeyError`; otherwise
      the order begins at `start` and lists every vertex reachable from
      `start` exactly once and nothing else. */
  method DfsIterative(g: Graph, start: Vertex) returns (r: Result<seq<Vertex>>)
    requires ValidGraph(g)
    ensures start !in g.vertices <==> r == Err(KeyError)
    ensures r.Ok? ==> var order := r.value;
      && |order| > 0 && order[0] == start
      && NoDuplicates(order)
      && (forall v :: v in order <==> Reachable(g, start, v))
  {
    if start !in g.vertices {
      return Err(KeyError);
    }
    var visited: set<Vertex> := {};
    var stack: seq<Vertex> := [start];
    var order: seq<Vertex> := [];
    assert IsPathFrom(g, [start], start, start);
    assert Elems([start]) == {start};
    while stack != []
      invariant StackInv(g, start, order, stack, visited)
      decreases |g.vertices - visited|, |stack|
    {
      order, stack, visited := DfsPop(g, start, order, stack, visited);
    }
    assert Elems([]) == {};
    assert start in visited;
    ClosedContainsReachable(g, visited, start);
    return Ok(order);
  }

  /** `dfs_search(vertex)`: true when `vertex` is the goal or the goal is
      found from a neighbour still unvisited. A true answer means the goal
      is reachable from `vertex`; a false one leaves the goal unvisited
      and every neighbour of each newly visited vertex visited. */
  method DfsSearch(g: Graph, goal: Vertex, vertex: Vertex, visited: set<Vertex>)
    returns (found: bool, visited': set<Vertex>)
    requires ValidGraph(g) && vertex in g.vertices && vertex !in visited && visited <= g.vertices
    ensures found ==> Reachable(g, vertex, goal)
    ensures !found ==> goal !in visited' - visited && vertex in visited' && visited <= visited' <= g.vertices
    ensures !found ==> NeighboursIn(g, visited' - visited, visited')
    decreases |g.vertices - visited|, 1
  {
    if vertex == goal {
      assert IsPathFrom(g, [vertex], vertex, goal);
      return true, visited;
    }
    visited' := visited + {vertex};
    var ns := g.adj[vertex];
    for i := 0 to |ns|
      invariant goal !in visited' - visited && visited + {vertex} <= visited' <= g.vertices
      invariant forall j | 0 <= j < i :: ns[j] in visited'
      invariant NeighboursIn(g, visited' - (visited + {vertex}), visited')
    {
      if ns[i] !in visited' {
        found, visited' := SearchNeighbour(g, goal, vertex, ns[i], visited, visited');
        if found {
          return;
        }
      }
    }
    FinishNeighbours(g, vertex, visited, visited');
    found := false;
  }

  /** The call `dfs_search(n)` made from `dfs_search(vertex)` for an
      unvisited neighbour `n`. */
  method SearchNeighbour(g: Graph, goal: Vertex, vertex: Vertex, n: Vertex, visited: set<Vertex>, current: set<Vertex>)
    returns (found: bool, visited': set<Vertex>)
    requires ValidGraph(g) && vertex in g.adj && n in g.adj[vertex] && n !in current
    requires vertex !in visited && visited + {vertex} <= current <= g.vertices && goal !in current - visited
    requires NeighboursIn(g, current - (visited + {vertex}), current)
    ensures found ==> Reachable(g, vertex, goal)
    ensures !found ==> goal !in visited' - visited && current + {n} <= visited' <= g.vertices
    ensures !found ==> NeighboursIn(g, visited' - (visited + {vertex}), visited')
    decreases |g.vertices - visited|, 0
  {
    RemainderShrinks(g.vertices, visited, current, vertex);
    NeighbourIsVertex(g, vertex, n);
    found, visited' := DfsSearch(g, goal, n, current);
    if found {
      ReachableThrough(g, vertex, n, goal);
    } else {
      DescentKeepsNeighbours(g, visited + {vertex}, current, visited');
    }
  }

  /** `has_path_dfs`: true exactly when both vertices exist and `goal` is
      reachable from `start`. */
  method HasPathDfs(g: Graph, start: Vertex, goal: Vertex) returns (r: bool)
    requires ValidGraph(g)
    ensures r <==> start in g.vertices && goal in g.vertices && Reachable(g, start, goal)
  {
    if start !in g.vertices || goal !in g.vertices {
      return false;
    }
    if start == goal {
      assert IsPathFrom(g, [start], start, goal);
      return true;
    }
    var visited;
    r, visited := DfsSearch(g, goal, start, {});
    if !r {
      assert visited - {} == visited;
      ClosedContainsReachable(g, visited, start);
    }
  }
}

# Graph algorithm examples, modelled in Dafny

This project models the four reference algorithms of a graph-algorithms
teaching testbench and proves what they promise:

- `examples/union_find_example.py`: a disjoint-set forest (`UnionFind`)
  kept in the dictionaries `parent`, `rank` and `size`. It offers
  `__init__`, `make_set`, a path-compressing `find`, union by rank
  (`union`), `connected`, `get_size` and `num_sets`.
- `examples/dijkstra_example.py` has two functions:
  - `dijkstra` computes shortest distances using a heap with lazy
    deletion;
  - `dijkstra_with_path` stops early at a target and rebuilds the path
    from the `previous` links.
- `examples/bfs_example.py` has two functions:
  - `bfs_traversal` returns the visit order;
  - `bfs_shortest_path` carries a path with each queue entry and returns
    a path with the fewest edges.
- `examples/dfs_example.py` has three functions:
  - `dfs_traversal` uses a nested recursive helper;
  - `dfs_iterative` uses an explicit stack;
  - `has_path_dfs` uses a nested recursive search.

Files:

- `graphs.dfy`: the read-only graph the algorithms borrow. It holds the
  vertex set, each vertex's neighbour list in the container's order, and
  the edge weights. It also defines walks, path cost, reachability and hop
  distance.
- `wrappers.dfy`: the `Result`/`Outcome`/`Option` types used for
  `KeyError` and `ValueError`, plus `Pick`, an arbitrary choice from a set.
  `Pick` stands for iteration over a Python `set` or `dict`, whose order
  the model leaves open.
- `union_find.dfy`, `dijkstra.dfy`, `bfs.dfy`, `dfs.dfy`: one module per
  source file.

How the source's constructs map to Dafny:

- The loops and recursive helpers of the source become methods with the
  same loops and recursion.
- Each method is proved against a specification:
  - for Dijkstra's neighbour loop, the function `Relax`;
  - for BFS's neighbour loop, `Unseen`;
  - for the iterative DFS's push loop, `Pushed`;
  - for the main loops and the recursions, invariants on reachability,
    path cost and hop distance.
- The nested Python helpers update the enclosing function's `visited`
  and `traversal_order` through their closure. Here those become
  parameters in and results out.
- Python's `float('inf')` becomes the `Inf` case of `Dist`.
- Both Python `KeyError`/`ValueError` exceptions and sentinel returns
  become values.

## Model

| member | source | states |
|---|---|---|
| UnionFindExample.Init | examples/union_find_example.py:38-45 | every listed element is its own parent with rank 0 and size 1; the dictionaries form a forest representing the partition into singletons |
| UnionFindExample.MakeSet | examples/union_find_example.py:57-62 | a present element is a ValueError and changes nothing; otherwise exactly the new entries `x -> x`, rank 0, size 1 are added, the forest invariant holds and the set of representatives gains `x` |
| UnionFindExample.FindPath | examples/union_find_example.py:81-82 | the elements `find(x)` recurses through: `x` and its representative among them, all in `x`'s set, none for an unknown `x` |
| UnionFindExample.Find | examples/union_find_example.py:77-84 | unknown element is a KeyError and changes nothing; otherwise the result is the representative of `x`'s set; the new parent map re-points exactly the elements on `x`'s path at their representative and leaves every other entry as it was; partition, ranks and sizes are preserved with the forest invariant |
| UnionFindExample.FindTwice | examples/union_find_example.py:77-84 | `find` is idempotent: a second call on the compressed forest returns the same result, which is a success exactly for known elements |
| UnionFindExample.CompressTwice | examples/union_find_example.py:81-82 | compressing one set of elements and then another is compressing their union |
| UnionFindExample.FindPathClosed | examples/union_find_example.py:81-82 | the path of an element on `x`'s path lies within `x`'s path |
| UnionFindExample.FindPathAfterCompress | examples/union_find_example.py:81-82 | after `x`'s path is compressed, `y`'s path together with `x`'s covers exactly what it covered before |
| UnionFindExample.FindBoth | examples/union_find_example.py:102-103 | the two finds of `union` (and of `connected`) return the representatives of `x` and `y`, or a KeyError if either is unknown (raised after `x`'s path is compressed, `y`'s untouched); the new parent map re-points exactly the elements on both paths at their representative; the forest invariant is kept |
| UnionFindExample.LinkRoots | examples/union_find_example.py:106-124 | equal roots report false and change nothing; different roots report true, the lower-rank root goes under the other (on a tie `root_y` under `root_x`, whose rank grows by one) and no other parent changes, the survivor's size is the sum, every member of both sets is now represented by the survivor, and the number of sets drops by exactly one |
| UnionFindExample.Union | examples/union_find_example.py:102-124 | KeyError for an unknown element; otherwise reports whether the sets differed, afterwards `x` and `y` share a representative, false leaves partition, ranks and sizes unchanged, true merges by rank and removes exactly one set; the parent map is the one both finds leave, with the loser root re-pointed when the sets were merged |
| UnionFindExample.Connected | examples/union_find_example.py:137 | KeyError for an unknown element; otherwise true exactly when `x` and `y` have the same representative; the parent map is the one both finds leave |
| UnionFindExample.UnionThenConnected | examples/union_find_example.py:102-137 | `connected(x, y)` after `union(x, y)` on known elements is true |
| UnionFindExample.GetSize | examples/union_find_example.py:149-150 | KeyError for an unknown element; otherwise the number of members of `x`'s set; the parent map is the one `find(x)` leaves |
| UnionFindExample.NumSets | examples/union_find_example.py:159-162 | the number of distinct roots found equals the number of sets of the partition; afterwards every element's parent is its representative, and the forest invariant is kept |
| UnionFindExample.MergeRemovesOneSet | examples/union_find_example.py:110-122 | merging two different sets yields a partition with the loser's representative gone, one set fewer, the winner's set the disjoint union of both and every other set untouched |
| UnionFindExample.SingletonsAreForest | examples/union_find_example.py:38-45 | the initial dictionaries satisfy the forest invariant for the singleton partition |
| UnionFindExample.AddSingletonKeepsForest | examples/union_find_example.py:60-62 | adding a fresh singleton keeps the forest invariant and adds exactly one representative |
| UnionFindExample.CompressKeepsForest | examples/union_find_example.py:81-82 | re-pointing an element at its representative keeps the forest invariant |
| UnionFindExample.LinkKeepsForest | examples/union_find_example.py:110-122 | linking one root under another (with or without the rank increment) keeps the forest invariant for the merged partition and removes one set |
| DijkstraExample.CheckWeights | examples/dijkstra_example.py:38-40 | the weight check passes exactly when no edge weight is negative |
| DijkstraExample.PopMin | examples/dijkstra_example.py:51 | `heappop` returns an entry of the queue no larger than any other, and the rest is the queue less that one entry |
| DijkstraExample.RelaxNeighbours | examples/dijkstra_example.py:60-69 | the neighbour loop's distances and pushed entries are those of `Relax` over all neighbours |
| DijkstraExample.RelaxChange | examples/dijkstra_example.py:60-69 | a distance changes only for an unvisited neighbour and then to `d + weight`, which is strictly below the old value: distances only decrease, and only by relaxation |
| DijkstraExample.RelaxBound | examples/dijkstra_example.py:60-69 | after the loop every unvisited neighbour is at most `d + weight(u, v)` |
| DijkstraExample.RelaxPushed | examples/dijkstra_example.py:65-69 | each pushed entry is an unvisited neighbour at its new distance `d + weight` |
| DijkstraExample.RelaxRecorded | examples/dijkstra_example.py:67-69 | every lowered distance has a pushed entry at its new value |
| DijkstraExample.RelaxIsRelaxed | examples/dijkstra_example.py:60-69 | the loop meets the loop-free description `Relaxed` (only decreases, bound on every unvisited neighbour, pushes exact, every change pushed) |
| DijkstraExample.CostNonNegative | examples/dijkstra_example.py:38-40 | with no negative weight no path costs less than 0 |
| DijkstraExample.PrefixCost | examples/dijkstra_example.py:38-40 | with no negative weight a prefix of a path costs no more than the path |
| DijkstraExample.PopAtDistance | examples/dijkstra_example.py:51-57 | an unvisited vertex popped with the least entry is popped at its recorded distance |
| DijkstraExample.PopIsShortest | examples/dijkstra_example.py:51-57 | with no negative weight that popped distance is no more than the cost of any path to the vertex |
| DijkstraExample.LeavingEdgeBound | examples/dijkstra_example.py:60-69 | a path leaving the visited set along a relaxed edge costs at least the far end's distance |
| DijkstraExample.VisitKeepsSound | examples/dijkstra_example.py:57-69 | after a visit every finite distance is still the cost of some path from the source |
| DijkstraExample.VisitKeepsQueue | examples/dijkstra_example.py:51-69 | after a visit every queue entry is at or above its vertex's distance and every unvisited finite vertex has an entry at its distance |
| DijkstraExample.VisitKeepsEntries | examples/dijkstra_example.py:51-69 | surviving and pushed entries are at or above their vertex's new distance |
| DijkstraExample.VisitKeepsLazy | examples/dijkstra_example.py:51-69 | every unvisited vertex with a finite distance keeps an entry at exactly that distance |
| DijkstraExample.VisitKeepsRelaxed | examples/dijkstra_example.py:57-69 | visited distances stay finite and every edge from a visited to an unvisited vertex is relaxed |
| DijkstraExample.VisitKeepsOptimal | examples/dijkstra_example.py:57-69 | visited distances are never changed again, so they stay least |
| DijkstraExample.VisitKeepsInv | examples/dijkstra_example.py:50-69 | popping the least unvisited entry, visiting it and relaxing keeps the loop invariant |
| DijkstraExample.VisitStep | examples/dijkstra_example.py:50-69 | the visit step keeps the invariant and, with no negative weight, the optimality of visited distances |
| DijkstraExample.SkipKeepsInv | examples/dijkstra_example.py:54-55 | skipping a stale entry of a visited vertex keeps the invariant |
| DijkstraExample.DistInit | examples/dijkstra_example.py:43-48 | infinity everywhere but 0 at the source, with the queue `[(0, source)]`, satisfies the invariant |
| DijkstraExample.DistDone | examples/dijkstra_example.py:50-71 | when the queue is empty a distance is finite exactly when the source reaches the vertex, and then the vertex was visited |
| DijkstraExample.DijkstraRound | examples/dijkstra_example.py:50-69 | one pass of the main loop keeps the invariant and optimality and shrinks the unvisited set or the queue |
| DijkstraExample.Dijkstra | examples/dijkstra_example.py:18-71 | KeyError for a missing source (checked first); otherwise ValueError exactly when some weight is negative; otherwise an entry for every vertex, finite exactly for reachable vertices, each finite one the cost of a path and no more than any path's cost |
| DijkstraExample.RelaxPrevChanged | examples/dijkstra_example.py:121-124 | a vertex's `previous` becomes `u` exactly when the loop lowers its distance, otherwise it is untouched |
| DijkstraExample.RelaxNeighboursWithPrevious | examples/dijkstra_example.py:114-124 | the neighbour loop of `dijkstra_with_path` produces `Relax`'s distances and entries and `RelaxPrev`'s `previous` map |
| DijkstraExample.RelaxLowered | examples/dijkstra_example.py:114-124 | each vertex's distance and `previous` either stay or become `d + weight(u, x)` and `u` together |
| DijkstraExample.PrevStep | examples/dijkstra_example.py:112-124 | visiting keeps the `previous` invariant: every link is an edge from an earlier-visited vertex whose distance plus the weight is the linked vertex's distance |
| DijkstraExample.PathRound | examples/dijkstra_example.py:104-124 | one pass of the loop of `dijkstra_with_path` keeps both invariants and shrinks the unvisited set or the queue |
| DijkstraExample.Reverse | examples/dijkstra_example.py:135 | the reversed list has the same length with the elements in opposite order |
| DijkstraExample.TraceStep | examples/dijkstra_example.py:132-134 | following one `previous` link extends the reversed walk to a path that still accounts for the target's distance |
| DijkstraExample.TraceAdvance | examples/dijkstra_example.py:132-134 | one pass of the reconstruction keeps its invariant and moves to a vertex visited earlier, so the loop ends |
| DijkstraExample.TracePath | examples/dijkstra_example.py:130-135 | the reconstructed path leads from the source to the target along edges and costs exactly the target's distance |
| DijkstraExample.TargetPopped | examples/dijkstra_example.py:106-107 | when the target is popped its distance is the cost of a path and, with no negative weight, the least |
| DijkstraExample.TargetUnreached | examples/dijkstra_example.py:103-128 | a target never popped before the queue empties is unreachable and stays at infinity |
| DijkstraExample.PathInit | examples/dijkstra_example.py:96-101 | the initial distances, `previous` map and queue satisfy both invariants |
| DijkstraExample.PathSearch | examples/dijkstra_example.py:96-124 | after the loop the target's distance is finite exactly when it is reachable, and then is a path cost that no path undercuts when no weight is negative; the `previous` invariant holds |
| DijkstraExample.DijkstraWithPath | examples/dijkstra_example.py:74-137 | `(inf, [])` for a missing endpoint, `(0, [source])` for equal ones; otherwise the distance is finite exactly when the target is reachable, the path is empty exactly when it is infinite, and a returned path leads from source to target and costs the distance, which is least when no weight is negative |
| BfsExample.Unseen | examples/bfs_example.py:41-44 | the enqueued vertices are exactly the neighbours not yet visited, each once |
| BfsExample.EnqueueUnvisited | examples/bfs_example.py:41-44 | the neighbour loop marks every neighbour and appends exactly `Unseen` to the queue |
| BfsExample.BfsInit | examples/bfs_example.py:29-33 | the state `visited = {start}`, `queue = [start]` satisfies the loop invariant |
| BfsExample.NextLevel | examples/bfs_example.py:41-44 | an unvisited neighbour of the head of the queue is exactly one hop beyond it |
| BfsExample.HeadLevel | examples/bfs_example.py:37-44 | the head of the queue is visited and every vertex it enqueues is one hop beyond it |
| BfsExample.BfsStep | examples/bfs_example.py:35-44 | dequeuing and enqueuing keeps the invariant: no duplicates, visited equals enqueued, all reachable, ordered by hop distance, queue spans two levels, every closer vertex visited |
| BfsExample.StepKeepsSequence | examples/bfs_example.py:41-44 | appending the new vertices keeps the enqueued sequence duplicate-free and ordered by hop distance |
| BfsExample.NewQueueBounds | examples/bfs_example.py:35-44 | the new queue spans at most two consecutive hop distances |
| BfsExample.StepKeepsLevels | examples/bfs_example.py:35-44 | every vertex no farther than the new head of the queue is visited |
| BfsExample.BfsDone | examples/bfs_example.py:35-46 | when the queue is empty the order holds exactly the reachable vertices |
| BfsExample.StepMeasure | examples/bfs_example.py:41-44 | enqueuing a vertex shrinks the unvisited set and enqueuing none leaves it |
| BfsExample.BfsRound | examples/bfs_example.py:36-44 | one round appends the head to the order, keeps the invariant and shrinks the unvisited set or, when no vertex is enqueued, the queue |
| BfsExample.BfsTraversal | examples/bfs_example.py:14-46 | KeyError exactly for a missing start; otherwise the order starts at `start`, has no duplicates, holds exactly the reachable vertices and is ordered by hop distance |
| BfsExample.ScanNeighbours | examples/bfs_example.py:75-81 | the goal among the neighbours returns `path + [goal]`; otherwise every neighbour is marked and the unvisited ones are enqueued with extended paths |
| BfsExample.ShortestStep | examples/bfs_example.py:72-81 | dequeuing without meeting the goal keeps the invariant: each entry's path leads from start to its vertex with the fewest edges |
| BfsExample.FoundIsShortest | examples/bfs_example.py:76-77 | a goal met next to the head gives a start-to-goal path with the fewest edges |
| BfsExample.NewEntries | examples/bfs_example.py:79-81 | each new entry's path is a start-to-vertex path with the fewest edges |
| BfsExample.ShortestRound | examples/bfs_example.py:73-81 | one round either returns a shortest path to the goal or keeps the invariant and shrinks the unvisited set or the queue |
| BfsExample.BfsShortestPath | examples/bfs_example.py:49-83 | `[]` for a missing endpoint; otherwise `[]` exactly when the goal is unreachable, and a non-empty result is a start-to-goal path with no more vertices than any other such path |
| DfsExample.DfsRecursive | examples/dfs_example.py:30-37 | the call visits `vertex` first and appends a block of newly visited vertices, each once and reachable from `vertex`, after which every neighbour of a newly visited vertex is visited |
| DfsExample.VisitNeighbour | examples/dfs_example.py:35-37 | the loop step for one neighbour keeps the descent's properties and leaves that neighbour visited |
| DfsExample.StartDescent | examples/dfs_example.py:32-33 | marking and appending `vertex` starts a descent |
| DfsExample.DescentKeepsReach | examples/dfs_example.py:35-37 | vertices reached through a neighbour are reachable from `vertex` |
| DfsExample.DescentKeepsNeighbours | examples/dfs_example.py:35-37 | the explored region stays closed under neighbours as the descent grows |
| DfsExample.FinishNeighbours | examples/dfs_example.py:35-37 | once every neighbour of `vertex` is visited, all newly visited vertices have all neighbours visited |
| DfsExample.DescentKeepsOrder | examples/dfs_example.py:33-37 | later descents only extend the order after the block that starts at `vertex` |
| DfsExample.DfsTraversal | examples/dfs_example.py:13-40 | KeyError exactly for a missing start; otherwise the order starts at `start`, has no duplicates and holds exactly the reachable vertices |
| DfsExample.Pushed | examples/dfs_example.py:70-73 | the pushed vertices are exactly the neighbours not visited |
| DfsExample.PushUnvisited | examples/dfs_example.py:70-73 | the loop over the reversed neighbours pushes exactly `Pushed` |
| DfsExample.DfsPop | examples/dfs_example.py:62-73 | one pop keeps the stack invariant and shrinks the unvisited set or the stack |
| DfsExample.DropKeepsInv | examples/dfs_example.py:62-64 | dropping an already visited vertex keeps the invariant |
| DfsExample.PopKeepsInv | examples/dfs_example.py:64-73 | visiting a popped vertex and pushing its unvisited neighbours keeps the invariant |
| DfsExample.DfsIterative | examples/dfs_example.py:43-75 | KeyError exactly for a missing start; otherwise the order starts at `start`, has no duplicates and holds exactly the reachable vertices |
| DfsExample.DfsSearch | examples/dfs_example.py:98-109 | true only if the goal is reachable from `vertex`; false only after exploring a region closed under neighbours that misses the goal |
| DfsExample.SearchNeighbour | examples/dfs_example.py:104-107 | the loop step for one neighbour keeps the search's properties |
| DfsExample.HasPathDfs | examples/dfs_example.py:78-111 | true exactly when both vertices exist and the goal is reachable from the start |

## Left out

- The graph container (`graph/graph.py`) is not part of this model. It is
  the `Graph` value with `ValidGraph` as its invariant. `neighbors(u)` is
  the neighbour list of `u`, `weight(u, v)` the weight map and `edges()`
  every listed neighbour pair.
- Edge weights are integers. Floating-point weights and `float('inf')`
  arithmetic are not modelled; infinity is the `Inf` case of `Dist`.
- The priority queue is a sequence, not a binary heap. `PopMin` takes the
  first least entry, so ties between equal entries may be broken
  differently from `heapq`. The correctness contracts do not depend on
  tie order.
- Iteration order over Python sets and dictionaries is left open:
  - `Pick` chooses from a set;
  - `edges()` in the weight check is visited in any order;
  - `num_sets` iterates over `parent` in any order.
- The union-find object is modelled by value. Its methods take and return
  the three dictionaries, together with a ghost map from each element to
  its representative. In-place update, aliasing of the object and
  `self` are not captured. Elements are integers; the structure only
  hashes and compares them.
- Python's recursion limit for `find`, `dfs_recursive` and `dfs_search`
  is not modelled.
- The demonstration `__main__` blocks, the task stubs, the test
  harnesses and the graph loaders are not modelled.
- DijkstraWithPath: least distance is proved only when no weight is
  negative. `dijkstra_with_path` does not check weights, and with a
  negative weight its result need not be least.
- DijkstraExample.Dijkstra: the worked example in the demonstration block
  is not reproduced.

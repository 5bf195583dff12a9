/** Disjoint-set forest of examples/union_find_example.py: the dictionaries
    `parent`, `rank` and `size`, updated in place by a path-compressing
    `find`, union by rank, `make_set`, and the queries `connected`,
    `get_size` and `num_sets`.

    The abstract state is the partition, given by a ghost map `root` from
    every element to the representative of its set. The functions below
    describe partitions as such; the forest invariant ties the three
    dictionaries to one. */
module UnionFindExample {
  import opened Wrappers

  /** The elements. The structure only compares them for equality and
      uses them as dictionary keys, so integers stand for any hashable
      value. */
  type Elem = int

  /** Each element maps to a representative that represents itself. */
  ghost predicate IsPartition(root: map<Elem, Elem>) {
    forall x | x in root :: root[x] in root && root[root[x]] == root[x]
  }

  /** The elements whose set is represented by `r`. */
  ghost function Members(root: map<Elem, Elem>, r: Elem): set<Elem> {
    set x | x in root && root[x] == r
  }

  /** The representatives, one per set. */
  ghost function Representatives(root: map<Elem, Elem>): set<Elem> {
    set x | x in root && root[x] == x
  }

  /** The partition after the set of `loser` is merged into that of `winner`. */
  ghost function Merge(root: map<Elem, Elem>, loser: Elem, winner: Elem): map<Elem, Elem> {
    map x | x in root :: if root[x] == loser then winner else root[x]
  }

  /** The representatives are exactly the values the partition takes. */
  lemma RepresentativesAreImage(root: map<Elem, Elem>)
    requires IsPartition(root)
    ensures Representatives(root) == RootsOf(root, root.Keys)
  {
    forall r | r in Representatives(root) ensures r in RootsOf(root, root.Keys) {
      assert root[r] == r;
    }
  }

  /** The representatives of the elements of `S`. */
  ghost function RootsOf(root: map<Elem, Elem>, S: set<Elem>): set<Elem> {
    set x | x in S && x in root :: root[x]
  }

  /** Taking one more element `e` out of the pending set `R` adds its
      representative to the representatives of the elements done. */
  lemma RootsOfShrink(root: map<Elem, Elem>, R: set<Elem>, e: Elem)
    requires e in R && R <= root.Keys
    ensures RootsOf(root, root.Keys - (R - {e})) == RootsOf(root, root.Keys - R) + {root[e]}
  {
    assert root.Keys - (R - {e}) == (root.Keys - R) + {e};
  }

  lemma MergeKeepsPartition(root: map<Elem, Elem>, loser: Elem, winner: Elem)
    requires IsPartition(root) && winner in root && root[winner] == winner
    ensures IsPartition(Merge(root, loser, winner))
  {
  }

  /** Merging the set of `loser` into another removes exactly `loser` from
      the representatives. */
  lemma MergeDropsLoser(root: map<Elem, Elem>, loser: Elem, winner: Elem)
    requires IsPartition(root)
    requires loser in Representatives(root) && winner in Representatives(root) && loser != winner
    ensures Representatives(Merge(root, loser, winner)) == Representatives(root) - {loser}
    ensures |Representatives(Merge(root, loser, winner))| == |Representatives(root)| - 1
  {
    var m := Merge(root, loser, winner);
    forall x | x in root ensures (x in Representatives(m)) == (x in Representatives(root) - {loser}) {
      if root[x] == loser && x != loser {
        assert root[loser] == loser;
      }
    }
  }

  /** Merging two different sets leaves a partition with one set fewer,
      whose merged set holds exactly the members of both and whose other
      sets are unchanged. */
  lemma MergeRemovesOneSet(root: map<Elem, Elem>, loser: Elem, winner: Elem)
    requires IsPartition(root)
    requires loser in Representatives(root) && winner in Representatives(root) && loser != winner
    ensures IsPartition(Merge(root, loser, winner))
    ensures Representatives(Merge(root, loser, winner)) == Representatives(root) - {loser}
    ensures |Representatives(Merge(root, loser, winner))| == |Representatives(root)| - 1
    ensures Members(root, winner) !! Members(root, loser)
    ensures Members(Merge(root, loser, winner), winner) == Members(root, winner) + Members(root, loser)
    ensures forall r | r != winner :: Members(Merge(root, loser, winner), r) == if r == loser then {} else Members(root, r)
  {
    var m := Merge(root, loser, winner);
    MergeDropsLoser(root, loser, winner);
    forall r | r != winner ensures Members(m, r) == if r == loser then {} else Members(root, r) {
      if r == loser {
        forall x | x in m ensures m[x] != loser {
        }
      }
    }
  }

  /** Every parent lies in its child's set. */
  ghost predicate ParentsInSet(parent: map<Elem, Elem>, root: map<Elem, Elem>)
    requires parent.Keys <= root.Keys
  {
    && parent.Values <= root.Keys
    && forall x {:trigger parent[x]} | x in parent :: root[parent[x]] == root[x]
  }

  /** Every representative is its own parent. */
  ghost predicate RootsSelfParented(parent: map<Elem, Elem>, root: map<Elem, Elem>)
    requires root.Keys <= parent.Keys
  {
    forall r {:trigger parent[r]} | r in root && root[r] == r :: parent[r] == r
  }

  /** Ranks strictly increase from a non-root to its parent and to its root. */
  ghost predicate RanksIncrease(parent: map<Elem, Elem>, rank: map<Elem, int>, root: map<Elem, Elem>)
    requires parent.Keys == root.Keys == rank.Keys && IsPartition(root) && ParentsInSet(parent, root)
  {
    && (forall x {:trigger parent[x]} | x in parent && root[x] != x :: rank[x] < rank[parent[x]])
    && (forall x {:trigger root[x]} | x in root && root[x] != x :: rank[x] < rank[root[x]])
  }

  /** A representative's size counts the members of its set. */
  ghost predicate SizesCount(size: map<Elem, int>, root: map<Elem, Elem>)
    requires Representatives(root) <= size.Keys
  {
    forall r | r in Representatives(root) :: size[r] == |Members(root, r)|
  }

  /** The forest invariant over the three dictionaries and the partition
      they represent: the dictionaries share the partition's elements, a
      parent lies in its child's set, representatives are self-parented,
      ranks strictly increase towards the root, and a representative's
      `size` counts the members of its set. */
  ghost predicate IsForest(parent: map<Elem, Elem>, rank: map<Elem, int>, size: map<Elem, int>, root: map<Elem, Elem>) {
    && parent.Keys == root.Keys && rank.Keys == root.Keys && size.Keys == root.Keys
    && IsPartition(root)
    && ParentsInSet(parent, root)
    && RootsSelfParented(parent, root)
    && RanksIncrease(parent, rank, root)
    && SizesCount(size, root)
  }

  /** The partition of a list of elements into singleton sets. */
  ghost function Discrete(elements: seq<Elem>): map<Elem, Elem> {
    map x | x in elements :: x
  }

  /** `__init__`: every element of `elements` is its own parent with rank 0
      and size 1 (a repeated element is listed once), which represents the
      partition into singleton sets. */
  method Init(elements: seq<Elem>) returns (parent: map<Elem, Elem>, rank: map<Elem, int>, size: map<Elem, int>)
    ensures IsForest(parent, rank, size, Discrete(elements))
    ensures parent.Keys == set x | x in elements
    ensures forall x | x in parent :: parent[x] == x && rank[x] == 0 && size[x] == 1
  {
    parent := map x | x in elements :: x;
    rank := map x | x in elements :: 0;
    size := map x | x in elements :: 1;
    SingletonsAreForest(elements, parent, rank, size);
  }

  /** `make_set`: adds `x` as a new singleton set of rank 0 and size 1,
      leaving every other entry alone; a present `x` is a ValueError and
      changes nothing. */
  method MakeSet(parent: map<Elem, Elem>, rank: map<Elem, int>, size: map<Elem, int>, ghost root: map<Elem, Elem>, x: Elem)
    returns (parent': map<Elem, Elem>, rank': map<Elem, int>, size': map<Elem, int>, r: Outcome)
    requires IsForest(parent, rank, size, root)
    ensures x in root ==> r == Fail(ValueError) && parent' == parent && rank' == rank && size' == size
    ensures x !in root ==>
              && r == Pass
              && parent' == parent[x := x] && rank' == rank[x := 0] && size' == size[x := 1]
              && IsForest(parent', rank', size', root[x := x])
              && Representatives(root[x := x]) == Representatives(root) + {x}
  {
    if x in parent {
      return parent, rank, size, Fail(ValueError);
    }
    AddSingletonKeepsForest(parent, rank, size, root, x);
    return parent[x := x], rank[x := 0], size[x := 1], Pass;
  }

  /** The elements `find(x)` passes through: `x` and its ancestors up to
      and including its representative (none for an unknown `x`). They all
      lie in `x`'s set. */
  ghost function FindPath(parent: map<Elem, Elem>, rank: map<Elem, int>, size: map<Elem, int>, root: map<Elem, Elem>, x: Elem)
    : (P: set<Elem>)
    requires IsForest(parent, rank, size, root)
    ensures x !in root ==> P == {}
    ensures x in root ==> x in P && root[x] in P
    ensures forall z | z in P :: z in root && x in root && root[z] == root[x]
    decreases if x in root then rank[root[x]] - rank[x] else 0
  {
    if x !in root then {}
    else if parent[x] == x then {x}
    else {x} + FindPath(parent, rank, size, root, parent[x])
  }

  /** The parent map with every element of `P` re-pointed directly at its
      representative and every other entry left as it is. */
  ghost function Compress(parent: map<Elem, Elem>, root: map<Elem, Elem>, P: set<Elem>): map<Elem, Elem>
    requires parent.Keys <= root.Keys
  {
    map z | z in parent :: if z in P then root[z] else parent[z]
  }

  /** Re-pointing `A` and then `B` is re-pointing `A + B`. */
  lemma CompressTwice(parent: map<Elem, Elem>, root: map<Elem, Elem>, A: set<Elem>, B: set<Elem>)
    requires parent.Keys <= root.Keys
    ensures Compress(Compress(parent, root, A), root, B) == Compress(parent, root, A + B)
  {
  }

  /** The path of an element on the path of `x` is part of the path of `x`. */
  lemma {:induction false} FindPathClosed(parent: map<Elem, Elem>, rank: map<Elem, int>, size: map<Elem, int>, root: map<Elem, Elem>,
                                          x: Elem, y: Elem)
    requires IsForest(parent, rank, size, root)
    requires y in FindPath(parent, rank, size, root, x)
    ensures FindPath(parent, rank, size, root, y) <= FindPath(parent, rank, size, root, x)
    decreases if x in root then rank[root[x]] - rank[x] else 0
  {
    if y != x {
      FindPathClosed(parent, rank, size, root, parent[x], y);
    }
  }

  /** After the path of `x` is compressed, the path of `y` together with
      that of `x` covers the same elements as before. */
  lemma {:induction false} FindPathAfterCompress(parent: map<Elem, Elem>, rank: map<Elem, int>, size: map<Elem, int>, root: map<Elem, Elem>,
                                                 x: Elem, y: Elem)
    requires IsForest(parent, rank, size, root)
    requires IsForest(Compress(parent, root, FindPath(parent, rank, size, root, x)), rank, size, root)
    ensures var Px := FindPath(parent, rank, size, root, x);
      Px + FindPath(Compress(parent, root, Px), rank, size, root, y) == Px + FindPath(parent, rank, size, root, y)
    decreases if y in root then rank[root[y]] - rank[y] else 0
  {
    var Px := FindPath(parent, rank, size, root, x);
    var p := Compress(parent, root, Px);
    if y in Px {
      FindPathClosed(parent, rank, size, root, x, y);
      if p[y] != y {
        assert FindPath(p, rank, size, root, p[y]) == {root[y]};
      }
    } else if y in root && parent[y] != y {
      FindPathAfterCompress(parent, rank, size, root, x, parent[y]);
    }
  }

  /** `find`: the representative of `x`'s set, re-pointing every element on
      the way directly at it; an unknown `x` is a KeyError. The partition,
      the ranks and the sizes do not change, and every parent either stays
      or becomes its element's representative. */
  method Find(parent: map<Elem, Elem>, rank: map<Elem, int>, size: map<Elem, int>, ghost root: map<Elem, Elem>, x: Elem)
    returns (parent': map<Elem, Elem>, r: Result<Elem>)
    requires IsForest(parent, rank, size, root)
    ensures IsForest(parent', rank, size, root)
    ensures parent' == Compress(parent, root, FindPath(parent, rank, size, root, x))
    ensures x !in root ==> r == Err(KeyError) && parent' == parent
    ensures x in root ==> r == Ok(root[x])
    decreases if x in root then rank[root[x]] - rank[x] else 0
  {
    if x !in parent {
      return parent, Err(KeyError);
    }
    if parent[x] == x {
      return parent, Ok(x);
    }
    var p, rp := Find(parent, rank, size, root, parent[x]);
    CompressKeepsForest(p, rank, size, root, x);
    return p[x := rp.value], rp;
  }

  /** Finding the same element twice gives the same representative, the
      second time without changing anything further. */
  method FindTwice(parent: map<Elem, Elem>, rank: map<Elem, int>, size: map<Elem, int>, ghost root: map<Elem, Elem>, x: Elem)
    returns (r1: Result<Elem>, r2: Result<Elem>)
    requires IsForest(parent, rank, size, root)
    ensures r1 == r2
    ensures x in root <==> r1.Ok?
  {
    var p1, p2;
    p1, r1 := Find(parent, rank, size, root, x);
    p2, r2 := Find(p1, rank, size, root, x);
  }

  /** The elements the two finds of `union` and `connected` pass through:
      the path of `x` and, unless `find(x)` already raised, that of `y`. */
  ghost function FindBothPath(parent: map<Elem, Elem>, rank: map<Elem, int>, size: map<Elem, int>, root: map<Elem, Elem>, x: Elem, y: Elem)
    : set<Elem>
    requires IsForest(parent, rank, size, root)
  {
    FindPath(parent, rank, size, root, x) + (if x in root then FindPath(parent, rank, size, root, y) else {})
  }

  /** The first two lines of `union` and the body of `connected`: the
      representatives of `x` and of `y`, found in that order; an unknown
      element is a KeyError (raised after `x`'s path may already have been
      compressed). The partition, the ranks and the sizes do not change. */
  method FindBoth(parent: map<Elem, Elem>, rank: map<Elem, int>, size: map<Elem, int>, ghost root: map<Elem, Elem>, x: Elem, y: Elem)
    returns (parent': map<Elem, Elem>, r: Result<(Elem, Elem)>)
    requires IsForest(parent, rank, size, root)
    ensures IsForest(parent', rank, size, root)
    ensures parent' == Compress(parent, root, FindBothPath(parent, rank, size, root, x, y))
    ensures x !in root || y !in root ==> r == Err(KeyError)
    ensures x in root && y in root ==> r == Ok((root[x], root[y]))
  {
    var p, fx := Find(parent, rank, size, root, x);
    if fx.Err? {
      return p, Err(KeyError);
    }
    var fy;
    parent', fy := Find(p, rank, size, root, y);
    ghost var Px := FindPath(parent, rank, size, root, x);
    CompressTwice(parent, root, Px, FindPath(p, rank, size, root, y));
    FindPathAfterCompress(parent, rank, size, root, x, y);
    if fy.Err? {
      return parent', Err(KeyError);
    }
    return parent', Ok((fx.value, fy.value));
  }

  /** The union-by-rank step on two different roots `rx` and `ry`: the
      root of strictly lower rank goes under the other, and on a tie `ry`
      goes under `rx`, whose rank grows by one; no other parent changes,
      the surviving root's size is the sum of both, and the partition
      merges the two sets. */
  ghost predicate Linked(parent': map<Elem, Elem>, rank': map<Elem, int>, size': map<Elem, int>, root': map<Elem, Elem>,
                         parent: map<Elem, Elem>, rank: map<Elem, int>, size: map<Elem, int>, root: map<Elem, Elem>, rx: Elem, ry: Elem)
    requires rx in rank && ry in rank && rx in size && ry in size
  {
    if rank[rx] < rank[ry] then
      && parent' == parent[rx := ry]
      && rank' == rank && size' == size[ry := size[ry] + size[rx]] && root' == Merge(root, rx, ry)
    else
      && parent' == parent[ry := rx]
      && rank' == (if rank[rx] == rank[ry] then rank[rx := rank[rx] + 1] else rank)
      && size' == size[rx := size[rx] + size[ry]] && root' == Merge(root, ry, rx)
  }

  /** The rest of `union`, on the two roots found: equal roots change
      nothing and report false; different roots are linked by rank, which
      leaves one set fewer, and report true. */
  method LinkRoots(parent: map<Elem, Elem>, rank: map<Elem, int>, size: map<Elem, int>, ghost root: map<Elem, Elem>, rx: Elem, ry: Elem)
    returns (parent': map<Elem, Elem>, rank': map<Elem, int>, size': map<Elem, int>, ghost root': map<Elem, Elem>, merged: bool)
    requires IsForest(parent, rank, size, root)
    requires rx in Representatives(root) && ry in Representatives(root)
    ensures IsForest(parent', rank', size', root')
    ensures merged == (rx != ry)
    ensures !merged ==> parent' == parent && rank' == rank && size' == size && root' == root
    ensures merged ==> Linked(parent', rank', size', root', parent, rank, size, root, rx, ry)
    ensures merged ==> |Representatives(root')| == |Representatives(root)| - 1
    ensures merged ==> forall z | z in root && (root[z] == rx || root[z] == ry) :: z in root' && root'[z] == (if rank[rx] < rank[ry] then ry else rx)
  {
    if rx == ry {
      return parent, rank, size, root, false;
    }
    if rank[rx] < rank[ry] {
      LinkKeepsForest(parent, rank, size, root, rx, ry, false);
      return parent[rx := ry], rank, size[ry := size[ry] + size[rx]], Merge(root, rx, ry), true;
    } else if rank[rx] > rank[ry] {
      LinkKeepsForest(parent, rank, size, root, ry, rx, false);
      return parent[ry := rx], rank, size[rx := size[rx] + size[ry]], Merge(root, ry, rx), true;
    } else {
      LinkKeepsForest(parent, rank, size, root, ry, rx, true);
      return parent[ry := rx], rank[rx := rank[rx] + 1], size[rx := size[rx] + size[ry]], Merge(root, ry, rx), true;
    }
  }

  /** `union`: merges the sets of `x` and `y` by rank and reports whether
      they were different sets, in which case there is one set fewer; an
      unknown element is a KeyError and leaves the partition, the ranks and
      the sizes alone. */
  method Union(parent: map<Elem, Elem>, rank: map<Elem, int>, size: map<Elem, int>, ghost root: map<Elem, Elem>, x: Elem, y: Elem)
    returns (parent': map<Elem, Elem>, rank': map<Elem, int>, size': map<Elem, int>, ghost root': map<Elem, Elem>, r: Result<bool>)
    requires IsForest(parent, rank, size, root)
    ensures IsForest(parent', rank', size', root')
    ensures x !in root || y !in root ==> r == Err(KeyError)
    ensures x in root && y in root ==> r == Ok(root[x] != root[y])
    ensures r.Err? ==> root' == root && rank' == rank && size' == size
    ensures x in root && y in root ==> x in root' && y in root' && root'[x] == root'[y]
    ensures r == Ok(false) ==> root' == root && rank' == rank && size' == size
    ensures r == Ok(true) ==> |Representatives(root')| == |Representatives(root)| - 1
    ensures r.Err? || r == Ok(false) ==> parent' == Compress(parent, root, FindBothPath(parent, rank, size, root, x, y))
    ensures r == Ok(true) ==>
              && x in root && y in root
              && Linked(parent', rank', size', root', Compress(parent, root, FindBothPath(parent, rank, size, root, x, y)),
                        rank, size, root, root[x], root[y])
  {
    var p, roots := FindBoth(parent, rank, size, root, x, y);
    ghost var compressed := Compress(parent, root, FindBothPath(parent, rank, size, root, x, y));
    assert p == compressed;
    if roots.Err? {
      return p, rank, size, root, Err(KeyError);
    }
    var merged;
    parent', rank', size', root', merged := LinkRoots(p, rank, size, root, roots.value.0, roots.value.1);
    r := Ok(merged);
  }

  /** `connected`: whether `x` and `y` are in the same set; an unknown
      element is a KeyError. */
  method Connected(parent: map<Elem, Elem>, rank: map<Elem, int>, size: map<Elem, int>, ghost root: map<Elem, Elem>, x: Elem, y: Elem)
    returns (parent': map<Elem, Elem>, r: Result<bool>)
    requires IsForest(parent, rank, size, root)
    ensures IsForest(parent', rank, size, root)
    ensures parent' == Compress(parent, root, FindBothPath(parent, rank, size, root, x, y))
    ensures x !in root || y !in root ==> r == Err(KeyError)
    ensures x in root && y in root ==> r == Ok(root[x] == root[y])
  {
    var roots;
    parent', roots := FindBoth(parent, rank, size, root, x, y);
    if roots.Err? {
      return parent', Err(KeyError);
    }
    return parent', Ok(roots.value.0 == roots.value.1);
  }

  /** `connected(x, y)` right after `union(x, y)` on two known elements
      is true. */
  method UnionThenConnected(parent: map<Elem, Elem>, rank: map<Elem, int>, size: map<Elem, int>, ghost root: map<Elem, Elem>,
                            x: Elem, y: Elem)
    returns (r: Result<bool>)
    requires IsForest(parent, rank, size, root) && x in root && y in root
    ensures r == Ok(true)
  {
    var p, k, n, root', _ := Union(parent, rank, size, root, x, y);
    var p';
    p', r := Connected(p, k, n, root', x, y);
  }

  /** `get_size`: the number of elements in `x`'s set; an unknown `x` is a
      KeyError. */
  method GetSize(parent: map<Elem, Elem>, rank: map<Elem, int>, size: map<Elem, int>, ghost root: map<Elem, Elem>, x: Elem)
    returns (parent': map<Elem, Elem>, r: Result<int>)
    requires IsForest(parent, rank, size, root)
    ensures IsForest(parent', rank, size, root)
    ensures parent' == Compress(parent, root, FindPath(parent, rank, size, root, x))
    ensures x !in root ==> r == Err(KeyError)
    ensures x in root ==> r == Ok(|Members(root, root[x])|)
  {
    var f;
    parent', f := Find(parent, rank, size, root, x);
    if f.Err? {
      return parent', Err(KeyError);
    }
    return parent', Ok(size[f.value]);
  }

  /** `num_sets`: the number of sets, counted as the distinct results of
      finding every element; afterwards every element points directly at
      its representative. */
  method NumSets(parent: map<Elem, Elem>, rank: map<Elem, int>, size: map<Elem, int>, ghost root: map<Elem, Elem>)
    returns (parent': map<Elem, Elem>, n: int)
    requires IsForest(parent, rank, size, root)
    ensures IsForest(parent', rank, size, root)
    ensures parent' == root
    ensures n == |Representatives(root)|
  {
    parent' := parent;
    var roots: set<Elem> := {};
    var remaining := parent.Keys;
    while remaining != {}
      invariant IsForest(parent', rank, size, root)
      invariant remaining <= root.Keys
      invariant roots == RootsOf(root, root.Keys - remaining)
      invariant forall z | z in root && z !in remaining :: parent'[z] == root[z]
      decreases remaining
    {
      var e := Pick(remaining);
      var f;
      parent', f := Find(parent', rank, size, root, e);
      RootsOfShrink(root, remaining, e);
      roots := roots + {f.value};
      remaining := remaining - {e};
    }
    assert root.Keys - remaining == root.Keys;
    forall z | z in root ensures parent'[z] == root[z] {
      assert z !in remaining;
    }
    RepresentativesAreImage(root);
    n := |roots|;
  }

  /** The initial dictionaries represent the partition into singletons. */
  lemma SingletonsAreForest(elements: seq<Elem>, parent: map<Elem, Elem>, rank: map<Elem, int>, size: map<Elem, int>)
    requires parent == map x | x in elements :: x
    requires rank == map x | x in elements :: 0
    requires size == map x | x in elements :: 1
    ensures IsForest(parent, rank, size, Discrete(elements))
  {
    var root := Discrete(elements);
    forall r | r in Representatives(root) ensures |Members(root, r)| == 1 {
      assert Members(root, r) == {r};
    }
  }

  /** Adding a new element as a singleton set keeps the forest invariant
      and adds one representative. */
  lemma AddSingletonKeepsForest(parent: map<Elem, Elem>, rank: map<Elem, int>, size: map<Elem, int>, root: map<Elem, Elem>, x: Elem)
    requires IsForest(parent, rank, size, root) && x !in root
    ensures IsForest(parent[x := x], rank[x := 0], size[x := 1], root[x := x])
    ensures Representatives(root[x := x]) == Representatives(root) + {x}
  {
    AddSingletonSizes(size, root, x);
  }

  lemma AddSingletonSizes(size: map<Elem, int>, root: map<Elem, Elem>, x: Elem)
    requires IsPartition(root) && Representatives(root) <= size.Keys && SizesCount(size, root) && x !in root
    ensures Representatives(root[x := x]) == Representatives(root) + {x}
    ensures SizesCount(size[x := 1], root[x := x])
  {
    var root' := root[x := x];
    forall r | r in Representatives(root') ensures size[x := 1][r] == |Members(root', r)| {
      if r == x {
        forall z | z in root ensures root[z] != x {
          assert root[z] in root;
        }
        assert Members(root', r) == {x};
      } else {
        assert Members(root', r) == Members(root, r);
      }
    }
  }

  /** Path compression: re-pointing any element directly at its root keeps
      the forest invariant, with the same partition, ranks and sizes. */
  lemma CompressKeepsForest(parent: map<Elem, Elem>, rank: map<Elem, int>, size: map<Elem, int>, root: map<Elem, Elem>, x: Elem)
    requires IsForest(parent, rank, size, root) && x in root
    ensures IsForest(parent[x := root[x]], rank, size, root)
  {
  }

  /** Union by rank: hanging the root `loser` under the root `winner`, when
      `loser`'s rank is strictly lower or (with `bump`) equal and the
      winner's rank then grows by one, keeps the forest invariant for the
      merged partition with the winner's size the sum of both. */
  lemma LinkKeepsForest(parent: map<Elem, Elem>, rank: map<Elem, int>, size: map<Elem, int>, root: map<Elem, Elem>,
                           loser: Elem, winner: Elem, bump: bool)
    requires IsForest(parent, rank, size, root)
    requires loser in Representatives(root) && winner in Representatives(root) && loser != winner
    requires if bump then rank[loser] == rank[winner] else rank[loser] < rank[winner]
    ensures IsForest(parent[loser := winner], if bump then rank[winner := rank[winner] + 1] else rank,
                     size[winner := size[winner] + size[loser]], Merge(root, loser, winner))
    ensures |Representatives(Merge(root, loser, winner))| == |Representatives(root)| - 1
  {
    MergeDropsLoser(root, loser, winner);
    MergeKeepsPartition(root, loser, winner);
    LinkParents(parent, root, loser, winner);
    LinkRanks(parent, rank, root, loser, winner, bump);
    LinkSizes(size, root, loser, winner);
  }

  lemma LinkParents(parent: map<Elem, Elem>, root: map<Elem, Elem>, loser: Elem, winner: Elem)
    requires parent.Keys == root.Keys && IsPartition(root) && ParentsInSet(parent, root) && RootsSelfParented(parent, root)
    requires loser in Representatives(root) && winner in Representatives(root) && loser != winner
    ensures ParentsInSet(parent[loser := winner], Merge(root, loser, winner))
    ensures RootsSelfParented(parent[loser := winner], Merge(root, loser, winner))
  {
  }

  lemma LinkRanks(parent: map<Elem, Elem>, rank: map<Elem, int>, root: map<Elem, Elem>, loser: Elem, winner: Elem, bump: bool)
    requires parent.Keys == root.Keys == rank.Keys && IsPartition(root) && ParentsInSet(parent, root)
    requires RootsSelfParented(parent, root) && RanksIncrease(parent, rank, root)
    requires loser in Representatives(root) && winner in Representatives(root) && loser != winner
    requires if bump then rank[loser] == rank[winner] else rank[loser] < rank[winner]
    requires ParentsInSet(parent[loser := winner], Merge(root, loser, winner))
    ensures RanksIncrease(parent[loser := winner], if bump then rank[winner := rank[winner] + 1] else rank,
                          Merge(root, loser, winner))
  {
  }

  lemma LinkSizes(size: map<Elem, int>, root: map<Elem, Elem>, loser: Elem, winner: Elem)
    requires size.Keys == root.Keys && IsPartition(root) && SizesCount(size, root)
    requires loser in Representatives(root) && winner in Representatives(root) && loser != winner
    ensures SizesCount(size[winner := size[winner] + size[loser]], Merge(root, loser, winner))
  {
    MergeRemovesOneSet(root, loser, winner);
  }
}

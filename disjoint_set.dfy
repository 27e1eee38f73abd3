/**
 * The array-based disjoint-set of maze generation: `parent[k]` is minus the size of the set
 * when `k` is a root, otherwise the root `k` belongs to. Union is by size, and every member
 * of the absorbed set is re-pointed straight to the new root, so no entry is ever more than
 * one hop from its root.
 */
module DisjointSet {

  /** Every entry is a root (negative) or points directly at a root. */
  ghost predicate Flat(p: seq<int>)
  {
    forall k :: 0 <= k < |p| ==> p[k] < 0 || (0 <= p[k] < |p| && p[p[k]] < 0)
  }

  /** The root of `k` in a flat forest. */
  ghost function Root(p: seq<int>, k: int): (r: int)
    requires Flat(p) && 0 <= k < |p|
    ensures 0 <= r < |p| && p[r] < 0
    ensures r == k || r == p[k]
  {
    if p[k] < 0 then k else p[k]
  }

  /** Number of roots, i.e. of sets, among the first `n` entries. */
  ghost function CountRoots(p: seq<int>, n: nat): nat
    requires n <= |p|
  {
    if n == 0 then 0 else CountRoots(p, n - 1) + (if p[n - 1] < 0 then 1 else 0)
  }

  /** Sum of the set sizes recorded at the roots among the first `n` entries. */
  ghost function RootMass(p: seq<int>, n: nat): int
    requires n <= |p|
  {
    if n == 0 then 0 else RootMass(p, n - 1) + (if p[n - 1] < 0 then -p[n - 1] else 0)
  }

  /** Number of entries among the first `n` whose root is `r`. */
  ghost function Members(p: seq<int>, r: int, n: nat): nat
    requires Flat(p) && n <= |p|
  {
    if n == 0 then 0 else Members(p, r, n - 1) + (if Root(p, n - 1) == r then 1 else 0)
  }

  /** Every root records minus the number of entries in its set. */
  ghost predicate SizesRecorded(p: seq<int>)
    requires Flat(p)
  {
    forall r :: 0 <= r < |p| && p[r] < 0 ==> -p[r] == Members(p, r, |p|)
  }

  /** The array after `updateSet(larger, smaller)`. */
  function UpdateSetResult(p: seq<int>, larger: int, smaller: int): (q: seq<int>)
    requires 0 <= larger < |p| && 0 <= smaller < |p|
    ensures |q| == |p|
    ensures larger != smaller ==> q[smaller] == larger
    ensures forall k :: 0 <= k < |p| && k != larger && p[k] == smaller ==> q[k] == larger
    ensures forall k :: 0 <= k < |p| && k != larger && k != smaller && p[k] != smaller ==> q[k] == p[k]
  {
    var p2 := p[larger := p[larger] + p[smaller]][smaller := larger];
    seq(|p|, k requires 0 <= k < |p| => if p2[k] == smaller then larger else p2[k])
  }

  /** The array after `unionSet(source, dest)`: the set with the larger size absorbs the other. */
  ghost function UnionResult(p: seq<int>, source: int, dest: int): (q: seq<int>)
    requires Flat(p) && 0 <= source < |p| && 0 <= dest < |p|
    ensures |q| == |p|
    ensures forall k :: 0 <= k < |p| && Root(p, k) != Root(p, source) && Root(p, k) != Root(p, dest) ==> q[k] == p[k]
  {
    var root1, root2 := Root(p, source), Root(p, dest);
    if p[root1] <= p[root2] then UpdateSetResult(p, root1, root2) else UpdateSetResult(p, root2, root1)
  }

  /** What `makeSet` produces: every cell alone in its own set of size one. */
  lemma {:induction false} SingletonsAreFlat(p: seq<int>)
    requires forall k :: 0 <= k < |p| ==> p[k] == -1
    ensures Flat(p)
    ensures forall k :: 0 <= k < |p| ==> Root(p, k) == k
    ensures CountRoots(p, |p|) == |p| && RootMass(p, |p|) == |p|
    ensures SizesRecorded(p)
  {
    SingletonCounts(p, |p|);
    forall r | 0 <= r < |p| ensures Members(p, r, |p|) == 1 {
      SingletonMembers(p, r, |p|);
    }
  }

  lemma {:induction false} SingletonCounts(p: seq<int>, n: nat)
    requires n <= |p| && forall k :: 0 <= k < |p| ==> p[k] == -1
    ensures CountRoots(p, n) == n && RootMass(p, n) == n
  {
    if n > 0 {
      SingletonCounts(p, n - 1);
    }
  }

  lemma {:induction false} SingletonMembers(p: seq<int>, r: int, n: nat)
    requires n <= |p| && forall k :: 0 <= k < |p| ==> p[k] == -1
    requires 0 <= r < |p|
    ensures Flat(p)
    ensures Members(p, r, n) == if r < n then 1 else 0
  {
    if n > 0 {
      SingletonMembers(p, r, n - 1);
    }
  }

  /** In a flat forest of at least one entry there is at least one set. */
  lemma {:induction false} SomeRoot(p: seq<int>, n: nat, k: int)
    requires n <= |p| && 0 <= k < n && p[k] < 0
    ensures CountRoots(p, n) >= 1
  {
    if k < n - 1 {
      SomeRoot(p, n - 1, k);
    }
  }

  /** When every entry has the same root, there is exactly one set. */
  lemma {:induction false} OneRootWhenAllJoined(p: seq<int>, r: int, n: nat)
    requires Flat(p) && n <= |p| && 0 <= r < |p|
    requires forall k :: 0 <= k < |p| ==> Root(p, k) == r
    ensures CountRoots(p, n) == if r < n then 1 else 0
  {
    if n > 0 {
      OneRootWhenAllJoined(p, r, n - 1);
      assert Root(p, r) == r;
      assert p[n - 1] < 0 ==> Root(p, n - 1) == n - 1;
    }
  }

  /**
   * Merging two different sets: the forest stays flat, the members of the absorbed set now
   * have the absorbing root, nobody else changes set, and the absorbing root records the
   * summed size.
   */
  lemma {:induction false} UpdateSetMerges(p: seq<int>, larger: int, smaller: int)
    requires Flat(p) && 0 <= larger < |p| && 0 <= smaller < |p|
    requires larger != smaller && p[larger] < 0 && p[smaller] < 0
    ensures Flat(UpdateSetResult(p, larger, smaller))
    ensures forall k :: 0 <= k < |p| ==>
      Root(UpdateSetResult(p, larger, smaller), k) == if Root(p, k) == smaller then larger else Root(p, k)
    ensures UpdateSetResult(p, larger, smaller)[larger] == p[larger] + p[smaller]
  {
    var q := UpdateSetResult(p, larger, smaller);
    assert q[larger] == p[larger] + p[smaller];
    assert q[smaller] == larger;
    forall k | 0 <= k < |p|
      ensures q[k] < 0 || (0 <= q[k] < |q| && q[q[k]] < 0)
      ensures Root(p, k) == smaller ==> q[k] == larger || k == larger
      ensures q[k] < 0 ==> p[k] < 0 && k != smaller
      ensures Root(p, k) != smaller && k != larger ==> q[k] == p[k]
    {
      if k == smaller {
        assert q[k] == larger;
      } else if k == larger {
        assert q[k] == p[larger] + p[smaller];
      } else if p[k] == smaller {
        assert q[k] == larger;
      } else if p[k] >= 0 {
        var r := p[k];
        assert Root(p, k) == r;
        assert q[k] == r;
        assert q[r] < 0;
      }
    }
    assert Flat(q);
  }

  /** Merging two sets removes exactly one root and keeps the total recorded size. */
  lemma {:induction false} UpdateSetCounts(p: seq<int>, larger: int, smaller: int, n: nat)
    requires Flat(p) && 0 <= larger < |p| && 0 <= smaller < |p| && n <= |p|
    requires larger != smaller && p[larger] < 0 && p[smaller] < 0
    ensures CountRoots(UpdateSetResult(p, larger, smaller), n)
      == CountRoots(p, n) - (if smaller < n then 1 else 0)
    ensures RootMass(UpdateSetResult(p, larger, smaller), n)
      == RootMass(p, n) + (if larger < n then -p[smaller] else 0) - (if smaller < n then -p[smaller] else 0)
  {
    if n > 0 {
      UpdateSetCounts(p, larger, smaller, n - 1);
    }
  }

  /** Merging two sets adds the absorbed set's members to the absorbing root, and moves nobody else. */
  lemma {:induction false} UpdateSetMembers(p: seq<int>, larger: int, smaller: int, r: int, n: nat)
    requires Flat(p) && 0 <= larger < |p| && 0 <= smaller < |p| && n <= |p|
    requires larger != smaller && p[larger] < 0 && p[smaller] < 0
    ensures Flat(UpdateSetResult(p, larger, smaller))
    ensures Members(UpdateSetResult(p, larger, smaller), r, n) ==
      if r == larger then Members(p, larger, n) + Members(p, smaller, n)
      else if r == smaller then 0
      else Members(p, r, n)
  {
    UpdateSetMerges(p, larger, smaller);
    if n > 0 {
      UpdateSetMembers(p, larger, smaller, r, n - 1);
    }
  }

  /** Merging two sets keeps every recorded size equal to the size of its set. */
  lemma {:induction false} UpdateSetKeepsSizes(p: seq<int>, larger: int, smaller: int)
    requires Flat(p) && SizesRecorded(p) && 0 <= larger < |p| && 0 <= smaller < |p|
    requires larger != smaller && p[larger] < 0 && p[smaller] < 0
    ensures Flat(UpdateSetResult(p, larger, smaller))
    ensures SizesRecorded(UpdateSetResult(p, larger, smaller))
  {
    var q := UpdateSetResult(p, larger, smaller);
    UpdateSetMerges(p, larger, smaller);
    forall r | 0 <= r < |q| && q[r] < 0 ensures -q[r] == Members(q, r, |q|) {
      UpdateSetMembers(p, larger, smaller, r, |p|);
    }
  }

  /**
   * `unionSet` on two elements of different sets: one set absorbs the other, the absorbing
   * root is the one of the larger set, the two elements end up in the same set, the number
   * of sets drops by one and the total recorded size is unchanged.
   */
  lemma {:induction false} UnionJoins(p: seq<int>, source: int, dest: int)
    requires Flat(p) && 0 <= source < |p| && 0 <= dest < |p|
    requires Root(p, source) != Root(p, dest)
    ensures var q := UnionResult(p, source, dest);
      && Flat(q)
      && Root(q, source) == Root(q, dest)
      && (forall k :: 0 <= k < |p| ==>
            (Root(q, k) == if Root(p, k) == Root(p, source) || Root(p, k) == Root(p, dest) then Root(q, source) else Root(p, k)))
      && (Root(q, source) == Root(p, source) || Root(q, source) == Root(p, dest))
      && CountRoots(q, |q|) == CountRoots(p, |p|) - 1
      && RootMass(q, |q|) == RootMass(p, |p|)
      && q[Root(q, source)] == p[Root(p, source)] + p[Root(p, dest)]
      && p[Root(q, source)] <= p[Root(p, source)] && p[Root(q, source)] <= p[Root(p, dest)]
      && (SizesRecorded(p) ==> SizesRecorded(q))
  {
    var r1, r2 := Root(p, source), Root(p, dest);
    if p[r1] <= p[r2] {
      UpdateSetMerges(p, r1, r2);
      UpdateSetCounts(p, r1, r2, |p|);
      if SizesRecorded(p) {
        UpdateSetKeepsSizes(p, r1, r2);
      }
    } else {
      UpdateSetMerges(p, r2, r1);
      UpdateSetCounts(p, r2, r1, |p|);
      if SizesRecorded(p) {
        UpdateSetKeepsSizes(p, r2, r1);
      }
    }
  }

  method MakeSet(numOfCells: nat) returns (parent: array<int>)
    ensures fresh(parent) && parent.Length == numOfCells
    ensures forall k :: 0 <= k < numOfCells ==> parent[k] == -1
  {
    parent := new int[numOfCells];
    var k := 0;
    while k < numOfCells
      invariant 0 <= k <= numOfCells
      invariant forall m :: 0 <= m < k ==> parent[m] == -1
    {
      parent[k] := -1;
      k := k + 1;
    }
  }

  /** Follows parent pointers from `id` until it meets a root. */
  method FindSet(id: int, parent: array<int>) returns (root: int)
    requires Flat(parent[..]) && 0 <= id < parent.Length
    ensures 0 <= root < parent.Length && parent[root] < 0
    ensures root == id || root == parent[id]
    ensures root == Root(parent[..], id)
  {
    root := id;
    while parent[root] >= 0
      invariant 0 <= root < parent.Length
      invariant root == id || (root == parent[id] && parent[root] < 0)
      decreases if root == id then 1 else 0
    {
      root := parent[root];
    }
  }

  method UpdateSet(largerSetRoot: int, smallerSetRoot: int, parent: array<int>)
    requires 0 <= largerSetRoot < parent.Length && 0 <= smallerSetRoot < parent.Length
    modifies parent
    ensures parent[..] == UpdateSetResult(old(parent[..]), largerSetRoot, smallerSetRoot)
  {
    ghost var p := parent[..];
    parent[largerSetRoot] := parent[largerSetRoot] + parent[smallerSetRoot];
    parent[smallerSetRoot] := largerSetRoot;
    ghost var p2 := parent[..];
    assert p2 == p[largerSetRoot := p[largerSetRoot] + p[smallerSetRoot]][smallerSetRoot := largerSetRoot];
    var k := 0;
    while k < parent.Length
      invariant 0 <= k <= parent.Length
      invariant forall m :: 0 <= m < k ==> parent[m] == UpdateSetResult(p, largerSetRoot, smallerSetRoot)[m]
      invariant forall m :: k <= m < parent.Length ==> parent[m] == p2[m]
    {
      if parent[k] == smallerSetRoot {
        parent[k] := largerSetRoot;
      }
      k := k + 1;
    }
  }

  method UnionSet(sourceId: int, destId: int, parent: array<int>)
    requires Flat(parent[..]) && 0 <= sourceId < parent.Length && 0 <= destId < parent.Length
    modifies parent
    ensures parent[..] == UnionResult(old(parent[..]), sourceId, destId)
  {
    var root1 := if parent[sourceId] < 0 then sourceId else parent[sourceId];
    var root2 := if parent[destId] < 0 then destId else parent[destId];
    assert root1 == Root(parent[..], sourceId) && root2 == Root(parent[..], destId);
    if parent[root1] <= parent[root2] {
      UpdateSet(root1, root2, parent);
    } else {
      UpdateSet(root2, root1, parent);
    }
  }

  /** Joins the sets of the two cells when they differ; reports whether it did. */
  method FindAndUnion(sourceId: int, destId: int, parent: array<int>) returns (success: bool)
    requires Flat(parent[..]) && 0 <= sourceId < parent.Length && 0 <= destId < parent.Length
    modifies parent
    ensures success == (Root(old(parent[..]), sourceId) != Root(old(parent[..]), destId))
    ensures success ==> parent[..] == UnionResult(old(parent[..]), sourceId, destId)
    ensures !success ==> parent[..] == old(parent[..])
  {
    success := false;
    var r1 := FindSet(sourceId, parent);
    var r2 := FindSet(destId, parent);
    if r1 != r2 {
      success := true;
      UnionSet(sourceId, destId, parent);
    }
  }
}

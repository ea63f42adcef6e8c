/**
 * The two searches over a built VP-tree file (include/vptree/DiskVP.h):
 * `TopKSearch`, the `k` nearest records under a shrinking radius `tau`, and
 * `MaxDistanceSearch`, every record within `maxDistance`. Both walk the
 * file's tree from record 0 with an explicit stack of record positions;
 * a record's children are later positions of the file, so the walk ends.
 */
module VPSearch {
  import opened Machine
  import opened Wrappers
  import opened VPLayout
  import opened SearchHeap
  import opened FloatCompare
  import opened VPBuild
  import VPTree

  /** Item `x` names some record of `recs` together with that record's distance to `q`. */
  ghost predicate FromFile(ker: Kernel, recs: seq<Record>, q: seq<real>, x: HeapItem)
  {
    exists p :: 0 <= p < |recs| && x == HeapItem(recs[p].header.id, ker(recs[p].vec, q))
  }

  /**
   * The set `h` grew from `h0` as `MaxDistanceSearch::run` lets it: it is
   * still ordered by distance, keeps every distance of `h0`, and every new
   * item is a record of the file within `maxDistance` of `q`.
   */
  ghost predicate Grown(ker: Kernel, recs: seq<Record>, q: seq<real>, maxDistance: real, h0: seq<HeapItem>, h: seq<HeapItem>)
  {
    && StrictlyAscending(h)
    && (forall x :: x in h ==> x in h0 || (x.dist <= maxDistance && FromFile(ker, recs, q, x)))
    && (forall d :: HasDist(h0, d) ==> HasDist(h, d))
  }

  /** Growing twice is growing. */
  lemma GrownTrans(ker: Kernel, recs: seq<Record>, q: seq<real>, maxDistance: real, h0: seq<HeapItem>, h1: seq<HeapItem>, h2: seq<HeapItem>)
    requires Grown(ker, recs, q, maxDistance, h0, h1) && Grown(ker, recs, q, maxDistance, h1, h2)
    ensures Grown(ker, recs, q, maxDistance, h0, h2)
  {
  }

  /** The admission test of the k-nearest searches: definitely below `tau`, or approximately equal to it. */
  predicate Admits(dist: real, tau: real, eps: real)
  {
    DefinitelyLessThan(dist, tau, eps) || ApproximatelyEqual(dist, tau, eps)
  }

  function Pow3(e: nat): (r: nat)
    ensures r >= 1
  {
    if e == 0 then 1 else 3 * Pow3(e - 1)
  }

  lemma {:induction false} Pow3Monotone(a: nat, b: nat)
    requires a <= b
    ensures Pow3(a) <= Pow3(b)
    decreases b
  {
    if a < b {
      Pow3Monotone(a, b - 1);
    }
  }

  /** The weight of a stack of positions in a file of `n` records: position `p` weighs `3^(n - p)`. */
  function Weight(n: nat, s: seq<nat>): nat
  {
    if s == [] then 0
    else Weight(n, s[..|s| - 1]) + Pow3(if s[|s| - 1] <= n then n - s[|s| - 1] else 0)
  }

  lemma WeightPush(n: nat, s: seq<nat>, c: nat)
    ensures Weight(n, s + [c]) == Weight(n, s) + Pow3(if c <= n then n - c else 0)
  {
    assert (s + [c])[..|s|] == s;
  }

  /** Replacing the popped position `p` by at most two later positions makes the stack strictly lighter. */
  lemma {:induction false} ExpandLighter(n: nat, s: seq<nat>, p: nat, r: seq<nat>)
    requires p < n && |r| <= 2 && forall c :: c in r ==> p < c < n
    ensures Weight(n, s + r) < Weight(n, s + [p])
  {
    WeightPush(n, s, p);
    assert Pow3(n - p) == 3 * Pow3(n - p - 1);
    if |r| == 1 {
      assert s + r == s + [r[0]];
      assert r[0] in r;
      WeightPush(n, s, r[0]);
      Pow3Monotone(n - r[0], n - p - 1);
    } else if |r| == 2 {
      assert s + r == s + [r[0]] + [r[1]];
      WeightPush(n, s, r[0]);
      WeightPush(n, s + [r[0]], r[1]);
      assert r[0] in r && r[1] in r;
      Pow3Monotone(n - r[0], n - p - 1);
      Pow3Monotone(n - r[1], n - p - 1);
    } else {
      assert s + r == s;
    }
  }

  /** The top-k step leaves a lighter stack of later positions in place of the popped one. */
  lemma TopKLighter(recs: seq<Record>, s: seq<nat>, dist: real, tau: real)
    requires TreeFile(recs) && s != [] && forall i :: 0 <= i < |s| ==> s[i] < |recs|
    ensures var p := s[|s| - 1]; var root := recs[p].header;
      var s' := s[..|s| - 1] + TopKExpand(root, root.radius, dist, tau);
      (forall i :: 0 <= i < |s'| ==> s'[i] < |recs|) && Weight(|recs|, s') < Weight(|recs|, s)
  {
    var p := s[|s| - 1];
    var root := recs[p].header;
    var pushes := TopKExpand(root, root.radius, dist, tau);
    assert s == s[..|s| - 1] + [p];
    ChildrenLater(recs, p, pushes);
    ExpandLighter(|recs|, s[..|s| - 1], p, pushes);
  }

  /** In a laid-out file, every present link of record `p` is a later record. */
  lemma ChildrenLater(recs: seq<Record>, p: nat, r: seq<nat>)
    requires TreeFile(recs) && p < |recs|
    requires forall c :: c in r ==> c != UINT_MAX && (c == recs[p].header.leftChild || c == recs[p].header.rightChild)
    ensures forall c :: c in r ==> p < c < |recs|
  {
  }

  /**
   * What one visit of `TopKSearch::run` pushes, in push order: the left
   * child when it exists and `dist - tau <= radius`, the right child when
   * it exists and `dist + tau >= radius`; left first when the query is
   * inside the pivot's ball, right first otherwise.
   */
  function TopKExpand(h: NodeHeader, radius: real, dist: real, tau: real): (r: seq<nat>)
    ensures |r| <= 2 && forall c :: c in r ==> c != UINT_MAX && (c == h.leftChild || c == h.rightChild)
    ensures forall c :: c in r ==> (c == h.leftChild && dist - tau <= radius) || (c == h.rightChild && radius <= dist + tau)
    ensures h.leftChild != UINT_MAX && dist - tau <= radius ==> h.leftChild in r
    ensures h.rightChild != UINT_MAX && radius <= dist + tau ==> h.rightChild in r
    ensures |r| == 2 ==> r == if dist < radius then [h.leftChild, h.rightChild] else [h.rightChild, h.leftChild]
  {
    var left := if h.leftChild != UINT_MAX && dist - tau <= radius then [h.leftChild] else [];
    var right := if h.rightChild != UINT_MAX && dist + tau >= radius then [h.rightChild] else [];
    if dist < radius then left + right else right + left
  }

  /**
   * What one visit of `MaxDistanceSearch::run` pushes: nothing at a leaf;
   * otherwise the left child when it exists and `dist - radius` is
   * definitely below or approximately equal to `maxDistance` (in double
   * precision), then the right child whenever it exists.
   */
  function MaxExpand(h: NodeHeader, radius: real, dist: real, maxDistance: real): (r: seq<nat>)
    ensures |r| <= 2 && forall c :: c in r ==> c != UINT_MAX && (c == h.leftChild || c == h.rightChild)
    ensures NoChildren(h) ==> r == []
    ensures h.rightChild != UINT_MAX ==> h.rightChild in r
    ensures h.leftChild != UINT_MAX ==> (h.leftChild in r <==> Admits(dist - radius, maxDistance, DBL_EPSILON) || h.leftChild == h.rightChild)
  {
    if NoChildren(h) then []
    else
      var left := if Admits(dist - radius, maxDistance, DBL_EPSILON) && h.leftChild != UINT_MAX then [h.leftChild] else [];
      left + (if h.rightChild != UINT_MAX then [h.rightChild] else [])
  }

  /**
   * `DiskVP::TopKSearch`: the `k` records nearest to the query. `query` is
   * the `ptr` member; the id-seeded constructor may find no record, and
   * then there is no query to search with.
   */
  class TopKSearch {
    const vp: VPTree.DiskVP
    const query: Option<seq<real>>
    const k: nat
    var heap: seq<HeapItem>

    /** `TopKSearch(vp, float* id, k)`: searches for the given vector. */
    constructor FromVector(vp: VPTree.DiskVP, q: seq<real>, k: nat)
      ensures this.vp == vp && query == Some(q) && this.k == k && heap == []
    {
      this.vp := vp;
      query := Some(q);
      this.k := k;
      heap := [];
    }

    /** `TopKSearch(vp, size_t id, k)`: searches for the vector of the record the `_idx` file gives for `id`. */
    constructor FromId(vp: VPTree.DiskVP, id: nat, k: nat)
      requires id < |vp.idxFile|
      ensures this.vp == vp && query == vp.SeededQuery(id) && this.k == k && heap == []
    {
      this.vp := vp;
      query := vp.SeededQuery(id);
      this.k := k;
      heap := [];
    }

    /**
     * The admission block of `run()` for a visited record's item `x`:
     * when `x.dist` is definitely below `tau`, or approximately equal to it,
     * `x` is pushed, the heap is cut back to `k`, a full heap's top becomes
     * the new `tau`, and in the approximate case `tau` never grows. The
     * heap never shrinks, and after an admission it is not empty.
     */
    method Offer(x: HeapItem, tau: real) returns (tau': real)
      requires Ascending(heap) && |heap| <= k && k >= 1
      modifies this`heap
      ensures Ascending(heap) && old(|heap|) <= |heap| <= k
      ensures forall y :: y in heap ==> y in old(heap) || y == x
      ensures Admits(x.dist, tau, FLT_EPSILON) ==> heap != []
      ensures !Admits(x.dist, tau, FLT_EPSILON) ==> heap == old(heap) && tau' == tau
      ensures Admits(x.dist, tau, FLT_EPSILON) ==>
                && heap == PushCapped(old(heap), x, k)
                && tau' == NextTau(heap, k, tau, !DefinitelyLessThan(x.dist, tau, FLT_EPSILON))
    {
      tau' := tau;
      if DefinitelyLessThan(x.dist, tau, FLT_EPSILON) {
        PushMembers(heap, x);
        heap := Push(heap, x);
        if |heap| > k {
          heap := Pop(heap);
        }
        if |heap| == k {
          tau' := Top(heap).dist;
        }
      } else if ApproximatelyEqual(x.dist, tau, FLT_EPSILON) {
        PushMembers(heap, x);
        heap := Push(heap, x);
        if |heap| > k {
          heap := Pop(heap);
        }
        if |heap| == k {
          tau' := Top(heap).dist;
        }
        tau' := if tau' < Top(heap).dist then tau' else Top(heap).dist;
      }
    }

    /**
     * One pass of the loop of `run()`: the record on top of the stack is
     * popped, its item is offered to the heap, and the children the new
     * `tau` allows are pushed. The stack gets lighter.
     */
    method Visit(s: seq<nat>, q: seq<real>, tau: real) returns (s': seq<nat>, tau': real)
      requires s != [] && forall i :: 0 <= i < |s| ==> s[i] < |vp.records|
      requires Ascending(heap) && |heap| <= k && k >= 1 && TreeFile(vp.records)
      requires forall x :: x in heap ==> FromFile(vp.ker, vp.records, q, x)
      modifies this`heap
      ensures Ascending(heap) && old(|heap|) <= |heap| <= k
      ensures forall x :: x in heap ==> FromFile(vp.ker, vp.records, q, x)
      ensures Admits(vp.ker(vp.records[s[|s| - 1]].vec, q), tau, FLT_EPSILON) ==> heap != []
      ensures var p := s[|s| - 1]; var root := vp.records[p].header;
        s' == s[..|s| - 1] + TopKExpand(root, root.radius, vp.ker(vp.records[p].vec, q), tau')
      ensures (forall i :: 0 <= i < |s'| ==> s'[i] < |vp.records|) && Weight(|vp.records|, s') < Weight(|vp.records|, s)
    {
      var rootId := s[|s| - 1];
      var root := vp.records[rootId].header;
      var dist := vp.ker(vp.records[rootId].vec, q);
      assert FromFile(vp.ker, vp.records, q, HeapItem(root.id, dist));
      tau' := Offer(HeapItem(root.id, dist), tau);
      TopKLighter(vp.records, s, dist, tau');
      s' := s[..|s| - 1] + TopKExpand(root, root.radius, dist, tau');
    }

    /**
     * `run()`: at most `k` items in ascending distance order, each naming a
     * record of the file with its distance to the query, and at least one
     * when the root record passes the first admission test against
     * `FLT_MAX`. The heap is drained on the way out. `k == 0` would read the
     * top of an empty heap.
     */
    method Run() returns (result: seq<HeapItem>)
      requires heap == [] && k >= 1 && query.Some?
      requires vp.startToWrite && vp.mapped && 0 < |vp.records| && TreeFile(vp.records)
      modifies this`heap
      ensures heap == [] && Ascending(result) && |result| <= k
      ensures forall x :: x in result ==> FromFile(vp.ker, vp.records, query.value, x)
      ensures Admits(vp.ker(vp.records[0].vec, query.value), FLT_MAX, FLT_EPSILON) ==> result != []
    {
      var q := query.value;
      var recs := vp.records;
      var n := |recs|;
      var tau: real := FLT_MAX;
      var s: seq<nat> := [0];
      ghost var started := false;
      while s != []
        invariant forall i :: 0 <= i < |s| ==> s[i] < n
        invariant Ascending(heap) && |heap| <= k
        invariant forall x :: x in heap ==> FromFile(vp.ker, recs, q, x)
        invariant !started ==> s == [0] && heap == [] && tau == FLT_MAX
        invariant started && Admits(vp.ker(recs[0].vec, q), FLT_MAX, FLT_EPSILON) ==> heap != []
        decreases Weight(n, s)
      {
        s, tau := Visit(s, q, tau);
        started := true;
      }
      ghost var found := heap;
      var drained := PopAll(heap);
      heap := [];
      result := Reversed(drained);
      ReversedAscending(found);
    }
  }

  /**
   * `DiskVP::MaxDistanceSearch`: every record within `maxDistance` of the
   * query, collected in a `std::set` ordered by distance alone, so one
   * item per distance. The set is a member and `run` adds to it.
   */
  class MaxDistanceSearch {
    const vp: VPTree.DiskVP
    const maxDistance: real
    const query: Option<seq<real>>
    var heap: seq<HeapItem>

    /** `MaxDistanceSearch(vp, float* id, maxDistance)`. */
    constructor FromVector(vp: VPTree.DiskVP, q: seq<real>, maxDistance: real)
      ensures this.vp == vp && query == Some(q) && this.maxDistance == maxDistance && heap == []
    {
      this.vp := vp;
      query := Some(q);
      this.maxDistance := maxDistance;
      heap := [];
    }

    /** `MaxDistanceSearch(vp, size_t id, maxDistance)`: the query is the vector the `_idx` file gives for `id`. */
    constructor FromId(vp: VPTree.DiskVP, id: nat, maxDistance: real)
      requires id < |vp.idxFile|
      ensures this.vp == vp && query == vp.SeededQuery(id) && this.maxDistance == maxDistance && heap == []
    {
      this.vp := vp;
      query := vp.SeededQuery(id);
      this.maxDistance := maxDistance;
      heap := [];
    }

    /** `if (dist <= maxDistance) heap_.emplace(x)`: the set keeps its distances and gains at most `x`. */
    method Collect(x: HeapItem)
      requires StrictlyAscending(heap)
      modifies this`heap
      ensures StrictlyAscending(heap)
      ensures forall y :: y in heap ==> y in old(heap) || (y == x && x.dist <= maxDistance)
      ensures forall d :: HasDist(old(heap), d) ==> HasDist(heap, d)
      ensures x.dist <= maxDistance ==> HasDist(heap, x.dist)
      ensures maxDistance < x.dist ==> heap == old(heap)
    {
      if x.dist <= maxDistance {
        SetInsertMembers(heap, x);
        heap := SetInsert(heap, x);
      }
    }

    /**
     * One pass of the loop of `run()`: the record on top of the stack is
     * popped, its item is collected when within `maxDistance`, and the
     * children to visit are pushed. The stack gets lighter.
     */
    method Visit(s: seq<nat>, q: seq<real>) returns (s': seq<nat>)
      requires s != [] && forall i :: 0 <= i < |s| ==> s[i] < |vp.records|
      requires StrictlyAscending(heap) && TreeFile(vp.records)
      modifies this`heap
      ensures Grown(vp.ker, vp.records, q, maxDistance, old(heap), heap)
      ensures var p := s[|s| - 1]; var dist := vp.ker(vp.records[p].vec, q);
        dist <= maxDistance ==> HasDist(heap, dist)
      ensures var p := s[|s| - 1]; var root := vp.records[p].header;
        s' == s[..|s| - 1] + MaxExpand(root, root.radius, vp.ker(vp.records[p].vec, q), maxDistance)
      ensures (forall i :: 0 <= i < |s'| ==> s'[i] < |vp.records|) && Weight(|vp.records|, s') < Weight(|vp.records|, s)
    {
      var rootId := s[|s| - 1];
      assert s == s[..|s| - 1] + [rootId];
      var root := vp.records[rootId].header;
      var dist := vp.ker(vp.records[rootId].vec, q);
      assert FromFile(vp.ker, vp.records, q, HeapItem(root.id, dist));
      Collect(HeapItem(root.id, dist));
      var pushes := MaxExpand(root, root.radius, dist, maxDistance);
      ChildrenLater(vp.records, rootId, pushes);
      ExpandLighter(|vp.records|, s[..|s| - 1], rootId, pushes);
      s' := s[..|s| - 1] + pushes;
    }

    /**
     * `run()`: returns the set, which keeps every distance it held, gains
     * only records of the file within `maxDistance` of the query, and holds
     * the root record's distance when that is within `maxDistance`.
     */
    method Run() returns (result: seq<HeapItem>)
      requires StrictlyAscending(heap) && query.Some?
      requires vp.startToWrite && vp.mapped && 0 < |vp.records| && TreeFile(vp.records)
      modifies this`heap
      ensures result == heap && Grown(vp.ker, vp.records, query.value, maxDistance, old(heap), heap)
      ensures vp.ker(vp.records[0].vec, query.value) <= maxDistance ==> HasDist(heap, vp.ker(vp.records[0].vec, query.value))
    {
      var q := query.value;
      var recs := vp.records;
      var n := |recs|;
      var s: seq<nat> := [0];
      ghost var started := false;
      ghost var h0 := heap;
      while s != []
        invariant forall i :: 0 <= i < |s| ==> s[i] < n
        invariant Grown(vp.ker, recs, q, maxDistance, h0, heap)
        invariant !started ==> s == [0]
        invariant started && vp.ker(recs[0].vec, q) <= maxDistance ==> HasDist(heap, vp.ker(recs[0].vec, q))
        decreases Weight(n, s)
      {
        ghost var h1 := heap;
        s := Visit(s, q);
        GrownTrans(vp.ker, recs, q, maxDistance, h0, h1, heap);
        started := true;
      }
      result := heap;
    }
  }
}

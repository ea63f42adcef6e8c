/**
 * The result containers of the VP-tree searches, as key-ordered sequences
 * of `HeapItem`s (ordered by `dist` alone, as `HeapItem::operator<` is):
 * `std::priority_queue<HeapItem>`, a max-heap whose top is the last
 * element, and `std::set<HeapItem>`, which keeps one item per distance.
 */
module SearchHeap {
  import opened VPLayout
  import opened Selection

  function Dist(x: HeapItem): real
  {
    x.dist
  }

  /** The heap's contents in ascending distance order. */
  predicate Ascending(h: seq<HeapItem>)
  {
    SortedBy(h, Dist)
  }

  /** `priority_queue::push`. */
  function Push(h: seq<HeapItem>, x: HeapItem): (r: seq<HeapItem>)
    requires Ascending(h)
    ensures Ascending(r) && multiset(r) == multiset(h) + multiset{x} && |r| == |h| + 1
  {
    Insert(h, x, Dist)
  }

  /** Pushing adds only the pushed item. */
  lemma PushMembers(h: seq<HeapItem>, x: HeapItem)
    requires Ascending(h)
    ensures forall y :: y in Push(h, x) ==> y in h || y == x
  {
    forall y | y in Push(h, x) ensures y in h || y == x {
      assert y in multiset(Push(h, x));
    }
  }

  /** `priority_queue::top`: an item of greatest distance. */
  function Top(h: seq<HeapItem>): (t: HeapItem)
    requires Ascending(h) && h != []
    ensures t in h && forall y :: y in h ==> y.dist <= t.dist
  {
    SortedPairwise(h, Dist);
    h[|h| - 1]
  }

  /** `priority_queue::pop`: removes the top. */
  function Pop(h: seq<HeapItem>): (r: seq<HeapItem>)
    requires Ascending(h) && h != []
    ensures Ascending(r) && multiset(r) == multiset(h) - multiset{Top(h)} && |r| == |h| - 1
  {
    assert h == h[..|h| - 1] + [h[|h| - 1]];
    SortedPairwise(h, Dist);
    SortedPairwise(h[..|h| - 1], Dist);
    h[..|h| - 1]
  }

  /** Popping only removes. */
  lemma PopMembers(h: seq<HeapItem>)
    requires Ascending(h) && h != []
    ensures forall y :: y in Pop(h) ==> y in h
  {
  }

  /** A heap's top stays on top when an item no farther than it is pushed. */
  lemma PushKeepsTop(h: seq<HeapItem>, x: HeapItem)
    requires Ascending(h) && h != [] && x.dist <= Top(h).dist
    ensures Top(Push(h, x)) == Top(h)
  {
    InsertKeepsLast(h, x, Dist);
  }

  /**
   * The admission of `include/vptree/DiskVP.h`: `push`, then `pop` once the
   * heap holds more than `k` items. The result holds items of the old heap
   * and `x`, as many as fit in `k`.
   */
  function PushCapped(h: seq<HeapItem>, x: HeapItem, k: nat): (r: seq<HeapItem>)
    requires Ascending(h) && |h| <= k
    ensures Ascending(r) && |r| == (if |h| < k then |h| + 1 else k)
    ensures multiset(r) <= multiset(h) + multiset{x}
  {
    var p := Push(h, x);
    if |p| > k then Pop(p) else p
  }

  /** What `PushCapped` drops is no nearer than anything it keeps: it keeps the nearest items. */
  lemma PushCappedNearest(h: seq<HeapItem>, x: HeapItem, k: nat)
    requires Ascending(h) && |h| <= k
    ensures forall y, z :: y in PushCapped(h, x, k) && z in multiset(h) + multiset{x} - multiset(PushCapped(h, x, k)) ==> y.dist <= z.dist
  {
    var p := Push(h, x);
    if |p| > k {
      PopMembers(p);
    }
  }

  /**
   * The admission of `src/DiskVP.cpp`: `pop` first when the heap already
   * holds `k` items, then `push`. The result holds `x` and as many items as
   * fit in `k`; what leaves is the old top.
   */
  function PopThenPush(h: seq<HeapItem>, x: HeapItem, k: nat): (r: seq<HeapItem>)
    requires Ascending(h) && |h| <= k && k >= 1
    ensures Ascending(r) && |r| == (if |h| < k then |h| + 1 else k) && x in r
    ensures |h| < k ==> multiset(r) == multiset(h) + multiset{x}
    ensures |h| == k ==> multiset(r) == multiset(h) - multiset{Top(h)} + multiset{x}
  {
    var r := Push(if |h| == k then Pop(h) else h, x);
    assert x in multiset(r);
    r
  }

  /**
   * The two admissions keep the same items whenever the heap is not full or
   * the new item is no farther than the top.
   */
  lemma PopThenPushAgrees(h: seq<HeapItem>, x: HeapItem, k: nat)
    requires Ascending(h) && |h| <= k && k >= 1
    requires |h| < k || x.dist <= Top(h).dist
    ensures multiset(PopThenPush(h, x, k)) == multiset(PushCapped(h, x, k))
  {
    if |h| == k {
      PushKeepsTop(h, x);
    }
  }

  /**
   * On a full heap and an item farther than its top, the two differ: the
   * pop-first admission keeps `x` and drops the top, the other drops `x`.
   */
  lemma PopThenPushKeepsFarther(h: seq<HeapItem>, x: HeapItem, k: nat)
    requires Ascending(h) && |h| == k && k >= 1 && x.dist > Top(h).dist
    ensures x in PopThenPush(h, x, k) && x !in PushCapped(h, x, k)
    ensures PushCapped(h, x, k) == h
  {
    InsertAppends(h, x, Dist);
    assert Push(h, x)[..|h|] == h;
  }

  /**
   * `tau` after an admission into `h`, the heap as it now is: a full heap's
   * greatest distance, otherwise `tau` as it was; an approximate admission
   * (`approx`) also lowers `tau` to the heap's greatest distance when that is
   * smaller, so it never raises it.
   */
  function NextTau(h: seq<HeapItem>, k: nat, tau: real, approx: bool): (t: real)
    requires Ascending(h) && h != []
    ensures |h| == k ==> t == Top(h).dist
    ensures |h| != k && !approx ==> t == tau
    ensures |h| != k && approx ==> t <= tau && t <= Top(h).dist && (t == tau || t == Top(h).dist)
  {
    var t := if |h| == k then Top(h).dist else tau;
    if approx && Top(h).dist < t then Top(h).dist else t
  }

  /** The set's contents: distances strictly increase. */
  predicate StrictlyAscending(h: seq<HeapItem>)
  {
    forall i, j :: 0 <= i < j < |h| ==> h[i].dist < h[j].dist
  }

  /** Some item of `h` is at distance `d`. */
  predicate HasDist(h: seq<HeapItem>, d: real)
  {
    exists i :: 0 <= i < |h| && h[i].dist == d
  }

  /**
   * `std::set::emplace` under a distance-only order: an item whose distance
   * is already present is dropped, otherwise it is added.
   */
  function SetInsert(h: seq<HeapItem>, x: HeapItem): (r: seq<HeapItem>)
    requires StrictlyAscending(h)
    ensures StrictlyAscending(r)
    ensures HasDist(h, x.dist) ==> r == h
    ensures !HasDist(h, x.dist) ==> multiset(r) == multiset(h) + multiset{x}
  {
    if h == [] then [x]
    else if x.dist == h[0].dist then h
    else if x.dist < h[0].dist then
      assert !HasDist(h, x.dist) by {
        forall i | 0 <= i < |h| ensures h[i].dist != x.dist {
          assert i == 0 || h[0].dist < h[i].dist;
        }
      }
      [x] + h
    else
      var rest := SetInsert(h[1..], x);
      HasDistTail(h, x.dist);
      assert forall j :: 0 <= j < |rest| ==> h[0].dist < rest[j].dist by {
        forall j | 0 <= j < |rest|
          ensures h[0].dist < rest[j].dist
        {
          assert rest[j] in multiset(rest);
          if rest[j] != x {
            assert rest[j] in multiset(h[1..]);
          }
        }
      }
      StrictPrepend(h[0], rest);
      assert h == [h[0]] + h[1..];
      [h[0]] + rest
  }

  /** Whether a distance occurs is decided by the tail once the head is below it. */
  lemma HasDistTail(h: seq<HeapItem>, d: real)
    requires h != [] && h[0].dist != d
    ensures HasDist(h, d) <==> HasDist(h[1..], d)
  {
    if HasDist(h, d) {
      var i :| 0 <= i < |h| && h[i].dist == d;
      assert h[1..][i - 1].dist == d;
    }
    if HasDist(h[1..], d) {
      var i :| 0 <= i < |h[1..]| && h[1..][i].dist == d;
      assert h[i + 1].dist == d;
    }
  }

  lemma StrictPrepend(a: HeapItem, rest: seq<HeapItem>)
    requires StrictlyAscending(rest) && forall j :: 0 <= j < |rest| ==> a.dist < rest[j].dist
    ensures StrictlyAscending([a] + rest)
  {
  }

  /** Items in non-increasing distance order: what draining a max-heap yields. */
  predicate Descending(h: seq<HeapItem>)
  {
    forall i, j :: 0 <= i < j < |h| ==> h[j].dist <= h[i].dist
  }

  /** `h` back to front (`std::reverse`). */
  function Reversed(h: seq<HeapItem>): (r: seq<HeapItem>)
    ensures |r| == |h| && forall i :: 0 <= i < |h| ==> r[i] == h[|h| - 1 - i]
  {
    seq(|h|, i requires 0 <= i < |h| => h[|h| - 1 - i])
  }

  /** Reversing twice gives the sequence back, and reversing an ascending sequence makes it descending. */
  lemma ReversedAscending(h: seq<HeapItem>)
    requires Ascending(h)
    ensures Reversed(Reversed(h)) == h && Descending(Reversed(h))
  {
    SortedPairwise(h, Dist);
  }

  /**
   * `while (!heap_.empty()) { out.push_back(heap_.top()); heap_.pop(); }`:
   * the heap's items from the greatest distance down.
   */
  method PopAll(h: seq<HeapItem>) returns (out: seq<HeapItem>)
    requires Ascending(h)
    ensures out == Reversed(h) && Descending(out)
  {
    out := [];
    var rest := h;
    while rest != []
      invariant Ascending(rest) && |rest| <= |h| && rest == h[..|rest|]
      invariant out == Reversed(h[|rest|..])
      decreases |rest|
    {
      out := out + [Top(rest)];
      rest := Pop(rest);
    }
    ReversedAscending(h);
  }

  /** `emplace` never loses a distance already present, always ends with one at the new item's distance, and adds nothing but that item. */
  lemma SetInsertMembers(h: seq<HeapItem>, x: HeapItem)
    requires StrictlyAscending(h)
    ensures HasDist(SetInsert(h, x), x.dist)
    ensures forall d :: HasDist(h, d) ==> HasDist(SetInsert(h, x), d)
    ensures forall y :: y in SetInsert(h, x) ==> y in h || y == x
  {
    var r := SetInsert(h, x);
    if !HasDist(h, x.dist) {
      assert x in multiset(r);
      var j :| 0 <= j < |r| && r[j] == x;
      forall d | HasDist(h, d) ensures HasDist(r, d) {
        var i :| 0 <= i < |h| && h[i].dist == d;
        assert h[i] in multiset(r);
        var j' :| 0 <= j' < |r| && r[j'] == h[i];
      }
      forall y | y in r ensures y in h || y == x {
        assert y in multiset(r);
      }
    }
  }
}

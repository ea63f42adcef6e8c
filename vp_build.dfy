/**
 * The value-level model of `recursive_restruct_tree`
 * (src/vptree/DiskVP.cpp) and the properties of the tree it builds.
 *
 * `Restruct` is the build of an inclusive range `[first, last]` of the
 * logical order, from one `Build` state (records, `index`,
 * `blockade_elements`, draws taken from the random stream) to the next,
 * branch for branch as the source recurses; the methods of `DiskVP`
 * (vptree.dfy) are proved to perform it. The lemmas at the end state what
 * the build achieves: what it may change, when it succeeds, that an
 * unlinked range comes out laid out as a tree, the pivot's header, and the
 * ball the pivot's radius draws around the left half.
 */
module VPBuild {
  import opened Machine
  import opened Wrappers
  import opened VPLayout
  import opened Selection

  /** `VPTRee_Strategies`. */
  datatype Strategy = BalancedRootIsGeometricMedian | BalancedRootIsHalfwayBlockade | RandomRootUnbalanced

  /**
   * The two `runtime_error`s of `openSortedFile`, plus the situations in
   * which the source has undefined behaviour: an empty log given to
   * `restruct_index` (`idx - 1` wraps), a `median` read before it is
   * assigned, a `median` outside the `nth_element` range, and a record id
   * past the end of `indexMemory`.
   */
  datatype VPError =
    | DimensionsDoNotMatch
    | LengthDoesNotMatch
    | EmptyFile
    | MedianUnassigned
    | MedianOutOfRange
    | IdOutOfRange

  /** An entry of `blockade_elements`: a pivot's record position and its radius. */
  datatype BlockadeElement = BlockadeElement(record: nat, radius: real)

  /** The `int blockade` parameter; values below -1 are outside the model. */
  type Blockade = b: int | b >= -1

  /** `ker(d, a, b)` on two `d`-float vectors. */
  type Kernel = (seq<real>, seq<real>) -> real

  /** The header of a record that no build has touched: radius 0, no children. */
  predicate Fresh(h: NodeHeader)
  {
    h.radius == 0.0 && NoChildren(h)
  }

  /** The header after `updateNode`'s first two writes: `isLeaf` set when `lf`, the radius when `distance != 0`. */
  function Marked(h: NodeHeader, distance: real, lf: bool): NodeHeader
  {
    var h1 := if lf then h.(isLeaf := true) else h;
    if distance != 0.0 then h1.(radius := distance) else h1
  }

  /**
   * `updateNode(_, distance, lchild, rchild, lf)` on one header as the
   * source writes it: the two marks, then, only when `lchild != UINT_MAX`,
   * the two overlapping 8-byte child stores.
   */
  function UpdateNodeBytes(h: NodeHeader, distance: real, lchild: nat, rchild: nat, lf: bool): NodeHeader
  {
    var h2 := Marked(h, distance, lf);
    if lchild != UINT_MAX then StoreChildren(h2, lchild, rchild) else h2
  }

  /** The low 32 bits of `x`, by repeated subtraction: `x % 2^32` (see `Low32Mod`). */
  function Low32(x: nat): nat
    decreases x
  {
    if x < U32 then x else Low32(x - U32)
  }

  /** The fifth byte of `x`, by repeated subtraction: `x / 2^32 % 256` (see `FifthByteMod`). */
  function FifthByte(x: nat): nat
    decreases x
  {
    if x < U32 then 0
    else
      var b := FifthByte(x - U32);
      if b == 255 then 0 else b + 1
  }

  lemma {:induction false} Low32Mod(x: nat)
    ensures Low32(x) == x % U32
    decreases x
  {
    if x >= U32 {
      Low32Mod(x - U32);
    }
  }

  lemma {:induction false} FifthByteMod(x: nat)
    ensures FifthByte(x) == x / U32 % 256
    decreases x
  {
    if x >= U32 {
      FifthByteMod(x - U32);
      assert (x - U32) / U32 == x / U32 - 1;
    }
  }

  /** The net effect of `updateNode` on one header, field by field (see `UpdatedHeaderIsByteStores`). */
  function UpdatedHeader(h: NodeHeader, distance: real, lchild: nat, rchild: nat, lf: bool): (r: NodeHeader)
    ensures r.id == h.id
  {
    var h2 := Marked(h, distance, lf);
    if lchild != UINT_MAX then h2.(leftChild := Low32(lchild), rightChild := Low32(rchild), isLeaf := FifthByte(rchild) != 0)
    else h2
  }

  /**
   * The field-level effect is what the byte stores write: the radius is
   * set when `distance != 0`; with `lchild == UINT_MAX` the links stay and
   * `isLeaf` is or-ed with `lf`; otherwise the links are the children
   * truncated to 32 bits and `isLeaf` is the fifth byte of `rchild`.
   */
  lemma UpdatedHeaderIsByteStores(h: NodeHeader, distance: real, lchild: nat, rchild: nat, lf: bool)
    ensures UpdatedHeader(h, distance, lchild, rchild, lf) == UpdateNodeBytes(h, distance, lchild, rchild, lf)
    ensures UpdatedHeader(h, distance, lchild, rchild, lf).radius == if distance != 0.0 then distance else h.radius
    ensures lchild == UINT_MAX ==>
      UpdatedHeader(h, distance, lchild, rchild, lf).leftChild == h.leftChild &&
      UpdatedHeader(h, distance, lchild, rchild, lf).rightChild == h.rightChild &&
      UpdatedHeader(h, distance, lchild, rchild, lf).isLeaf == (h.isLeaf || lf)
  {
    if lchild != UINT_MAX {
      Low32Mod(lchild);
      Low32Mod(rchild);
      FifthByteMod(rchild);
      StoreChildrenNetEffect(Marked(h, distance, lf), lchild, rchild);
    }
  }

  /** The call for a one-element range writes nothing. */
  lemma SingletonUpdateIsNoOp(h: NodeHeader)
    ensures UpdatedHeader(h, 0.0, UINT_MAX, UINT_MAX, false) == h
  {
  }

  /** A header whose children are set to two in-range links: the radius when non-zero, both links, `isLeaf` cleared. */
  function Linked(h: NodeHeader, distance: real, lchild: nat, rchild: nat): NodeHeader
  {
    h.(radius := if distance != 0.0 then distance else h.radius, leftChild := lchild, rightChild := rchild, isLeaf := false)
  }

  /** With 32-bit children (the right one possibly "none"), a pivot update sets exactly the radius and both links and clears `isLeaf`. */
  lemma PivotUpdate(h: NodeHeader, distance: real, lchild: nat, rchild: nat)
    requires lchild < UINT_MAX && rchild < U32
    ensures UpdatedHeader(h, distance, lchild, rchild, false) == Linked(h, distance, lchild, rchild)
  {
  }

  /** The left child `recursive_restruct_tree` gives the pivot of `[first, last]`: none for a single record, else `first + 1`. */
  function LeftLink(first: nat, last: nat): (l: nat)
    ensures first < last ==> first < l <= last
  {
    if first >= last then UINT_MAX else first + 1
  }

  /** The right child: none for one or two records, else the first position after the middle. */
  function RightLink(first: nat, last: nat): (r: nat)
    ensures first + 2 <= last ==> first + 1 < r <= last
  {
    if last <= first + 1 then UINT_MAX else (first + last) / 2 + 1
  }

  /** The records of `recs` in the order `ix` lists them: what `restruct_index` copies out. */
  function Logical(recs: seq<Record>, ix: seq<nat>, n: nat): (r: seq<Record>)
    requires n <= |ix| && forall j :: 0 <= j < n ==> ix[j] < |recs|
    ensures |r| == n && forall j :: 0 <= j < n ==> r[j] == recs[ix[j]]
  {
    seq(n, j requires 0 <= j < n => recs[ix[j]])
  }

  /**
   * Reading the logical file at the position the `_idx` file gives for an
   * original record yields that record: `written` inverts `ix`.
   */
  lemma InverseLookup(recs: seq<Record>, ix: seq<nat>, written: seq<nat>)
    requires |ix| == |recs| == |written| && forall j :: 0 <= j < |ix| ==> ix[j] < |recs|
    requires forall j :: 0 <= j < |ix| ==> written[ix[j]] == j
    ensures forall x :: 0 <= x < |recs| && x in ix ==>
      written[x] < |recs| && Logical(recs, ix, |ix|)[written[x]] == recs[x]
  {
    forall x | 0 <= x < |recs| && x in ix
      ensures written[x] < |recs| && Logical(recs, ix, |ix|)[written[x]] == recs[x]
    {
      var j :| 0 <= j < |ix| && ix[j] == x;
      assert written[x] == j;
    }
  }

  /** A `d`-float vector `n` times over: the accumulator of the balanced builder. */
  function Scaled(n: nat, v: seq<real>): (c: seq<real>)
    ensures |c| == |v| && forall j :: 0 <= j < |v| ==> c[j] == n as real * v[j]
  {
    seq(|v|, j requires 0 <= j < |v| => n as real * v[j])
  }

  /** The comparator key of the builder's sorts: distance from `pv` to the vector of a record position. */
  function KeyFrom(ker: Kernel, recs: seq<Record>, pv: seq<real>): nat -> real
  {
    (x: nat) => if x < |recs| then ker(pv, recs[x].vec) else 0.0
  }

  /** Exchanging the elements at `i` and `j`. */
  function Swap(s: seq<nat>, i: nat, j: nat): (r: seq<nat>)
    requires i < |s| && j < |s|
    ensures |r| == |s| && r[i] == s[j] && r[j] == s[i] && multiset(r) == multiset(s)
    ensures forall k :: 0 <= k < |s| && k != i && k != j ==> r[k] == s[k]
  {
    SwapMultiset(s, i, j);
    s[i := s[j]][j := s[i]]
  }

  /** `ix` with the stretch `[first, last)` replaced by `seg`. */
  function Splice(ix: seq<nat>, first: nat, last: nat, seg: seq<nat>): (r: seq<nat>)
    requires first <= last <= |ix| && |seg| == last - first
    ensures |r| == |ix| && r[..first] == ix[..first] && r[last..] == ix[last..] && r[first..last] == seg
  {
    ix[..first] + seg + ix[last..]
  }

  /** Rearranging a stretch keeps a duplicate-free sequence of values below `n` so. */
  lemma StretchRearranged(ix: seq<nat>, r: seq<nat>, first: nat, last: nat, n: nat)
    requires first <= last <= |ix| == |r|
    requires r[..first] == ix[..first] && r[last..] == ix[last..] && multiset(r[first..last]) == multiset(ix[first..last])
    requires Distinct(ix) && forall i :: 0 <= i < |ix| ==> ix[i] < n
    ensures Distinct(r) && forall i :: 0 <= i < |r| ==> r[i] < n
  {
    assert ix == ix[..first] + ix[first..last] + ix[last..];
    assert r == r[..first] + r[first..last] + r[last..];
    assert multiset(r) == multiset(ix);
    forall i | 0 <= i < |r| ensures r[i] < n {
      assert r[i] in multiset(ix);
    }
  }

  /** An element of a rearranged stretch came from the same stretch before. */
  lemma StretchMember(a: seq<nat>, b: seq<nat>, lo: nat, hi: nat, p: nat)
    requires lo <= p < hi <= |a| && hi <= |b| && multiset(a[lo..hi]) == multiset(b[lo..hi])
    ensures exists q :: lo <= q < hi && b[q] == a[p]
  {
    assert a[lo..hi][p - lo] == a[p];
    assert a[p] in multiset(b[lo..hi]);
    var q' :| 0 <= q' < hi - lo && b[lo..hi][q'] == a[p];
    assert b[lo + q'] == a[p];
  }

  /** `b` holds the records of `a` with their ids and vectors: only radii, links and leaf flags differ. */
  predicate PayloadKept(a: seq<Record>, b: seq<Record>)
  {
    |a| == |b| && forall x :: 0 <= x < |a| ==> b[x].vec == a[x].vec && b[x].header.id == a[x].header.id
  }

  /** Every record listed at positions `lo .. hi - 1` of `ix` has no child links yet. */
  predicate UnlinkedIn(recs: seq<Record>, ix: seq<nat>, lo: nat, hi: nat)
    requires lo <= hi <= |ix|
  {
    forall p :: lo <= p < hi ==> ix[p] < |recs| && NoChildren(recs[ix[p]].header)
  }

  /** Every record listed at `lo .. hi - 1` lies within distance `r` of `pv`. */
  predicate Inside(ker: Kernel, recs: seq<Record>, ix: seq<nat>, lo: nat, hi: nat, pv: seq<real>, r: real)
    requires lo <= hi <= |ix|
  {
    forall p :: lo <= p < hi ==> ix[p] < |recs| && ker(pv, recs[ix[p]].vec) <= r
  }

  /** Every record listed at `lo .. hi - 1` lies at distance `r` or more from `pv`. */
  predicate Outside(ker: Kernel, recs: seq<Record>, ix: seq<nat>, lo: nat, hi: nat, pv: seq<real>, r: real)
    requires lo <= hi <= |ix|
  {
    forall p :: lo <= p < hi ==> ix[p] < |recs| && r <= ker(pv, recs[ix[p]].vec)
  }

  /** The same for every listed record other than record `e`. */
  predicate OutsideExcept(ker: Kernel, recs: seq<Record>, ix: seq<nat>, lo: nat, hi: nat, pv: seq<real>, r: real, e: nat)
    requires lo <= hi <= |ix|
  {
    forall p :: lo <= p < hi && ix[p] != e ==> ix[p] < |recs| && r <= ker(pv, recs[ix[p]].vec)
  }

  /** Positions `first ..= last` of the logical order carry links that stay inside the range and point forward. */
  predicate Laid(recs: seq<Record>, ix: seq<nat>, first: nat, last: nat)
    requires first <= last < |ix| && forall i :: 0 <= i < |ix| ==> ix[i] < |recs|
  {
    forall p :: first <= p <= last ==> LinksWithin(p, last, recs[ix[p]].header)
  }

  /** `b` rearranges `a` and moves nothing outside `[lo, hi)`. */
  predicate Moved(a: seq<nat>, b: seq<nat>, lo: nat, hi: nat)
  {
    |a| == |b| && multiset(a) == multiset(b) &&
    forall p :: 0 <= p < |a| && !(lo <= p < hi) ==> b[p] == a[p]
  }

  /**
   * What building the stretch `[lo, hi)` of the logical order does, from
   * state `a` to state `b`: vectors are kept, `index` is rearranged inside
   * the stretch only, records listed outside it are untouched, and
   * `blockade_elements` only grows.
   */
  predicate Step(a: Build, b: Build, lo: nat, hi: nat)
    requires Bounded(a) && Bounded(b)
  {
    PayloadKept(a.records, b.records) && Moved(a.index, b.index, lo, hi) &&
    (forall p :: 0 <= p < |b.index| && !(lo <= p < hi) ==> b.records[b.index[p]] == a.records[a.index[p]]) &&
    |b.blockadeElements| >= |a.blockadeElements| && b.blockadeElements[..|a.blockadeElements|] == a.blockadeElements
  }

  /** Two builds inside `[lo, hi)`, one after the other, are a build of `[lo, hi)`. */
  lemma StepTrans(a: Build, b: Build, c: Build, lo: nat, hi: nat, lo1: nat, hi1: nat, lo2: nat, hi2: nat)
    requires Bounded(a) && Bounded(b) && Bounded(c)
    requires lo <= lo1 && hi1 <= hi && lo <= lo2 && hi2 <= hi
    requires Step(a, b, lo1, hi1) && Step(b, c, lo2, hi2)
    ensures Step(a, c, lo, hi)
  {
    assert c.blockadeElements[..|a.blockadeElements|] == c.blockadeElements[..|b.blockadeElements|][..|a.blockadeElements|];
    forall p | 0 <= p < |c.index| && !(lo <= p < hi) ensures c.index[p] == a.index[p] && c.records[c.index[p]] == a.records[a.index[p]] {
      assert b.index[p] == a.index[p] && b.records[b.index[p]] == a.records[a.index[p]];
    }
  }

  /** A build step keeps a state well formed. */
  lemma StepValid(d: nat, a: Build, b: Build, lo: nat, hi: nat)
    requires Valid(d, a) && Bounded(b) && Step(a, b, lo, hi)
    ensures Valid(d, b)
  {
    assert Distinct(b.index);
  }

  /** A rearrangement confined to `[lo, hi)` rearranges that stretch. */
  lemma MovedStretch(a: seq<nat>, b: seq<nat>, lo: nat, hi: nat)
    requires lo <= hi <= |a| && Moved(a, b, lo, hi)
    ensures multiset(a[lo..hi]) == multiset(b[lo..hi])
  {
    assert a[..lo] == b[..lo] by {
      forall p | 0 <= p < lo ensures a[..lo][p] == b[..lo][p] {
        assert b[p] == a[p];
      }
    }
    assert a[hi..] == b[hi..] by {
      forall p | 0 <= p < |a| - hi ensures a[hi..][p] == b[hi..][p] {
        assert b[hi + p] == a[hi + p];
      }
    }
    StretchCancel(a, b, lo, hi);
  }

  /** Two rearrangements of each other that agree outside `[lo, hi)` rearrange that stretch. */
  lemma StretchCancel(a: seq<nat>, b: seq<nat>, lo: nat, hi: nat)
    requires lo <= hi <= |a| == |b| && multiset(a) == multiset(b)
    requires a[..lo] == b[..lo] && a[hi..] == b[hi..]
    ensures multiset(a[lo..hi]) == multiset(b[lo..hi])
  {
    assert a == a[..lo] + a[lo..hi] + a[hi..];
    assert b == b[..lo] + b[lo..hi] + b[hi..];
    assert multiset(a) == multiset(a[..lo]) + multiset(a[lo..hi]) + multiset(a[hi..]);
    assert multiset(b) == multiset(b[..lo]) + multiset(b[lo..hi]) + multiset(b[hi..]);
    forall e ensures multiset(a[lo..hi])[e] == multiset(b[lo..hi])[e] {
      assert multiset(a)[e] == multiset(b)[e];
    }
  }

  /** Rearranging a stretch and nothing else is a confined rearrangement. */
  lemma StretchMoved(a: seq<nat>, b: seq<nat>, lo: nat, hi: nat)
    requires lo <= hi <= |a| == |b|
    requires a[..lo] == b[..lo] && a[hi..] == b[hi..] && multiset(a[lo..hi]) == multiset(b[lo..hi])
    ensures Moved(a, b, lo, hi)
  {
    assert a == a[..lo] + a[lo..hi] + a[hi..];
    assert b == b[..lo] + b[lo..hi] + b[hi..];
    forall p | 0 <= p < |a| && !(lo <= p < hi) ensures b[p] == a[p] {
      if p < lo {
        assert a[..lo][p] == b[..lo][p];
      } else {
        assert a[hi..][p - hi] == b[hi..][p - hi];
      }
    }
  }

  /** The records listed in a rearranged stretch are the ones listed there before. */
  lemma UnlinkedRearranged(recs: seq<Record>, a: seq<nat>, b: seq<nat>, lo: nat, hi: nat)
    requires lo <= hi <= |a| && Moved(a, b, lo, hi)
    requires UnlinkedIn(recs, a, lo, hi)
    ensures UnlinkedIn(recs, b, lo, hi)
  {
    MovedStretch(a, b, lo, hi);
    forall q | lo <= q < hi ensures b[q] < |recs| && NoChildren(recs[b[q]].header) {
      StretchMember(b, a, lo, hi, q);
    }
  }

  /** Membership of the ball survives rearranging the stretch. */
  lemma InsideRearranged(ker: Kernel, recs: seq<Record>, a: seq<nat>, b: seq<nat>, lo: nat, hi: nat, pv: seq<real>, r: real)
    requires lo <= hi <= |a| && Moved(a, b, lo, hi)
    requires Inside(ker, recs, a, lo, hi, pv, r)
    ensures Inside(ker, recs, b, lo, hi, pv, r)
  {
    MovedStretch(a, b, lo, hi);
    forall q | lo <= q < hi ensures b[q] < |recs| && ker(pv, recs[b[q]].vec) <= r {
      StretchMember(b, a, lo, hi, q);
    }
  }

  /** Lying outside the ball survives rearranging the stretch, for every record but `e`. */
  lemma OutsideRearranged(ker: Kernel, recs: seq<Record>, a: seq<nat>, b: seq<nat>, lo: nat, hi: nat, pv: seq<real>, r: real, e: nat)
    requires lo <= hi <= |a| && Moved(a, b, lo, hi)
    requires OutsideExcept(ker, recs, a, lo, hi, pv, r, e)
    ensures OutsideExcept(ker, recs, b, lo, hi, pv, r, e)
  {
    MovedStretch(a, b, lo, hi);
    forall q | lo <= q < hi && b[q] != e ensures b[q] < |recs| && r <= ker(pv, recs[b[q]].vec) {
      StretchMember(b, a, lo, hi, q);
    }
  }

  /** `nth_element`'s partition, read as a ball around the pivot of radius "distance to the median". */
  lemma PartitionBall(ker: Kernel, recs: seq<Record>, ix: seq<nat>, first: nat, last: nat, median: nat)
    requires first + 1 <= median < last <= |ix| && forall i :: 0 <= i < |ix| ==> ix[i] < |recs|
    requires PartitionedAt(ix[first + 1..last], median - first - 1, KeyFrom(ker, recs, recs[ix[first]].vec))
    ensures Inside(ker, recs, ix, first + 1, median + 1, recs[ix[first]].vec, ker(recs[ix[first]].vec, recs[ix[median]].vec))
    ensures Outside(ker, recs, ix, median + 1, last, recs[ix[first]].vec, ker(recs[ix[first]].vec, recs[ix[median]].vec))
  {
    var s, n := ix[first + 1..last], median - first - 1;
    var pv := recs[ix[first]].vec;
    assert s[n] == ix[median];
    forall p | first + 1 <= p < median + 1 ensures ker(pv, recs[ix[p]].vec) <= ker(pv, recs[ix[median]].vec) {
      assert s[p - first - 1] == ix[p];
    }
    forall p | median + 1 <= p < last ensures ker(pv, recs[ix[median]].vec) <= ker(pv, recs[ix[p]].vec) {
      assert s[p - first - 1] == ix[p];
    }
  }

  /** Laying out `[lo, mid]` and then `[mid + 1, last]`, which leaves the left stretch alone, lays out `[lo, last]`. */
  lemma LaidHalves(r2: seq<Record>, i2: seq<nat>, r3: seq<Record>, i3: seq<nat>, lo: nat, mid: nat, last: nat)
    requires lo <= mid < last < |i2| == |i3|
    requires forall i :: 0 <= i < |i2| ==> i2[i] < |r2|
    requires forall i :: 0 <= i < |i3| ==> i3[i] < |r3|
    requires forall p :: 0 <= p < |i2| && !(mid + 1 <= p <= last) ==> i3[p] == i2[p] && r3[i3[p]] == r2[i2[p]]
    requires Laid(r2, i2, lo, mid) && Laid(r3, i3, mid + 1, last)
    ensures Laid(r3, i3, lo, last)
  {
    forall p | lo <= p <= last ensures LinksWithin(p, last, r3[i3[p]].header) {
      if p <= mid {
        assert r3[i3[p]] == r2[i2[p]];
        assert LinksWithin(p, mid, r2[i2[p]].header);
      }
    }
  }

  /** A pivot at `first` linking forward inside `[first, last]`, followed by a laid-out `[first + 1, last]`. */
  lemma LaidCons(recs: seq<Record>, ix: seq<nat>, first: nat, last: nat)
    requires first < last < |ix| && forall i :: 0 <= i < |ix| ==> ix[i] < |recs|
    requires LinksWithin(first, last, recs[ix[first]].header) && Laid(recs, ix, first + 1, last)
    ensures Laid(recs, ix, first, last)
  {
  }


  /** Both halves' ball facts survive building the halves, one after the other. */
  lemma BallHalves(ker: Kernel, recs: seq<Record>, pv: seq<real>, r: real,
                   i1: seq<nat>, i2: seq<nat>, i3: seq<nat>, first: nat, mid: nat, last: nat)
    requires first + 1 <= mid < last < |i1|
    requires Moved(i1, i2, first + 1, mid + 1) && Moved(i2, i3, mid + 1, last + 1)
    ensures Inside(ker, recs, i1, first + 1, mid + 1, pv, r) ==> Inside(ker, recs, i3, first + 1, mid + 1, pv, r)
    ensures Outside(ker, recs, i1, mid + 1, last, pv, r) ==> OutsideExcept(ker, recs, i3, mid + 1, last + 1, pv, r, i1[last])
  {
    if Inside(ker, recs, i1, first + 1, mid + 1, pv, r) {
      InsideRearranged(ker, recs, i1, i2, first + 1, mid + 1, pv, r);
    }
    if Outside(ker, recs, i1, mid + 1, last, pv, r) {
      assert OutsideExcept(ker, recs, i2, mid + 1, last + 1, pv, r, i1[last]);
      OutsideRearranged(ker, recs, i2, i3, mid + 1, last + 1, pv, r, i1[last]);
    }
  }

  /** The builder's parameters: the dimension, the kernel, `blockade`, the strategy and the `mt19937` stream (its `n`-th draw). */
  datatype Config = Config(d: nat, ker: Kernel, blockade: Blockade, strategy: Strategy, rng: nat -> nat)

  /** What the build reads and writes: the records, the logical order `index`, `blockade_elements` and the number of draws taken. */
  datatype Build = Build(records: seq<Record>, index: seq<nat>, blockadeElements: seq<BlockadeElement>, draws: nat)

  /** The state a build leaves, and its outcome. */
  datatype Built = Built(state: Build, outcome: Outcome<VPError>)

  /** A pivot choice: the new `index`, the draws taken so far, `root`, and whether a usable median was assigned. */
  datatype Choice = Choice(index: seq<nat>, draws: nat, root: nat, outcome: Outcome<VPError>)

  /** Every record holds `d` floats. */
  predicate ShapedAs(recs: seq<Record>, d: nat)
  {
    forall i :: 0 <= i < |recs| ==> |recs[i].vec| == d
  }

  /** Every entry of `index` names a record. */
  predicate Bounded(s: Build)
  {
    forall i :: 0 <= i < |s.index| ==> s.index[i] < |s.records|
  }

  /** A state the build works on: `index` lists every record exactly once, and every record holds `d` floats. */
  ghost predicate Valid(d: nat, s: Build)
  {
    |s.index| == |s.records| && Bounded(s) && Distinct(s.index) && ShapedAs(s.records, d)
  }

  /** Changing headers only keeps a state valid. */
  lemma KeptValid(d: nat, s: Build, r: Build)
    requires Valid(d, s) && r.index == s.index && PayloadKept(s.records, r.records)
    ensures Valid(d, r)
  {
    assert Distinct(r.index);
  }

  /** `doBalanced` for the range `[first, last]`. */
  predicate DoBalanced(cfg: Config, first: nat, last: nat)
    requires first <= last
  {
    cfg.strategy != RandomRootUnbalanced &&
    if cfg.blockade != -1 then (last - first) / 2 > cfg.blockade else last - first > 2
  }

  /** `(blockade != -1) && (first + blockade < last)`. */
  predicate BlockadeFits(cfg: Config, first: nat, last: nat)
  {
    cfg.blockade != -1 && first + cfg.blockade < last
  }

  /**
   * The `median` a pivot step uses, or `None` on the paths that never
   * assign it (the geometric-median strategy and the balanced fallback).
   * On the random path a fitting blockade is used as an absolute position.
   */
  function Median(cfg: Config, first: nat, last: nat): (m: Option<nat>)
    requires first <= last
    ensures m.None? <==> DoBalanced(cfg, first, last) && !(BlockadeFits(cfg, first, last) && cfg.strategy == BalancedRootIsHalfwayBlockade)
    ensures m.Some? && DoBalanced(cfg, first, last) ==> m.value == (first + last) / 2
    ensures m.Some? && first < last ==> m.value < last
  {
    if DoBalanced(cfg, first, last) then
      if BlockadeFits(cfg, first, last) && cfg.strategy == BalancedRootIsHalfwayBlockade then Some((first + last) / 2) else None
    else if BlockadeFits(cfg, first, last) then Some(cfg.blockade as nat)
    else Some((first + last) / 2)
  }

  /** Whether `recursive_restruct_tree(first, last)` gets through every pivot step with a usable median. */
  ghost predicate Buildable(cfg: Config, first: nat, last: nat)
    requires first <= last
    decreases last - first, 1
  {
    last - first <= 1 || SplitBuildable(cfg, first, last)
  }

  ghost predicate SplitBuildable(cfg: Config, first: nat, last: nat)
    requires first + 2 <= last
    decreases last - first, 0
  {
    Median(cfg, first, last).Some? && first + 1 <= Median(cfg, first, last).value &&
    Buildable(cfg, first + 1, (first + last) / 2) && Buildable(cfg, (first + last) / 2 + 1, last)
  }

  /** With the random strategy and no blockade, every range builds: the median is always the middle. */
  lemma {:induction false} RandomAlwaysBuildable(cfg: Config, first: nat, last: nat)
    requires cfg.strategy == RandomRootUnbalanced && cfg.blockade == -1 && first <= last
    ensures Buildable(cfg, first, last)
    decreases last - first
  {
    if last - first > 1 {
      RandomAlwaysBuildable(cfg, first + 1, (first + last) / 2);
      RandomAlwaysBuildable(cfg, (first + last) / 2 + 1, last);
    }
  }

  /** The geometric-median strategy never assigns the median, so no range it balances builds. */
  lemma GeometricUnbuildable(cfg: Config, first: nat, last: nat)
    requires cfg.strategy == BalancedRootIsGeometricMedian && first <= last && DoBalanced(cfg, first, last)
    ensures !Buildable(cfg, first, last)
  {
  }

  /** A rearrangement of a stretch of `index` lists record positions only. */
  lemma StretchBounded(s: Build, first: nat, last: nat, seg: seq<nat>)
    requires Bounded(s) && first <= last <= |s.index| && multiset(seg) == multiset(s.index[first..last])
    ensures forall i :: 0 <= i < |seg| ==> seg[i] < |s.records|
  {
    forall i | 0 <= i < |seg| ensures seg[i] < |s.records| {
      assert seg[i] in multiset(s.index[first..last]);
      var k :| 0 <= k < last - first && s.index[first..last][k] == seg[i];
      assert s.index[first + k] == seg[i];
    }
  }

  /** A state whose `index` is rearranged inside a stretch is as well formed as before. */
  lemma MovedValid(d: nat, s: Build, ix: seq<nat>, lo: nat, hi: nat)
    requires Valid(d, s) && lo <= hi <= |s.index| && Moved(s.index, ix, lo, hi)
    ensures Valid(d, s.(index := ix))
  {
    forall i | 0 <= i < |ix| ensures ix[i] < |s.records| {
      assert ix[i] in multiset(s.index);
    }
  }

  /** The stretch written back: its front lands at `first`, its rest at `first + 1 .. last - 1`. */
  lemma SplicedFront(ix: seq<nat>, first: nat, last: nat, seg: seq<nat>)
    requires first < last <= |ix| && |seg| == last - first
    ensures Splice(ix, first, last, seg)[first] == seg[0]
    ensures Splice(ix, first, last, seg)[first + 1..last] == seg[1..]
  {
    var r := Splice(ix, first, last, seg);
    assert r[first] == r[first..last][0];
    assert r[first + 1..last] == r[first..last][1..];
  }

  /**
   * A stretch after `swap(index[first], index[root])` (`offset` is
   * `root - first`) and, when a median is given, `nth_element` of the rest
   * by distance from the new front element, realised as a sort.
   */
  function Arranged(ker: Kernel, recs: seq<Record>, seg: seq<nat>, offset: nat, m: Option<nat>): (r: seq<nat>)
    requires offset < |seg| && (m.Some? ==> m.value + 1 < |seg|)
    requires forall i :: 0 <= i < |seg| ==> seg[i] < |recs|
    ensures |r| == |seg| && multiset(r) == multiset(seg) && r[0] == seg[offset]
    ensures m.Some? ==> PartitionedAt(r[1..], m.value, KeyFrom(ker, recs, recs[r[0]].vec))
  {
    var t := Swap(seg, 0, offset);
    if m.None? then t
    else
      FrontThenSorted(t, m.value, KeyFrom(ker, recs, recs[t[0]].vec));
      [t[0]] + Sort(t[1..], KeyFrom(ker, recs, recs[t[0]].vec))
  }

  /** Keeping the front and sorting the rest rearranges `t` and partitions the rest at every position. */
  lemma FrontThenSorted(t: seq<nat>, n: nat, key: nat -> real)
    requires n + 1 < |t|
    ensures var r: seq<nat> := [t[0]] + Sort(t[1..], key);
      |r| == |t| && multiset(r) == multiset(t) && r[0] == t[0] && PartitionedAt(r[1..], n, key)
  {
    var tail := Sort(t[1..], key);
    SortedPartitioned(tail, n, key);
    assert t == [t[0]] + t[1..];
    assert ([t[0]] + tail)[1..] == tail;
  }

  /**
   * What every pivot choice on `[first, last)` achieves: `index` is
   * rearranged inside the stretch only, `root` lies in it, a usable median
   * is assigned exactly when `Median` says, and then the rest of the
   * stretch is partitioned around the median by distance from the pivot
   * now at `first`.
   */
  predicate Pivoted(cfg: Config, s: Build, c: Choice, first: nat, last: nat)
    requires first + 2 <= last < |s.index| && Bounded(s)
  {
    Moved(s.index, c.index, first, last) && first <= c.root < last &&
    (forall i :: 0 <= i < |c.index| ==> c.index[i] < |s.records|) &&
    (c.outcome.Pass? <==> Median(cfg, first, last).Some? && first + 1 <= Median(cfg, first, last).value) &&
    (c.outcome.Pass? ==>
       PartitionedAt(c.index[first + 1..last], Median(cfg, first, last).value - first - 1,
                     KeyFrom(cfg.ker, s.records, s.records[c.index[first]].vec)))
  }

  /** `index` with the stretch `[first, last)` replaced by `seg`, a rearrangement of it. */
  lemma SplicedPivoted(s: Build, first: nat, last: nat, seg: seq<nat>)
    requires first < last <= |s.index| && Bounded(s) && |seg| == last - first
    requires multiset(seg) == multiset(s.index[first..last])
    ensures Moved(s.index, Splice(s.index, first, last, seg), first, last)
    ensures forall i :: 0 <= i < |s.index| ==> Splice(s.index, first, last, seg)[i] < |s.records|
    ensures Splice(s.index, first, last, seg)[first] == seg[0]
    ensures Splice(s.index, first, last, seg)[first + 1..last] == seg[1..]
  {
    SplicedFront(s.index, first, last, seg);
    StretchMoved(s.index, Splice(s.index, first, last, seg), first, last);
    MovedBounded(s, Splice(s.index, first, last, seg), first, last);
  }

  /** A rearranged `index` still names records only. */
  lemma MovedBounded(s: Build, ix: seq<nat>, lo: nat, hi: nat)
    requires Bounded(s) && Moved(s.index, ix, lo, hi)
    ensures forall i :: 0 <= i < |ix| ==> ix[i] < |s.records|
  {
    forall i | 0 <= i < |ix| ensures ix[i] < |s.records| {
      assert ix[i] in multiset(s.index);
    }
  }

  /**
   * Lines 69-93 and 105-129 after the stretch `[first, last)` has been
   * rearranged into `stretch`: `root` is swapped to the front, the rest is
   * arranged around `mo` when given, and the result is written back into
   * `index`. This is a pivot choice provided the outcome passes exactly
   * when a usable median exists and `mo` is then that median.
   */
  function PivotChoice(cfg: Config, s: Build, first: nat, last: nat, stretch: seq<nat>, root: nat, mo: Option<nat>,
                       draws: nat, o: Outcome<VPError>): (c: Choice)
    requires first + 2 <= last < |s.index| && Bounded(s) && first <= root < last
    requires |stretch| == last - first && multiset(stretch) == multiset(s.index[first..last])
    requires forall i :: 0 <= i < |stretch| ==> stretch[i] < |s.records|
    requires mo.Some? ==> mo.value + 1 < |stretch|
    requires o.Pass? <==> Median(cfg, first, last).Some? && first + 1 <= Median(cfg, first, last).value
    requires o.Pass? ==> mo == Some(Median(cfg, first, last).value - first - 1)
    ensures Pivoted(cfg, s, c, first, last) && c.index[first] == stretch[root - first]
    ensures c.draws == draws && c.root == root && c.outcome == o
  {
    var seg := Arranged(cfg.ker, s.records, stretch, root - first, mo);
    SplicedPivoted(s, first, last, seg);
    Choice(Splice(s.index, first, last, seg), draws, root, o)
  }

  /** On the balanced path an assigned median is the middle of the range, and the halfway root lies before `last`. */
  lemma BalancedMedian(cfg: Config, first: nat, last: nat)
    requires first + 2 <= last && DoBalanced(cfg, first, last)
    ensures var m := Median(cfg, first, last);
      m.Some? ==> m.value == (first + last) / 2 && first + 1 <= m.value < last &&
                  cfg.blockade >= 0 && first + cfg.blockade / 2 < last
  {
  }

  /** Lines 39-67: the stretch `[first, last)` sorted by distance from `last - first` times the vector at `first`. */
  function BalancedOrder(cfg: Config, s: Build, first: nat, last: nat): (r: seq<nat>)
    requires first < last < |s.index| && Bounded(s)
    ensures |r| == last - first && multiset(r) == multiset(s.index[first..last])
    ensures forall i :: 0 <= i < |r| ==> r[i] < |s.records|
  {
    var sorted := Sort(s.index[first..last], KeyFrom(cfg.ker, s.records, Scaled(last - first, s.records[s.index[first]].vec)));
    StretchBounded(s, first, last, sorted);
    sorted
  }

  /** Where the balanced path puts the root, where it partitions, and whether a median was assigned. */
  datatype Pick = Pick(root: nat, mo: Option<nat>, outcome: Outcome<VPError>)

  /**
   * Lines 59-67: the root is the entry `blockade / 2` of the sorted stretch
   * and the rest is split at the halfway median, which is assigned only when
   * the blockade fits under the halfway-blockade strategy.
   */
  function BalancedPick(cfg: Config, first: nat, last: nat): (p: Pick)
    requires first + 2 <= last && DoBalanced(cfg, first, last)
    ensures first <= p.root < last
    ensures p.mo.Some? ==> p.mo.value + 1 < last - first
    ensures p.outcome.Pass? <==> Median(cfg, first, last).Some? && first + 1 <= Median(cfg, first, last).value
    ensures p.outcome.Pass? ==> p.mo == Some(Median(cfg, first, last).value - first - 1)
    ensures p.outcome.Fail? ==> p.outcome.error == MedianUnassigned
  {
    var m := Median(cfg, first, last);
    BalancedMedian(cfg, first, last);
    if m.Some? then Pick(first + cfg.blockade / 2, Some(m.value - first - 1), Pass)
    else Pick(first, None, Fail(MedianUnassigned))
  }

  /**
   * Lines 39-93, the balanced path: sort `[first, last)` by distance from
   * the accumulator (`last - first` times the vector at `first`), swap the
   * root to the front (the element at `first + blockade / 2` when a
   * halfway blockade fits, else the one at `first`), and on the halfway
   * path partition the rest around `(first + last) / 2`; the other
   * balanced paths never assign the median.
   */
  function BalancedChoice(cfg: Config, s: Build, first: nat, last: nat): (c: Choice)
    requires first + 2 <= last < |s.index| && Bounded(s) && DoBalanced(cfg, first, last)
    ensures Pivoted(cfg, s, c, first, last) && c.draws == s.draws
    ensures c.outcome.Fail? ==> c.outcome.error == MedianUnassigned
  {
    var p := BalancedPick(cfg, first, last);
    PivotChoice(cfg, s, first, last, BalancedOrder(cfg, s, first, last), p.root, p.mo, s.draws, p.outcome)
  }

  /** On the balanced path the root placed at `first` is the entry of the sorted stretch at the root's offset. */
  lemma BalancedRoot(cfg: Config, s: Build, first: nat, last: nat)
    requires first + 2 <= last < |s.index| && Bounded(s) && DoBalanced(cfg, first, last)
    ensures var c := BalancedChoice(cfg, s, first, last);
      first <= c.root < last && c.index[first] == BalancedOrder(cfg, s, first, last)[c.root - first]
  {
    var p := BalancedPick(cfg, first, last);
    var sorted := BalancedOrder(cfg, s, first, last);
    var c := PivotChoice(cfg, s, first, last, sorted, p.root, p.mo, s.draws, p.outcome);
    assert c.index[first] == sorted[p.root - first] && c.root == p.root;
    assert BalancedChoice(cfg, s, first, last) == c;
  }

  /** A draw `x` brought into `[0, k)` by repeated subtraction, i.e. `x` modulo `k`. */
  function Within(x: nat, k: nat): (r: nat)
    requires k > 0
    ensures r < k
    decreases x
  {
    if x < k then x else Within(x - k, k)
  }

  /**
   * Lines 95-129, the random path: draw the root uniformly from
   * `[first, last - 1]`, swap it to the front, and partition the rest
   * around a fitting blockade or `(first + last) / 2`; a median below
   * `first + 1` lies outside the `nth_element` range.
   */
  function RandomChoice(cfg: Config, s: Build, first: nat, last: nat): (c: Choice)
    requires first + 2 <= last < |s.index| && Bounded(s) && !DoBalanced(cfg, first, last)
    ensures Pivoted(cfg, s, c, first, last) && c.draws == s.draws + 1
    ensures c.root == first + Within(cfg.rng(s.draws), last - first) && c.index[first] == s.index[c.root]
    ensures c.outcome.Fail? ==> c.outcome.error == MedianOutOfRange
  {
    var root := first + Within(cfg.rng(s.draws), last - first);
    var median := Median(cfg, first, last).value;
    var stretch := s.index[first..last];
    assert stretch[root - first] == s.index[root];
    StretchBounded(s, first, last, stretch);
    var o: Outcome<VPError> := if first + 1 <= median then Pass else Fail(MedianOutOfRange);
    PivotChoice(cfg, s, first, last, stretch, root, if first + 1 <= median then Some(median - first - 1) else None, s.draws + 1, o)
  }

  /** Lines 36-129: the pivot choice, balanced or random as `doBalanced` says. */
  function Choose(cfg: Config, s: Build, first: nat, last: nat): (c: Choice)
    requires first + 2 <= last < |s.index| && Bounded(s)
    ensures Pivoted(cfg, s, c, first, last)
  {
    if DoBalanced(cfg, first, last) then BalancedChoice(cfg, s, first, last) else RandomChoice(cfg, s, first, last)
  }

  /** `updateNode(i, distance, lchild, rchild, lf)` on a state: the header of physical record `i` becomes `UpdatedHeader`'s. */
  function Updated(s: Build, i: nat, distance: real, lchild: nat, rchild: nat, lf: bool): (r: Build)
    requires i < |s.records|
    ensures r.index == s.index && r.blockadeElements == s.blockadeElements && r.draws == s.draws
    ensures PayloadKept(s.records, r.records)
    ensures forall j :: 0 <= j < |s.records| && j != i ==> r.records[j] == s.records[j]
  {
    s.(records := s.records[i := Record(UpdatedHeader(s.records[i].header, distance, lchild, rchild, lf), s.records[i].vec)])
  }

  /** Line 34: a pair's radius is the distance from the first record to the second. */
  function PairRadius(cfg: Config, s: Build, first: nat, last: nat): real
    requires first <= last < |s.index| && Bounded(s)
  {
    cfg.ker(s.records[s.index[first]].vec, s.records[s.index[last]].vec)
  }

  /** Line 130: after a pivot choice, the distance from the pivot to the element at `median`, or 0 without one. */
  function ChoiceRadius(cfg: Config, s: Build, c: Choice, first: nat, last: nat): real
    requires first + 2 <= last < |s.index| && Bounded(s) && Pivoted(cfg, s, c, first, last)
  {
    if c.outcome.Fail? then 0.0
    else cfg.ker(s.records[c.index[first]].vec, s.records[c.index[Median(cfg, first, last).value]].vec)
  }

  /** The radius `recursive_restruct_tree` gives the pivot of `[first, last]`. */
  function PivotRadius(cfg: Config, s: Build, first: nat, last: nat): real
    requires first < last < |s.index| && Bounded(s)
  {
    if last - first <= 1 then PairRadius(cfg, s, first, last)
    else ChoiceRadius(cfg, s, Choose(cfg, s, first, last), first, last)
  }

  /**
   * Lines 130-139 after a usable pivot choice: the pivot's header gets the
   * radius and the children `first + 1` and `(first + last) / 2 + 1`, and
   * on the balanced path with a blockade `(index[root], radius)` is
   * appended to `blockade_elements`.
   */
  function Linking(cfg: Config, s: Build, first: nat, last: nat, root: nat, radius: real): (r: Build)
    requires first < last < |s.index| && root < |s.index| && Bounded(s)
    ensures r.index == s.index && r.draws == s.draws && PayloadKept(s.records, r.records)
    ensures forall j :: 0 <= j < |s.records| && j != s.index[first] ==> r.records[j] == s.records[j]
    ensures |r.blockadeElements| >= |s.blockadeElements| && r.blockadeElements[..|s.blockadeElements|] == s.blockadeElements
  {
    var u := Updated(s, s.index[first], radius, first + 1, (first + last) / 2 + 1, false);
    if DoBalanced(cfg, first, last) && cfg.blockade != -1 then
      u.(blockadeElements := u.blockadeElements + [BlockadeElement(s.index[root], radius)])
    else u
  }

  /**
   * `recursive_restruct_tree(first, last)` on a state: a single record gets
   * the update that writes nothing (lines 30-31), a pair links the first
   * record to the second (lines 33-34), and a longer range chooses its
   * pivot, links it, and builds `[first + 1, mid]` and then `[mid + 1, last]`
   * with `mid = (first + last) / 2` (lines 36-146). A pivot choice without
   * a usable median ends the build with that error, and so does a failing
   * left half.
   */
  ghost function Restruct(cfg: Config, s: Build, first: nat, last: nat): (r: Built)
    requires Bounded(s) && first <= last < |s.index|
    ensures Bounded(r.state) && |r.state.index| == |s.index|
    decreases last - first, 3
  {
    if first >= last then Built(s, Pass)
    else Range(cfg, s, first, last)
  }

  /** A range of two or more records. */
  ghost function Range(cfg: Config, s: Build, first: nat, last: nat): (r: Built)
    requires Bounded(s) && first < last < |s.index|
    ensures Bounded(r.state) && |r.state.index| == |s.index|
    decreases last - first, 2
  {
    if last - first <= 1 then Built(Updated(s, s.index[first], PairRadius(cfg, s, first, last), last, UINT_MAX, false), Pass)
    else Split(cfg, s, first, last)
  }

  /** A range of three or more records: the pivot step, then the halves. */
  ghost function Split(cfg: Config, s: Build, first: nat, last: nat): (r: Built)
    requires Bounded(s) && first + 2 <= last < |s.index|
    ensures Bounded(r.state) && |r.state.index| == |s.index|
    decreases last - first, 1
  {
    var c := Choose(cfg, s, first, last);
    var s1 := s.(index := c.index, draws := c.draws);
    if c.outcome.Fail? then Built(s1, c.outcome)
    else Halves(cfg, Linking(cfg, s1, first, last, c.root, ChoiceRadius(cfg, s, c, first, last)), first, last)
  }

  /** The two halves after the pivot step: `[first + 1, mid]`, and then `[mid + 1, last]` unless the first failed. */
  ghost function Halves(cfg: Config, s: Build, first: nat, last: nat): (r: Built)
    requires Bounded(s) && first + 2 <= last < |s.index|
    ensures Bounded(r.state) && |r.state.index| == |s.index|
    decreases last - first, 0
  {
    var left := Restruct(cfg, s, first + 1, (first + last) / 2);
    if left.outcome.Fail? then left
    else Restruct(cfg, left.state, (first + last) / 2 + 1, last)
  }

  /** The update a one-record range gets (lines 30-31) leaves the state as it was. */
  lemma LeafUpdateIsNoOp(s: Build, first: nat)
    requires Bounded(s) && first < |s.index|
    ensures Updated(s, s.index[first], 0.0, UINT_MAX, UINT_MAX, false) == s
  {
    SingletonUpdateIsNoOp(s.records[s.index[first]].header);
    assert s.records[s.index[first] := s.records[s.index[first]]] == s.records;
  }

  /**
   * Building `[first, last]` keeps the records' ids and vectors, rearranges
   * `index` inside the range only, leaves the records listed outside it
   * untouched, and only appends to `blockade_elements`.
   */
  lemma {:induction false} RestructFrame(cfg: Config, s: Build, first: nat, last: nat)
    requires Valid(cfg.d, s) && first <= last < |s.index|
    ensures var r := Restruct(cfg, s, first, last).state;
      Step(s, r, first, last + 1)
    decreases last - first, 4
  {
    if first >= last {
      DistinctAt(s.index, first);
    } else {
      RangeFrame(cfg, s, first, last);
    }
  }

  lemma {:induction false} RangeFrame(cfg: Config, s: Build, first: nat, last: nat)
    requires Valid(cfg.d, s) && first < last < |s.index|
    ensures var r := Range(cfg, s, first, last).state;
      Step(s, r, first, last + 1)
    decreases last - first, 3
  {
    if last - first <= 1 {
      DistinctAt(s.index, first);
    } else {
      SplitFrame(cfg, s, first, last);
    }
  }

  lemma {:induction false} SplitFrame(cfg: Config, s: Build, first: nat, last: nat)
    requires Valid(cfg.d, s) && first + 2 <= last < |s.index|
    ensures var r := Split(cfg, s, first, last).state;
      Step(s, r, first, last + 1)
    decreases last - first, 2
  {
    var c := Choose(cfg, s, first, last);
    PivotFrame(cfg, s, first, last);
    if c.outcome.Pass? {
      var s2 := Linking(cfg, s.(index := c.index, draws := c.draws), first, last, c.root, ChoiceRadius(cfg, s, c, first, last));
      HalvesFrame(cfg, s2, first, last);
      StepTrans(s, s2, Halves(cfg, s2, first, last).state, first, last + 1, first, last + 1, first + 1, last + 1);
    }
  }

  /** The pivot step on its own is a step of `[first, last]` that keeps the state well formed. */
  lemma PivotFrame(cfg: Config, s: Build, first: nat, last: nat)
    requires Valid(cfg.d, s) && first + 2 <= last < |s.index|
    ensures var c := Choose(cfg, s, first, last); var s1 := s.(index := c.index, draws := c.draws);
      Bounded(s1) && Step(s, s1, first, last + 1) &&
      (c.outcome.Pass? ==>
        var s2 := Linking(cfg, s1, first, last, c.root, ChoiceRadius(cfg, s, c, first, last));
        Valid(cfg.d, s2) && Step(s, s2, first, last + 1))
  {
    var c := Choose(cfg, s, first, last);
    MovedValid(cfg.d, s, c.index, first, last);
    var s1 := s.(index := c.index, draws := c.draws);
    assert Step(s, s1, first, last + 1);
    if c.outcome.Pass? {
      var s2 := Linking(cfg, s1, first, last, c.root, ChoiceRadius(cfg, s, c, first, last));
      LinkingFrame(cfg, s1, first, last, c.root, ChoiceRadius(cfg, s, c, first, last));
      StepTrans(s, s1, s2, first, last + 1, first, last + 1, first, last + 1);
    }
  }

  /** Linking the pivot changes the header of the record listed at `first` only. */
  lemma LinkingFrame(cfg: Config, s: Build, first: nat, last: nat, root: nat, radius: real)
    requires Valid(cfg.d, s) && first < last < |s.index| && root < |s.index|
    ensures var r := Linking(cfg, s, first, last, root, radius);
      Valid(cfg.d, r) && Step(s, r, first, last + 1)
  {
    var r := Linking(cfg, s, first, last, root, radius);
    KeptValid(cfg.d, s, r);
    DistinctAt(s.index, first);
  }

  lemma {:induction false} HalvesFrame(cfg: Config, s: Build, first: nat, last: nat)
    requires Valid(cfg.d, s) && first + 2 <= last < |s.index|
    ensures var r := Halves(cfg, s, first, last).state;
      Step(s, r, first + 1, last + 1)
    decreases last - first, 1
  {
    RestructFrame(cfg, s, first + 1, (first + last) / 2);
    var l := Restruct(cfg, s, first + 1, (first + last) / 2);
    if l.outcome.Pass? {
      StepValid(cfg.d, s, l.state, first + 1, (first + last) / 2 + 1);
      RightFrame(cfg, s, l.state, first, last);
    }
  }

  /** The right half built after a left half `l`: both together are a step of `[first + 1, last]`. */
  lemma {:induction false} RightFrame(cfg: Config, s: Build, l: Build, first: nat, last: nat)
    requires Valid(cfg.d, s) && first + 2 <= last < |s.index| && Valid(cfg.d, l) && |l.index| == |s.index|
    requires Step(s, l, first + 1, (first + last) / 2 + 1)
    ensures var r := Restruct(cfg, l, (first + last) / 2 + 1, last).state;
      Step(s, r, first + 1, last + 1)
    decreases last - first, 0
  {
    var mid := (first + last) / 2;
    RestructFrame(cfg, l, mid + 1, last);
    StepTrans(s, l, Restruct(cfg, l, mid + 1, last).state, first + 1, last + 1, first + 1, mid + 1, mid + 1, last + 1);
  }

  lemma BuildableSplit(cfg: Config, first: nat, last: nat)
    requires first + 2 <= last
    ensures Buildable(cfg, first, last) <==>
      Median(cfg, first, last).Some? && first + 1 <= Median(cfg, first, last).value &&
      Buildable(cfg, first + 1, (first + last) / 2) && Buildable(cfg, (first + last) / 2 + 1, last)
  {
  }

  /** A build succeeds exactly when every pivot step of the range gets a usable median. */
  lemma {:induction false} RestructOutcome(cfg: Config, s: Build, first: nat, last: nat)
    requires Bounded(s) && first <= last < |s.index|
    ensures Restruct(cfg, s, first, last).outcome.Pass? <==> Buildable(cfg, first, last)
    decreases last - first, 3
  {
    if first < last {
      RangeOutcome(cfg, s, first, last);
    }
  }

  lemma {:induction false} RangeOutcome(cfg: Config, s: Build, first: nat, last: nat)
    requires Bounded(s) && first < last < |s.index|
    ensures Range(cfg, s, first, last).outcome.Pass? <==> Buildable(cfg, first, last)
    decreases last - first, 2
  {
    if last - first >= 2 {
      SplitOutcome(cfg, s, first, last);
    }
  }

  lemma {:induction false} SplitOutcome(cfg: Config, s: Build, first: nat, last: nat)
    requires Bounded(s) && first + 2 <= last < |s.index|
    ensures Split(cfg, s, first, last).outcome.Pass? <==> Buildable(cfg, first, last)
    decreases last - first, 1
  {
    var c := Choose(cfg, s, first, last);
    BuildableSplit(cfg, first, last);
    if c.outcome.Pass? {
      var s1 := s.(index := c.index, draws := c.draws);
      var s2 := Linking(cfg, s1, first, last, c.root, ChoiceRadius(cfg, s, c, first, last));
      HalvesOutcome(cfg, s2, first, last);
    }
  }

  lemma {:induction false} HalvesOutcome(cfg: Config, s: Build, first: nat, last: nat)
    requires Bounded(s) && first + 2 <= last < |s.index|
    ensures Halves(cfg, s, first, last).outcome.Pass? <==>
      Buildable(cfg, first + 1, (first + last) / 2) && Buildable(cfg, (first + last) / 2 + 1, last)
    decreases last - first, 0
  {
    var mid := (first + last) / 2;
    RestructOutcome(cfg, s, first + 1, mid);
    var l := Restruct(cfg, s, first + 1, mid);
    if l.outcome.Pass? {
      RestructOutcome(cfg, l.state, mid + 1, last);
    }
  }

  /**
   * After a successful build of two or more records, the record listed at
   * `first` is the pivot: its header has the pivot's radius and the links
   * `LeftLink` and `RightLink`, and its id and vector are as before.
   */
  lemma RestructPivot(cfg: Config, s: Build, first: nat, last: nat)
    requires Valid(cfg.d, s) && first < last < |s.index|
    ensures var r := Restruct(cfg, s, first, last); var p := r.state.index[first];
      r.outcome.Pass? ==>
        p < |s.records| &&
        r.state.records[p] ==
          Record(UpdatedHeader(s.records[p].header, PivotRadius(cfg, s, first, last), LeftLink(first, last), RightLink(first, last), false),
                 s.records[p].vec)
  {
    RangePivot(cfg, s, first, last);
  }

  lemma RangePivot(cfg: Config, s: Build, first: nat, last: nat)
    requires Valid(cfg.d, s) && first < last < |s.index|
    ensures var r := Range(cfg, s, first, last); var p := r.state.index[first];
      r.outcome.Pass? ==>
        p < |s.records| &&
        r.state.records[p] ==
          Record(UpdatedHeader(s.records[p].header, PivotRadius(cfg, s, first, last), LeftLink(first, last), RightLink(first, last), false),
                 s.records[p].vec)
  {
    if last - first >= 2 {
      SplitPivot(cfg, s, first, last);
    }
  }

  /** After a successful pivot step and halves, the record listed at `first` is the chosen pivot, linked. */
  lemma SplitPivot(cfg: Config, s: Build, first: nat, last: nat)
    requires Valid(cfg.d, s) && first + 2 <= last < |s.index|
    ensures var r := Split(cfg, s, first, last); var c := Choose(cfg, s, first, last); var p := c.index[first];
      r.outcome.Pass? ==>
        c.outcome.Pass? && r.state.index[first] == p && p < |s.records| &&
        r.state.records[p] ==
          Record(UpdatedHeader(s.records[p].header, ChoiceRadius(cfg, s, c, first, last), first + 1, (first + last) / 2 + 1, false),
                 s.records[p].vec)
  {
    var c := Choose(cfg, s, first, last);
    PivotFrame(cfg, s, first, last);
    if c.outcome.Pass? {
      var s2 := Linking(cfg, s.(index := c.index, draws := c.draws), first, last, c.root, ChoiceRadius(cfg, s, c, first, last));
      HalvesFrame(cfg, s2, first, last);
    }
  }

  /**
   * A range whose records have no links yet comes out laid out when the
   * build succeeds: every link stays inside the range and points forward.
   */
  lemma {:induction false} RestructLaid(cfg: Config, s: Build, first: nat, last: nat)
    requires Valid(cfg.d, s) && first <= last < |s.index| && last < UINT_MAX
    requires UnlinkedIn(s.records, s.index, first, last + 1)
    ensures var r := Restruct(cfg, s, first, last);
      r.outcome.Pass? ==> Laid(r.state.records, r.state.index, first, last)
    decreases last - first, 4
  {
    if first < last {
      RangeLaid(cfg, s, first, last);
    }
  }

  lemma {:induction false} RangeLaid(cfg: Config, s: Build, first: nat, last: nat)
    requires Valid(cfg.d, s) && first < last < |s.index| && last < UINT_MAX
    requires UnlinkedIn(s.records, s.index, first, last + 1)
    ensures var r := Range(cfg, s, first, last);
      r.outcome.Pass? ==> Laid(r.state.records, r.state.index, first, last)
    decreases last - first, 3
  {
    if last - first <= 1 {
      DistinctAt(s.index, first);
      PivotUpdate(s.records[s.index[first]].header, PairRadius(cfg, s, first, last), last, UINT_MAX);
      assert NoChildren(s.records[s.index[last]].header);
    } else {
      SplitLaid(cfg, s, first, last);
    }
  }

  lemma {:induction false} SplitLaid(cfg: Config, s: Build, first: nat, last: nat)
    requires Valid(cfg.d, s) && first + 2 <= last < |s.index| && last < UINT_MAX
    requires UnlinkedIn(s.records, s.index, first, last + 1)
    ensures var r := Split(cfg, s, first, last);
      r.outcome.Pass? ==> Laid(r.state.records, r.state.index, first, last)
    decreases last - first, 2
  {
    var c := Choose(cfg, s, first, last);
    if c.outcome.Pass? {
      var s2 := Linking(cfg, s.(index := c.index, draws := c.draws), first, last, c.root, ChoiceRadius(cfg, s, c, first, last));
      LinkedUnlinked(cfg, s, first, last);
      HalvesLaid(cfg, s2, first, last);
      PivotLaid(cfg, s, first, last);
    }
  }

  /** Once the pivot is linked, the records after it in `[first, last]` still have no links. */
  lemma LinkedUnlinked(cfg: Config, s: Build, first: nat, last: nat)
    requires Valid(cfg.d, s) && first + 2 <= last < |s.index|
    requires UnlinkedIn(s.records, s.index, first, last + 1) && Choose(cfg, s, first, last).outcome.Pass?
    ensures var c := Choose(cfg, s, first, last);
      var s2 := Linking(cfg, s.(index := c.index, draws := c.draws), first, last, c.root, ChoiceRadius(cfg, s, c, first, last));
      Valid(cfg.d, s2) && UnlinkedIn(s2.records, s2.index, first + 1, last + 1)
  {
    var c := Choose(cfg, s, first, last);
    PivotFrame(cfg, s, first, last);
    UnlinkedRearranged(s.records, s.index, c.index, first, last + 1);
    LinkingUnlinked(cfg, s.(index := c.index, draws := c.draws), first, last, c.root, ChoiceRadius(cfg, s, c, first, last));
  }

  /** Linking the record listed at `first` leaves the records listed after it unlinked. */
  lemma LinkingUnlinked(cfg: Config, s: Build, first: nat, last: nat, root: nat, radius: real)
    requires Valid(cfg.d, s) && first < last < |s.index| && root < |s.index|
    requires UnlinkedIn(s.records, s.index, first, last + 1)
    ensures var r := Linking(cfg, s, first, last, root, radius);
      UnlinkedIn(r.records, r.index, first + 1, last + 1)
  {
    DistinctAt(s.index, first);
  }

  /** A split whose halves come out laid out is laid out, the pivot linking forward into its halves. */
  lemma PivotLaid(cfg: Config, s: Build, first: nat, last: nat)
    requires Valid(cfg.d, s) && first + 2 <= last < |s.index| && last < UINT_MAX
    ensures var r := Split(cfg, s, first, last);
      r.outcome.Pass? && Laid(r.state.records, r.state.index, first + 1, last) ==> Laid(r.state.records, r.state.index, first, last)
  {
    var r := Split(cfg, s, first, last);
    var c := Choose(cfg, s, first, last);
    SplitPivot(cfg, s, first, last);
    if r.outcome.Pass? {
      PivotUpdate(s.records[c.index[first]].header, ChoiceRadius(cfg, s, c, first, last), first + 1, (first + last) / 2 + 1);
      if Laid(r.state.records, r.state.index, first + 1, last) {
        LaidCons(r.state.records, r.state.index, first, last);
      }
    }
  }

  lemma {:induction false} HalvesLaid(cfg: Config, s: Build, first: nat, last: nat)
    requires Valid(cfg.d, s) && first + 2 <= last < |s.index| && last < UINT_MAX
    requires UnlinkedIn(s.records, s.index, first + 1, last + 1)
    ensures var r := Halves(cfg, s, first, last);
      r.outcome.Pass? ==> Laid(r.state.records, r.state.index, first + 1, last)
    decreases last - first, 1
  {
    var mid := (first + last) / 2;
    RestructLaid(cfg, s, first + 1, mid);
    RestructFrame(cfg, s, first + 1, mid);
    var l := Restruct(cfg, s, first + 1, mid);
    if l.outcome.Pass? {
      StepValid(cfg.d, s, l.state, first + 1, mid + 1);
      assert UnlinkedIn(l.state.records, l.state.index, mid + 1, last + 1);
      RightLaid(cfg, l.state, first, last);
    }
  }

  /** The right half built after a laid-out left half: together they are laid out. */
  lemma {:induction false} RightLaid(cfg: Config, l: Build, first: nat, last: nat)
    requires Valid(cfg.d, l) && first + 2 <= last < |l.index| && last < UINT_MAX
    requires Laid(l.records, l.index, first + 1, (first + last) / 2)
    requires UnlinkedIn(l.records, l.index, (first + last) / 2 + 1, last + 1)
    ensures var r := Restruct(cfg, l, (first + last) / 2 + 1, last);
      r.outcome.Pass? ==> Laid(r.state.records, r.state.index, first + 1, last)
    decreases last - first, 0
  {
    var mid := (first + last) / 2;
    RestructLaid(cfg, l, mid + 1, last);
    RestructFrame(cfg, l, mid + 1, last);
    var r := Restruct(cfg, l, mid + 1, last);
    if r.outcome.Pass? {
      LaidHalves(l.records, l.index, r.state.records, r.state.index, first + 1, mid, last);
    }
  }

  /**
   * When the median is the middle of the range (the halfway-blockade path,
   * and the random path when no blockade fits), the pivot's radius
   * separates the halves: every record of `[first + 1, mid]` lies within
   * it, and every record of `[mid + 1, last]` at that distance or more,
   * except possibly the one listed at `last` beforehand, which the pivot
   * step's sort and partition leave out.
   */
  lemma RestructBall(cfg: Config, s: Build, first: nat, last: nat)
    requires Valid(cfg.d, s) && first + 2 <= last < |s.index|
    ensures var r := Restruct(cfg, s, first, last); var mid := (first + last) / 2;
      r.outcome.Pass? && Median(cfg, first, last) == Some(mid) ==>
        r.state.index[first] < |s.records| &&
        Inside(cfg.ker, s.records, r.state.index, first + 1, mid + 1,
               s.records[r.state.index[first]].vec, PivotRadius(cfg, s, first, last)) &&
        OutsideExcept(cfg.ker, s.records, r.state.index, mid + 1, last + 1,
                      s.records[r.state.index[first]].vec, PivotRadius(cfg, s, first, last), s.index[last])
  {
    SplitBall(cfg, s, first, last);
  }

  lemma SplitBall(cfg: Config, s: Build, first: nat, last: nat)
    requires Valid(cfg.d, s) && first + 2 <= last < |s.index|
    ensures var r := Split(cfg, s, first, last); var mid := (first + last) / 2;
      var c := Choose(cfg, s, first, last);
      r.outcome.Pass? && Median(cfg, first, last) == Some(mid) ==>
        r.state.index[first] < |s.records| &&
        Inside(cfg.ker, s.records, r.state.index, first + 1, mid + 1,
               s.records[r.state.index[first]].vec, ChoiceRadius(cfg, s, c, first, last)) &&
        OutsideExcept(cfg.ker, s.records, r.state.index, mid + 1, last + 1,
                      s.records[r.state.index[first]].vec, ChoiceRadius(cfg, s, c, first, last), s.index[last])
  {
    var mid := (first + last) / 2;
    var c := Choose(cfg, s, first, last);
    PivotFrame(cfg, s, first, last);
    if c.outcome.Pass? && Median(cfg, first, last) == Some(mid) {
      PivotedBall(cfg, s, c, first, last);
      SplitPivot(cfg, s, first, last);
      var s2 := Linking(cfg, s.(index := c.index, draws := c.draws), first, last, c.root, ChoiceRadius(cfg, s, c, first, last));
      HalvesBall(cfg, s2, first, last, s.records, s.records[c.index[first]].vec, ChoiceRadius(cfg, s, c, first, last));
    }
  }

  /** After a usable pivot choice around the middle, the pivot's radius separates the two halves of the rest. */
  lemma PivotedBall(cfg: Config, s: Build, c: Choice, first: nat, last: nat)
    requires Bounded(s) && first + 2 <= last < |s.index| && Pivoted(cfg, s, c, first, last)
    ensures var mid := (first + last) / 2;
      c.outcome.Pass? && Median(cfg, first, last) == Some(mid) ==>
        c.index[first] < |s.records| && c.index[last] == s.index[last] &&
        Inside(cfg.ker, s.records, c.index, first + 1, mid + 1, s.records[c.index[first]].vec, ChoiceRadius(cfg, s, c, first, last)) &&
        Outside(cfg.ker, s.records, c.index, mid + 1, last, s.records[c.index[first]].vec, ChoiceRadius(cfg, s, c, first, last))
  {
    if c.outcome.Pass? && Median(cfg, first, last) == Some((first + last) / 2) {
      PartitionBall(cfg.ker, s.records, c.index, first, last, (first + last) / 2);
    }
  }

  /** Building the halves keeps the records of each half inside, and outside, a ball around the pivot. */
  lemma HalvesBall(cfg: Config, s: Build, first: nat, last: nat, recs: seq<Record>, pv: seq<real>, rad: real)
    requires Valid(cfg.d, s) && first + 2 <= last < |s.index|
    ensures var h := Halves(cfg, s, first, last); var mid := (first + last) / 2;
      h.outcome.Pass? ==>
        (Inside(cfg.ker, recs, s.index, first + 1, mid + 1, pv, rad) ==> Inside(cfg.ker, recs, h.state.index, first + 1, mid + 1, pv, rad)) &&
        (Outside(cfg.ker, recs, s.index, mid + 1, last, pv, rad) ==>
           OutsideExcept(cfg.ker, recs, h.state.index, mid + 1, last + 1, pv, rad, s.index[last]))
  {
    var mid := (first + last) / 2;
    RestructFrame(cfg, s, first + 1, mid);
    var l := Restruct(cfg, s, first + 1, mid);
    if l.outcome.Pass? {
      StepValid(cfg.d, s, l.state, first + 1, mid + 1);
      RightBall(cfg, s.index, l.state, first, last, recs, pv, rad);
    }
  }

  /** The same for the right half, built after a left half that rearranged `i1` into `l.index`. */
  lemma RightBall(cfg: Config, i1: seq<nat>, l: Build, first: nat, last: nat, recs: seq<Record>, pv: seq<real>, rad: real)
    requires Valid(cfg.d, l) && first + 2 <= last < |l.index| && Moved(i1, l.index, first + 1, (first + last) / 2 + 1)
    ensures var r := Restruct(cfg, l, (first + last) / 2 + 1, last); var mid := (first + last) / 2;
      (Inside(cfg.ker, recs, i1, first + 1, mid + 1, pv, rad) ==> Inside(cfg.ker, recs, r.state.index, first + 1, mid + 1, pv, rad)) &&
      (Outside(cfg.ker, recs, i1, mid + 1, last, pv, rad) ==>
         OutsideExcept(cfg.ker, recs, r.state.index, mid + 1, last + 1, pv, rad, i1[last]))
  {
    var mid := (first + last) / 2;
    RestructFrame(cfg, l, mid + 1, last);
    BallHalves(cfg.ker, recs, pv, rad, i1, l.index, Restruct(cfg, l, mid + 1, last).state.index, first, mid, last);
  }

  /** The log as appended holds record `i` at logical position `i`: a state the build works on. */
  lemma IotaValid(d: nat, recs: seq<Record>, b: seq<BlockadeElement>, draws: nat)
    requires ShapedAs(recs, d)
    ensures Valid(d, Build(recs, Iota(|recs|), b, draws))
  {
    DistinctPairwise(Iota(|recs|));
  }

  /** Copying a laid-out order out record by record gives a tree file. */
  lemma LaidTreeFile(recs: seq<Record>, ix: seq<nat>)
    requires 0 < |ix| && forall i :: 0 <= i < |ix| ==> ix[i] < |recs|
    requires Laid(recs, ix, 0, |ix| - 1)
    ensures TreeFile(Logical(recs, ix, |ix|))
  {
  }
}

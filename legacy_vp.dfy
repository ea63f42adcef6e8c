/**
 * The first VP-tree store (include/DiskVP.h, src/DiskVP.cpp): the same
 * record log and header layout as `VPTree`, but a builder that always
 * draws the pivot at random, partitions with `nth_element` around
 * `(first + last) / 2`, writes the radius unconditionally, never fails,
 * and marks leaves; and a recursive k-nearest search that keeps its heap,
 * `k` and `tau` as members of the store itself.
 *
 * The mapped file is `records` with `dimensionWord`, as in `VPTree`;
 * `mapped` says whether `file` is set. `idxFile` is the mapped `_idx` file.
 */
module LegacyVP {
  import opened Machine
  import opened Wrappers
  import opened VPLayout
  import opened Selection
  import opened SearchHeap
  import opened FloatCompare
  import opened VPBuild
  import opened VPSearch
  import opened VPTree

  /** Ball facts read only vectors, so they carry over to records with the same vectors. */
  lemma BallPayload(ker: Kernel, a: seq<Record>, b: seq<Record>, ix: seq<nat>, lo: nat, hi: nat, pv: seq<real>, r: real, e: nat)
    requires lo <= hi <= |ix| && PayloadKept(a, b)
    ensures Inside(ker, a, ix, lo, hi, pv, r) ==> Inside(ker, b, ix, lo, hi, pv, r)
    ensures Outside(ker, a, ix, lo, hi, pv, r) ==> Outside(ker, b, ix, lo, hi, pv, r)
    ensures OutsideExcept(ker, a, ix, lo, hi, pv, r, e) ==> OutsideExcept(ker, b, ix, lo, hi, pv, r, e)
  {
  }

  /** Swapping `root` to `first` and then rearranging `[first + 1, last)` rearranges `[first, last)` only. */
  lemma SwapSpliceMoved(ix: seq<nat>, first: nat, last: nat, root: nat, part: seq<nat>)
    requires first + 2 <= last < |ix| && first <= root < last
    requires |part| == last - first - 1 && multiset(part) == multiset(Swap(ix, first, root)[first + 1..last])
    ensures var r := Splice(Swap(ix, first, root), first + 1, last, part);
      Moved(ix, r, first, last) && r[first] == ix[root] && r[last] == ix[last] && r[first + 1..last] == part
  {
    var swapped := Swap(ix, first, root);
    var r := Splice(swapped, first + 1, last, part);
    assert r[..first + 1][first] == swapped[..first + 1][first];
    assert r[last..][0] == swapped[last..][0];
    StretchMoved(swapped, r, first + 1, last);
    assert Moved(ix, swapped, first, last);
  }

  /** The ball facts of an `nth_element` result written back after the swapped pivot. */
  lemma SplicedBall(ker: Kernel, recs: seq<Record>, sw: seq<nat>, first: nat, last: nat, part: seq<nat>)
    requires first + 2 <= last < |sw| && |part| == last - first - 1
    requires var ix := Splice(sw, first + 1, last, part); forall i :: 0 <= i < |ix| ==> ix[i] < |recs|
    requires PartitionedAt(part, (first + last) / 2 - first - 1, KeyFrom(ker, recs, recs[sw[first]].vec))
    ensures var ix := Splice(sw, first + 1, last, part);
      var pv := recs[ix[first]].vec; var mid := (first + last) / 2;
      Inside(ker, recs, ix, first + 1, mid + 1, pv, ker(pv, recs[ix[mid]].vec)) &&
      Outside(ker, recs, ix, mid + 1, last, pv, ker(pv, recs[ix[mid]].vec))
  {
    var ix := Splice(sw, first + 1, last, part);
    assert ix[..first + 1][first] == sw[..first + 1][first];
    PartitionBall(ker, recs, ix, first, last, (first + last) / 2);
  }

  /**
   * Lines 41-66 of src/DiskVP.cpp on the index alone: the record listed at
   * `root` is swapped to `first`, and `nth_element` partitions
   * `[first + 1, last)` around `(first + last) / 2` by distance to it. The
   * result is a valid state again, rearranged inside `[first, last)` only,
   * with the drawn record at `first`, the entry at `last` untouched, and
   * the ball split around the median.
   */
  method PartitionIndex(d: nat, ker: Kernel, s: Build, first: nat, last: nat, root: nat) returns (ix: seq<nat>)
    requires Valid(d, s) && first + 2 <= last < |s.index| && first <= root < last
    ensures Valid(d, s.(index := ix)) && Moved(s.index, ix, first, last)
    ensures ix[first] == s.index[root] && ix[last] == s.index[last]
    ensures var pv := s.records[ix[first]].vec; var mid := (first + last) / 2;
      Inside(ker, s.records, ix, first + 1, mid + 1, pv, ker(pv, s.records[ix[mid]].vec)) &&
      Outside(ker, s.records, ix, mid + 1, last, pv, ker(pv, s.records[ix[mid]].vec))
  {
    var swapped := Swap(s.index, first, root);
    var median := (first + last) / 2;
    var pv := s.records[swapped[first]].vec;
    var part := NthElement(swapped[first + 1..last], median - first - 1, KeyFrom(ker, s.records, pv));
    assert PartitionedAt(part, (first + last) / 2 - first - 1, KeyFrom(ker, s.records, s.records[swapped[first]].vec));
    ix := Splice(swapped, first + 1, last, part);
    SwapSpliceMoved(s.index, first, last, root, part);
    MovedValid(d, s, ix, first, last);
    SplicedBall(ker, s.records, swapped, first, last, part);
  }

  /** Validity does not depend on the number of draws taken. */
  lemma DrawKeepsValid(d: nat, s: Build, n: nat)
    requires Valid(d, s)
    ensures Valid(d, s.(draws := n))
  {
    assert s.(draws := n).index == s.index;
  }

  /**
   * Writing the pivot's header after the partition: the state stays valid,
   * the two together rearrange `[first, last)` only, the ball facts carry
   * over, and when the range held only unlinked records (`laid`), the
   * records after the pivot still do.
   */
  lemma PivotLinked(d: nat, ker: Kernel, s0: Build, s1: Build, s2: Build, first: nat, last: nat, h: NodeHeader, pv: seq<real>, r: real, laid: bool)
    requires Valid(d, s0) && Valid(d, s1) && first + 2 <= last < |s1.index|
    requires s1.records == s0.records && s1.blockadeElements == s0.blockadeElements && Moved(s0.index, s1.index, first, last)
    requires h.id == s1.records[s1.index[first]].header.id
    requires s2 == s1.(records := s1.records[s1.index[first] := Record(h, s1.records[s1.index[first]].vec)])
    requires var mid := (first + last) / 2;
      Inside(ker, s1.records, s1.index, first + 1, mid + 1, pv, r) && Outside(ker, s1.records, s1.index, mid + 1, last, pv, r)
    requires laid ==> UnlinkedIn(s0.records, s0.index, first, last + 1)
    ensures var mid := (first + last) / 2;
      Valid(d, s2) && Step(s0, s2, first, last) &&
      Inside(ker, s2.records, s2.index, first + 1, mid + 1, pv, r) && Outside(ker, s2.records, s2.index, mid + 1, last, pv, r) &&
      (laid ==> UnlinkedIn(s2.records, s2.index, first + 1, last + 1))
  {
    DistinctAt(s1.index, first);
    KeptValid(d, s1, s2);
    BallPayload(ker, s1.records, s2.records, s1.index, first + 1, (first + last) / 2 + 1, pv, r, 0);
    BallPayload(ker, s1.records, s2.records, s1.index, (first + last) / 2 + 1, last, pv, r, 0);
    if laid {
      UnlinkedRearranged(s0.records, s0.index, s1.index, first, last + 1);
    }
  }

  /** A stretch inside a stretch of unlinked records is unlinked. */
  lemma UnlinkedWithin(recs: seq<Record>, ix: seq<nat>, lo: nat, hi: nat, lo2: nat, hi2: nat)
    requires lo <= lo2 <= hi2 <= hi <= |ix| && UnlinkedIn(recs, ix, lo, hi)
    ensures UnlinkedIn(recs, ix, lo2, hi2)
  {
  }

  /** A build of `[lo, mid)` leaves the unlinked records listed at `mid .. hi - 1` as they were. */
  lemma UnlinkedAfter(s1: Build, s2: Build, lo: nat, mid: nat, hi: nat)
    requires Bounded(s1) && Bounded(s2) && lo <= mid <= hi <= |s1.index| && Step(s1, s2, lo, mid)
    requires UnlinkedIn(s1.records, s1.index, lo, hi)
    ensures UnlinkedIn(s2.records, s2.index, mid, hi)
  {
  }

  /**
   * A pivot step on `[first, last]` (from `s0` to `s1`) followed by the
   * builds of `[first + 1, mid]` and `[mid + 1, last]` (to `s2`, then
   * `s3`): together a build of `[first, last]`, the pivot's ball holding
   * the left half and every right-half record but the one listed at `last`
   * before lying on or outside it, and a range of unlinked records laid out.
   */
  lemma SplitFacts(d: nat, ker: Kernel, s0: Build, s1: Build, s2: Build, s3: Build, first: nat, last: nat, laid: bool)
    requires Valid(d, s0) && Valid(d, s1) && Valid(d, s2) && Valid(d, s3) && first + 2 <= last < |s0.index|
    requires var rc := (first + last) / 2 + 1;
      Step(s0, s1, first, last) && Step(s1, s2, first + 1, rc) && Step(s2, s3, rc, last + 1)
    requires s1.index[last] == s0.index[last]
    requires var p := s1.index[first]; var h := s1.records[p].header; var rc := (first + last) / 2 + 1;
      Inside(ker, s1.records, s1.index, first + 1, rc, s1.records[p].vec, h.radius) &&
      Outside(ker, s1.records, s1.index, rc, last, s1.records[p].vec, h.radius) &&
      h == StoreChildren(s0.records[p].header.(radius := h.radius), first + 1, rc)
    requires laid ==> last < UINT_MAX && Laid(s2.records, s2.index, first + 1, (first + last) / 2)
    requires laid ==> Laid(s3.records, s3.index, (first + last) / 2 + 1, last)
    ensures Step(s0, s3, first, last + 1)
    ensures var p := s3.index[first]; var mid := (first + last) / 2; var r := s3.records[p].header.radius;
      Inside(ker, s3.records, s3.index, first + 1, mid + 1, s3.records[p].vec, r) &&
      OutsideExcept(ker, s3.records, s3.index, mid + 1, last + 1, s3.records[p].vec, r, s0.index[last])
    ensures laid ==> Laid(s3.records, s3.index, first, last)
  {
    var rc := (first + last) / 2 + 1;
    StepTrans(s0, s1, s2, first, last + 1, first, last, first + 1, rc);
    StepTrans(s0, s2, s3, first, last + 1, first, last + 1, rc, last + 1);
    StepTrans(s1, s2, s3, first + 1, last + 1, first + 1, rc, rc, last + 1);
    SplitBall(ker, s1, s2, s3, first, last);
    if laid {
      SplitLaid(s0, s1, s2, s3, first, last);
    }
  }

  /** The ball facts of the pivot step survive the builds of both halves. */
  lemma SplitBall(ker: Kernel, s1: Build, s2: Build, s3: Build, first: nat, last: nat)
    requires Bounded(s1) && Bounded(s2) && Bounded(s3) && first + 2 <= last < |s1.index|
    requires var rc := (first + last) / 2 + 1;
      Step(s1, s2, first + 1, rc) && Step(s2, s3, rc, last + 1) && Step(s1, s3, first + 1, last + 1)
    requires var p := s1.index[first]; var h := s1.records[p].header; var rc := (first + last) / 2 + 1;
      Inside(ker, s1.records, s1.index, first + 1, rc, s1.records[p].vec, h.radius) &&
      Outside(ker, s1.records, s1.index, rc, last, s1.records[p].vec, h.radius)
    ensures var p := s3.index[first]; var mid := (first + last) / 2; var r := s3.records[p].header.radius;
      Inside(ker, s3.records, s3.index, first + 1, mid + 1, s3.records[p].vec, r) &&
      OutsideExcept(ker, s3.records, s3.index, mid + 1, last + 1, s3.records[p].vec, r, s1.index[last])
  {
    var rc := (first + last) / 2 + 1;
    var p := s1.index[first];
    var pv := s1.records[p].vec;
    var r := s1.records[p].header.radius;
    assert s3.index[first] == p && s3.records[p] == s1.records[p];
    BallHalves(ker, s1.records, pv, r, s1.index, s2.index, s3.index, first, rc - 1, last);
    BallPayload(ker, s1.records, s3.records, s3.index, first + 1, rc, pv, r, s1.index[last]);
    BallPayload(ker, s1.records, s3.records, s3.index, rc, last + 1, pv, r, s1.index[last]);
  }

  /** A range of unlinked records whose halves were laid out, after a pivot linked to both, is laid out. */
  lemma SplitLaid(s0: Build, s1: Build, s2: Build, s3: Build, first: nat, last: nat)
    requires Bounded(s0) && Bounded(s1) && Bounded(s2) && Bounded(s3) && first + 2 <= last < |s0.index| && last < UINT_MAX
    requires var rc := (first + last) / 2 + 1;
      |s1.index| == |s0.index| && Step(s1, s2, first + 1, rc) && Step(s2, s3, rc, last + 1) && Step(s1, s3, first + 1, last + 1)
    requires var p := s1.index[first]; var h := s1.records[p].header;
      p < |s0.records| && h == StoreChildren(s0.records[p].header.(radius := h.radius), first + 1, (first + last) / 2 + 1)
    requires Laid(s2.records, s2.index, first + 1, (first + last) / 2)
    requires Laid(s3.records, s3.index, (first + last) / 2 + 1, last)
    ensures Laid(s3.records, s3.index, first, last)
  {
    var rc := (first + last) / 2 + 1;
    var p := s1.index[first];
    assert s3.index[first] == p && s3.records[p] == s1.records[p];
    LaidHalves(s2.records, s2.index, s3.records, s3.index, first + 1, (first + last) / 2, last);
    StoreSmallChildren(s0.records[p].header.(radius := s1.records[p].header.radius), first + 1, rc);
    LaidCons(s3.records, s3.index, first, last);
  }

  /**
   * A log of fresh records, whose ids are their positions, built into a
   * laid-out order: copied out in that order it is a tree file, and the id
   * listed at each logical position is the index entry itself.
   */
  lemma FreshBuilt(recs0: seq<Record>, recs: seq<Record>, ix: seq<nat>)
    requires FreshLog(recs0) && PayloadKept(recs0, recs) && 0 < |ix|
    requires forall j :: 0 <= j < |ix| ==> ix[j] < |recs|
    requires Laid(recs, ix, 0, |ix| - 1)
    ensures TreeFile(Logical(recs, ix, |ix|)) && Ids(recs, ix) == ix
  {
    LaidTreeFile(recs, ix);
    forall j | 0 <= j < |ix| ensures Ids(recs, ix)[j] == ix[j] {
      assert recs[ix[j]].header.id == recs0[ix[j]].header.id;
    }
  }

  class DiskVP {
    const d: nat
    const ker: Kernel
    /** The `mt19937` stream: the `n`-th draw. */
    const rng: nat -> nat
    /** Number of draws taken from `rng`. */
    var draws: nat
    var idx: nat
    var index: seq<nat>
    var startToWrite: bool
    var mapped: bool
    var dimensionWord: nat
    var records: seq<Record>
    var idxFile: seq<nat>
    /** The search state: `heap_`, `k` and `tau`. */
    var heap: seq<HeapItem>
    var k: nat
    var tau: real

    /** What the builder reads and writes (this builder records no blockade elements). */
    function State(): Build
      reads this
    {
      Build(records, index, [], draws)
    }

    /** Writing a file: nothing mapped, one `index` entry per record, and the file holds what was appended. */
    predicate Writing()
      reads this
    {
      !mapped && |index| == idx && ShapedAs(records, d) &&
      (startToWrite ==> |records| == idx && dimensionWord == d) &&
      (!startToWrite ==> idx == 0 && records == [])
    }

    /** Writing the log: besides, `index` is `0 .. idx-1`. */
    predicate Appending()
      reads this
    {
      Writing() && index == Iota(idx)
    }

    /** The file is mapped and consistent with the store's dimension and count. */
    predicate Mapped()
      reads this
    {
      mapped && startToWrite && dimensionWord == d && idx == |records| && ShapedAs(records, d)
    }

    /** Mapped, and `index` lists every record exactly once: a state the builder works on. */
    ghost predicate Indexed()
      reads this
    {
      mapped && startToWrite && dimensionWord == d && idx == |records| && Valid(d, State())
    }

    /** The file's bookkeeping and the search state are left alone. */
    twostate predicate FileKept()
      reads this
    {
      old(idx) == idx && old(idxFile) == idxFile && old(dimensionWord) == dimensionWord &&
      old(mapped) == mapped && old(startToWrite) == startToWrite &&
      old(heap) == heap && old(k) == k && old(tau) == tau
    }

    constructor (d: nat, ker: Kernel, rng: nat -> nat)
      ensures this.d == d && this.ker == ker && this.rng == rng
      ensures Appending() && !startToWrite && idx == 0 && records == [] && draws == 0
      ensures heap == [] && k == 0
    {
      this.d := d;
      this.ker := ker;
      this.rng := rng;
      draws := 0;
      idx := 0;
      index := [];
      startToWrite := false;
      mapped := false;
      dimensionWord := 0;
      records := [];
      idxFile := [];
      heap := [];
      k := 0;
      tau := 0.0;
    }

    /** `start_write_to_disk`: the first call truncates the file and writes the dimension word. */
    method StartWriteToDisk()
      requires Writing()
      modifies this`records, this`dimensionWord, this`startToWrite
      ensures Writing() && startToWrite && dimensionWord == d
      ensures records == old(records) && idx == old(idx) && index == old(index)
      ensures draws == old(draws) && idxFile == old(idxFile) && heap == old(heap) && k == old(k) && tau == old(tau)
    {
      if !startToWrite {
        records := [];
        dimensionWord := d;
        startToWrite := true;
      }
    }

    /** `write_entry_to_disk(entry)`: appends a fresh header with id `idx` and the first `d` floats. */
    method WriteEntryToDisk(entry: seq<real>)
      requires Appending() && |entry| >= d
      modifies this`records, this`dimensionWord, this`startToWrite, this`index, this`idx
      ensures Appending() && startToWrite
      ensures records == old(records) + [Record(FreshHeader(old(idx)), entry[..d])]
      ensures index == old(index) + [old(idx)] && idx == old(idx) + 1
      ensures old(FreshLog(records)) && old(idx) < U32 ==> FreshLog(records)
      ensures draws == old(draws) && idxFile == old(idxFile)
    {
      StartWriteToDisk();
      records := records + [Record(FreshHeader(idx), entry[..d])];
      assert Iota(idx + 1) == Iota(idx) + [idx];
      index := index + [idx];
      idx := idx + 1;
    }

    /** `write_entry_to_disk(index, to_dist, ptr)`: appends a copy of a header and `d` floats. */
    method WriteRecordToDisk(header: NodeHeader, vec: seq<real>)
      requires Writing() && |vec| >= d
      modifies this`records, this`dimensionWord, this`startToWrite, this`index, this`idx
      ensures Writing() && startToWrite
      ensures records == old(records) + [Record(header, vec[..d])]
      ensures index == old(index) + [old(idx)] && idx == old(idx) + 1
      ensures draws == old(draws) && idxFile == old(idxFile)
    {
      StartWriteToDisk();
      records := records + [Record(header, vec[..d])];
      index := index + [idx];
      idx := idx + 1;
    }

    /**
     * `openSortedFile(actual)`: maps a file of `fileDimension`-float records
     * (the mapping stays even when the check fails) and, when `actual`, its
     * `_idx` file of `idxWords`. Only the dimension word is checked; the
     * record count `idx` is left as it was.
     */
    method OpenSortedFile(actual: bool, fileDimension: nat, fileRecords: seq<Record>, idxWords: seq<nat>)
      returns (o: Outcome<VPError>)
      requires ShapedAs(fileRecords, fileDimension)
      modifies this
      ensures mapped && records == fileRecords && dimensionWord == fileDimension && idx == old(idx)
      ensures o.Pass? <==> fileDimension == d
      ensures o.Fail? ==> o == Fail(DimensionsDoNotMatch) && idxFile == old(idxFile) && startToWrite == old(startToWrite)
      ensures o.Pass? ==> startToWrite && idxFile == if actual then idxWords else old(idxFile)
      ensures index == old(index) && draws == old(draws) && heap == old(heap) && k == old(k) && tau == old(tau)
    {
      mapped := true;
      records := fileRecords;
      dimensionWord := fileDimension;
      if dimensionWord != d {
        return Fail(DimensionsDoNotMatch);
      }
      if actual {
        idxFile := idxWords;
      }
      startToWrite := true;
      o := Pass;
    }

    /** `finaliseFile`: after writing, closes the log and maps it back. */
    method FinaliseFile()
      requires Writing() || mapped
      modifies this
      ensures old(Writing()) && old(startToWrite) ==> Mapped()
      ensures !(old(Writing()) && old(startToWrite)) ==> unchanged(this)
      ensures index == old(index) && records == old(records) && idx == old(idx) && draws == old(draws)
      ensures idxFile == old(idxFile) && heap == old(heap) && k == old(k) && tau == old(tau)
    {
      if startToWrite && !mapped {
        var o := OpenSortedFile(false, dimensionWord, records, []);
        assert o.Pass?;
      }
    }

    /** `getPTR(i)`: the byte offset of record `i`'s floats; null before anything was written. */
    function GetPTR(i: nat): (p: Option<nat>)
      reads this
      ensures p.Some? <==> startToWrite
      ensures p.Some? ==> p.value == EntryOffset(d, i) + NODE_HEADER_SIZE &&
                          p.value + FLOAT_SIZE * d == EntryOffset(d, i + 1)
    {
      if startToWrite then Some(VectorOffset(d, i)) else None
    }

    /** `getSPTR(i)`: `getPTR` of the record at logical position `i`. */
    function GetSPTR(i: nat): (p: Option<nat>)
      reads this
      requires i < |index|
      ensures p.Some? <==> startToWrite
      ensures p.Some? ==> (p.value - DIM_WORD - NODE_HEADER_SIZE) / RecordSize(d) == index[i]
    {
      GetPTR(index[i])
    }

    /** `getEntryPoint(i)`: finalises the file, then gives the offset of record `i`. */
    method GetEntryPoint(i: nat) returns (off: nat)
      requires Writing() || mapped
      modifies this
      ensures (off - DIM_WORD) / RecordSize(d) == i && (off - DIM_WORD) % RecordSize(d) == 0
      ensures old(Writing()) && old(startToWrite) ==> Mapped()
      ensures !(old(Writing()) && old(startToWrite)) ==> unchanged(this)
      ensures index == old(index) && records == old(records) && idx == old(idx)
    {
      FinaliseFile();
      off := EntryOffset(d, i);
    }

    /** `getShuffledEntryPoint(i)`: finalises the file, then gives the offset of the record at logical position `i`. */
    method GetShuffledEntryPoint(i: nat) returns (off: nat)
      requires Writing() || mapped
      requires i < |index|
      modifies this
      ensures index == old(index) && records == old(records) && idx == old(idx)
      ensures (off - DIM_WORD) / RecordSize(d) == index[i] && (off - DIM_WORD) % RecordSize(d) == 0
      ensures old(Writing()) && old(startToWrite) ==> Mapped()
      ensures !(old(Writing()) && old(startToWrite)) ==> unchanged(this)
    {
      FinaliseFile();
      off := EntryOffset(d, index[i]);
    }

    /**
     * `updateNode(i, distance, lchild, rchild)`: the radius is written,
     * then `lchild` and `rchild` as two overlapping 8-byte stores; on a
     * little-endian machine the links get the children's low 32 bits and
     * `isLeaf` the fifth byte of `rchild`. No other record changes.
     */
    method UpdateNode(i: nat, distance: real, lchild: nat, rchild: nat)
      requires mapped && i < |records|
      modifies this
      ensures records == old(records)[i := Record(StoreChildren(old(records)[i].header.(radius := distance), lchild, rchild), old(records)[i].vec)]
      ensures records[i].header == old(records)[i].header.(radius := distance, leftChild := lchild % U32,
                                                           rightChild := rchild % U32, isLeaf := rchild / U32 % 256 != 0)
      ensures index == old(index) && draws == old(draws) && FileKept()
    {
      StoreChildrenNetEffect(records[i].header.(radius := distance), lchild, rchild);
      records := records[i := Record(StoreChildren(records[i].header.(radius := distance), lchild, rchild), records[i].vec)];
    }

    /**
     * src/DiskVP.cpp:41-66: the pivot is drawn uniformly from
     * `[first, last - 1]` and swapped to `first`; `nth_element` then
     * partitions `[first + 1, last)` around `median = (first + last) / 2` by
     * distance to the pivot, so the records listed up to the median lie
     * within the pivot's distance to the median record and those after it
     * (up to `last - 1`) lie on or outside it. Position `last` keeps its
     * entry; no record changes.
     */
    method Partition(first: nat, last: nat) returns (root: nat)
      requires Indexed() && first + 2 <= last < |index|
      modifies this`index, this`draws
      ensures Indexed() && FileKept() && draws == old(draws) + 1 && records == old(records)
      ensures Moved(old(index), index, first, last)
      ensures root == first + Within(rng(old(draws)), last - first) && first <= root < last
      ensures index[first] == old(index)[root] && index[last] == old(index[last])
      ensures var pv := records[index[first]].vec; var mid := (first + last) / 2;
        Inside(ker, records, index, first + 1, mid + 1, pv, ker(pv, records[index[mid]].vec)) &&
        Outside(ker, records, index, mid + 1, last, pv, ker(pv, records[index[mid]].vec))
    {
      root := first + Within(rng(draws), last - first);
      ghost var s := State();
      var ix := PartitionIndex(d, ker, State(), first, last, root);
      DrawKeepsValid(d, s.(index := ix), s.draws + 1);
      index, draws := ix, draws + 1;
      assert State() == s.(index := ix).(draws := s.draws + 1);
    }

    /**
     * src/DiskVP.cpp:41-69 for `[first, last]` of three or more records:
     * `Partition`, then the pivot gets the distance to the median record as
     * its radius and the children `first + 1` and `median + 1`, written by
     * `updateNode`.
     */
    method PivotStep(first: nat, last: nat, ghost laid: bool) returns (root: nat)
      requires Indexed() && first + 2 <= last < |index|
      requires laid ==> UnlinkedIn(records, index, first, last + 1)
      modifies this
      ensures Indexed() && FileKept() && draws == old(draws) + 1
      ensures Step(old(State()), State(), first, last)
      ensures root == first + Within(rng(old(draws)), last - first) && index[first] == old(index)[root]
      ensures index[last] == old(index[last])
      ensures var p := index[first]; var mid := (first + last) / 2; var h := records[p].header;
        h == StoreChildren(old(records[p].header).(radius := h.radius), first + 1, mid + 1) &&
        h.radius == ker(records[p].vec, records[index[mid]].vec) &&
        Inside(ker, records, index, first + 1, mid + 1, records[p].vec, h.radius) &&
        Outside(ker, records, index, mid + 1, last, records[p].vec, h.radius)
      ensures laid ==> UnlinkedIn(records, index, first + 1, last + 1)
    {
      ghost var s0 := State();
      root := Partition(first, last);
      LinkPivot(first, last, s0, laid);
    }

    /**
     * src/DiskVP.cpp:76-82 after the partition (from `s0`): the pivot
     * listed at `first` gets its distance to the median record as radius
     * and `first + 1` and `median + 1` as children; the ball facts carry
     * over to the written header.
     */
    method LinkPivot(first: nat, last: nat, ghost s0: Build, ghost laid: bool)
      requires Indexed() && first + 2 <= last < |index| && Valid(d, s0)
      requires records == s0.records && s0.blockadeElements == [] && Moved(s0.index, index, first, last)
      requires var pv := records[index[first]].vec; var mid := (first + last) / 2;
        Inside(ker, records, index, first + 1, mid + 1, pv, ker(pv, records[index[mid]].vec)) &&
        Outside(ker, records, index, mid + 1, last, pv, ker(pv, records[index[mid]].vec))
      requires laid ==> UnlinkedIn(s0.records, s0.index, first, last + 1)
      modifies this
      ensures Indexed() && FileKept() && draws == old(draws) && index == old(index)
      ensures Step(s0, State(), first, last)
      ensures var p := index[first]; var mid := (first + last) / 2; var h := records[p].header;
        h == StoreChildren(old(records[p].header).(radius := h.radius), first + 1, mid + 1) &&
        h.radius == ker(records[p].vec, records[index[mid]].vec) &&
        Inside(ker, records, index, first + 1, mid + 1, records[p].vec, h.radius) &&
        Outside(ker, records, index, mid + 1, last, records[p].vec, h.radius)
      ensures laid ==> UnlinkedIn(records, index, first + 1, last + 1)
    {
      ghost var s1 := State();
      var median := (first + last) / 2;
      var radius := ker(records[index[first]].vec, records[index[median]].vec);
      ghost var pv := records[index[first]].vec;
      var p := index[first];
      UpdateNode(p, radius, first + 1, median + 1);
      assert records[p].vec == pv && index == s1.index;
      PivotLinked(d, ker, s0, s1, State(), first, last, records[p].header, pv, radius, laid);
    }

    /**
     * `recursive_restruct_tree(first, last)`: rearranges `index` inside
     * `[first, last]` only and changes only the records listed there. A
     * single record becomes a leaf without links; of two, the first gets
     * the distance to the second as radius and it as left child; of three
     * or more, see `SplitStep`. When `laid` is asked for, the range must
     * hold only unlinked records and fit the 32-bit links, and then every
     * link stays inside the range and points forward.
     */
    method RecursiveRestructTree(first: nat, last: nat, ghost laid: bool)
      requires Indexed() && first <= last < |index|
      requires laid ==> UnlinkedIn(records, index, first, last + 1) && last < UINT_MAX
      modifies this
      ensures Indexed() && FileKept()
      ensures Step(old(State()), State(), first, last + 1)
      ensures first == last ==> (index == old(index) &&
        records[index[first]].header == old(records[index[first]].header).(isLeaf := true, leftChild := UINT_MAX, rightChild := UINT_MAX))
      ensures first + 1 == last ==> (index == old(index) &&
        records[index[first]].header ==
          old(records[index[first]].header).(radius := ker(records[index[first]].vec, records[index[last]].vec),
                                             leftChild := last % U32, rightChild := UINT_MAX))
      ensures first + 2 <= last ==>
        var p := index[first]; var mid := (first + last) / 2; var r := records[p].header.radius;
        Inside(ker, records, index, first + 1, mid + 1, records[p].vec, r) &&
        OutsideExcept(ker, records, index, mid + 1, last + 1, records[p].vec, r, old(index[last]))
      ensures laid ==> Laid(records, index, first, last)
      decreases last - first, 1
    {
      ghost var s0 := State();
      if first >= last {
        var p := index[first];
        records := records[p := Record(records[p].header.(isLeaf := true, leftChild := UINT_MAX, rightChild := UINT_MAX), records[p].vec)];
        DistinctAt(index, first);
        KeptValid(d, s0, State());
      } else if last - first <= 1 {
        var p := index[first];
        var radius := ker(records[index[first]].vec, records[index[last]].vec);
        records := records[p := Record(records[p].header.(radius := radius, leftChild := last % U32, rightChild := UINT_MAX), records[p].vec)];
        DistinctAt(index, first);
        KeptValid(d, s0, State());
      } else {
        SplitStep(first, last, laid);
      }
    }

    /**
     * src/DiskVP.cpp:39-88: `PivotStep`, then `[first + 1, mid]` and
     * `[mid + 1, last]` in turn. The pivot's ball holds the whole left half,
     * and every record of the right half but the one listed at `last`
     * before lies on or outside it.
     */
    method SplitStep(first: nat, last: nat, ghost laid: bool)
      requires Indexed() && first + 2 <= last < |index|
      requires laid ==> UnlinkedIn(records, index, first, last + 1) && last < UINT_MAX
      modifies this
      ensures Indexed() && FileKept()
      ensures Step(old(State()), State(), first, last + 1)
      ensures var p := index[first]; var mid := (first + last) / 2; var r := records[p].header.radius;
        Inside(ker, records, index, first + 1, mid + 1, records[p].vec, r) &&
        OutsideExcept(ker, records, index, mid + 1, last + 1, records[p].vec, r, old(index[last]))
      ensures laid ==> Laid(records, index, first, last)
      decreases last - first, 0
    {
      ghost var s0 := State();
      var _ := PivotStep(first, last, laid);
      ghost var s1 := State();
      var median := (first + last) / 2;
      var rc := median + 1;
      if laid {
        UnlinkedWithin(s1.records, s1.index, first + 1, last + 1, first + 1, rc);
      }
      RecursiveRestructTree(first + 1, median, laid);
      ghost var s2 := State();
      if laid {
        UnlinkedAfter(s1, s2, first + 1, rc, last + 1);
      }
      RecursiveRestructTree(rc, last, laid);
      SplitFacts(d, ker, s0, s1, s2, State(), first, last, laid);
    }

    /**
     * `restruct_index(b2)`: after writing, maps the log, builds the whole
     * range `[0, idx - 1]`, then for every logical position `i` records
     * `indexMemory[id] = i` for the id of the record there and appends a
     * copy of that record to `b2`; the words of `indexMemory` are returned
     * as `idxWords` (the `_idx` file). An empty log makes `idx - 1` wrap.
     * On a log of fresh records the logical order is a tree file whose ids
     * are the records' own positions.
     */
    method RestructIndex(b2: DiskVP) returns (o: Outcome<VPError>, idxWords: seq<nat>)
      requires b2 != this && Appending() && b2.Writing() && b2.d <= d
      modifies this, b2
      ensures !old(startToWrite) ==> o == Pass && unchanged(this) && unchanged(b2)
      ensures old(startToWrite) && old(idx) == 0 ==> o == Fail(EmptyFile)
      ensures old(startToWrite) && old(idx) > 0 ==>
        Indexed() && Step(old(State()), State(), 0, idx) &&
        (o.Pass? <==> forall j :: 0 <= j < idx ==> Ids(records, index)[j] < idx) &&
        (old(FreshLog(records)) && idx < U32 ==>
           TreeFile(Logical(records, index, idx)) && Ids(records, index) == index)
      ensures o.Pass? && old(startToWrite) ==>
        b2.Mapped() &&
        b2.records == old(b2.records) + Clipped(Logical(records, index, idx), b2.d) &&
        idxWords == Written(Ids(records, index), idx, idx)
    {
      if !startToWrite {
        return Pass, [];
      }
      FinaliseFile();
      IotaValid(d, records, [], draws);
      if idx == 0 {
        return Fail(EmptyFile), [];
      }
      BuildLog();
      o, idxWords := CopyOut(b2, records, index);
    }

    /**
     * `recursive_restruct_tree(0, idx - 1)` on the freshly mapped log; on
     * a log of fresh records the logical order is a tree file whose ids are
     * the records' own positions.
     */
    method BuildLog()
      requires Indexed() && 0 < idx && index == Iota(idx)
      modifies this
      ensures Indexed() && FileKept() && Step(old(State()), State(), 0, idx)
      ensures old(FreshLog(records)) && idx < U32 ==> TreeFile(Logical(records, index, idx)) && Ids(records, index) == index
    {
      ghost var s0 := State();
      ghost var freshLog := FreshLog(records) && idx < U32;
      assert freshLog ==> UnlinkedIn(records, index, 0, idx);
      RecursiveRestructTree(0, idx - 1, freshLog);
      if freshLog {
        FreshBuilt(s0.records, records, index);
      }
    }

    /**
     * The copy loop of `restruct_index`: for every logical position `i`,
     * `indexMemory[id] = i` for the id of the record there and a copy of
     * that record appended to `b2`; an id past the file (a write past
     * `indexMemory`) stops the copy. Then `b2` is finalised.
     */
    static method CopyOut(b2: DiskVP, recs: seq<Record>, ix: seq<nat>) returns (o: Outcome<VPError>, idxWords: seq<nat>)
      requires 0 < |ix| && forall j :: 0 <= j < |ix| ==> ix[j] < |recs|
      requires (forall j :: 0 <= j < |recs| ==> b2.d <= |recs[j].vec|) && b2.Writing()
      modifies b2
      ensures o.Pass? <==> forall j :: 0 <= j < |ix| ==> Ids(recs, ix)[j] < |ix|
      ensures o.Fail? ==> o == Fail(IdOutOfRange)
      ensures o.Pass? ==>
        b2.records == old(b2.records) + Clipped(Logical(recs, ix, |ix|), b2.d) &&
        idxWords == Written(Ids(recs, ix), |ix|, |ix|) && b2.Mapped()
    {
      var ok, written := CopyLoop(b2, recs, ix);
      IdsBelowAll(recs, ix, |ix|, |ix|);
      if !ok {
        return Fail(IdOutOfRange), written;
      }
      CopiesPrefix(recs, ix, b2.d, |ix|);
      assert Clipped(Logical(recs, ix, |ix|), b2.d)[..|ix|] == Clipped(Logical(recs, ix, |ix|), b2.d);
      b2.FinaliseFile();
      o, idxWords := Pass, written;
    }

    /** One pass of the copy loop: the record at logical position `i` is appended to `b2`, clipped to its dimension. */
    static method CopyRecord(b2: DiskVP, recs: seq<Record>, ix: seq<nat>, i: nat, ghost before: seq<Record>)
      requires i < |ix| && forall j :: 0 <= j < |ix| ==> ix[j] < |recs|
      requires (forall j :: 0 <= j < |recs| ==> b2.d <= |recs[j].vec|) && b2.Writing()
      requires b2.records == before + Copies(recs, ix, b2.d, i)
      modifies b2
      ensures b2.Writing() && b2.startToWrite
      ensures b2.records == before + Copies(recs, ix, b2.d, i + 1)
    {
      b2.WriteRecordToDisk(recs[ix[i]].header, recs[ix[i]].vec);
    }

    /**
     * The loop itself: it runs to the end exactly when every id listed is
     * below the record count, and then `b2` holds the copies in logical
     * order and `written` the logical position of every id.
     */
    static method CopyLoop(b2: DiskVP, recs: seq<Record>, ix: seq<nat>) returns (ok: bool, written: seq<nat>)
      requires forall j :: 0 <= j < |ix| ==> ix[j] < |recs|
      requires (forall j :: 0 <= j < |recs| ==> b2.d <= |recs[j].vec|) && b2.Writing()
      modifies b2
      ensures ok <==> IdsBelow(recs, ix, |ix|, |ix|)
      ensures b2.Writing() && (ok && 0 < |ix| ==> b2.startToWrite)
      ensures ok ==> b2.records == old(b2.records) + Copies(recs, ix, b2.d, |ix|)
      ensures ok ==> written == Written(Ids(recs, ix), |ix|, |ix|)
    {
      var n := |ix|;
      ghost var ids := Ids(recs, ix);
      written := ZeroWords(n);
      var i := 0;
      while i < n && recs[ix[i]].header.id < n
        invariant 0 <= i <= n
        invariant IdsBelow(recs, ix, n, i)
        invariant written == Written(ids, n, i)
        invariant b2.Writing() && (0 < i ==> b2.startToWrite)
        invariant b2.records == old(b2.records) + Copies(recs, ix, b2.d, i)
      {
        written := written[recs[ix[i]].header.id := i];
        CopyRecord(b2, recs, ix, i, old(b2.records));
        i := i + 1;
      }
      ok := i == n;
      if !ok {
        IdsBelowAll(recs, ix, n, n);
        assert ids[i] == recs[ix[i]].header.id;
      }
    }

    /**
     * The admission block of `lookUpNearsetTo` for a visited record's item
     * `x`: when `x.dist` is definitely below `tau`, or approximately equal to
     * it (in double precision), a full heap first drops its top, then `x`
     * is pushed, and a full heap's top becomes `tau`; in the approximate
     * case `tau` never grows. The heap never shrinks.
     */
    method Admit(x: HeapItem)
      requires Ascending(heap) && |heap| <= k && k >= 1
      modifies this`heap, this`tau
      ensures Ascending(heap) && old(|heap|) <= |heap| <= k
      ensures forall y :: y in heap ==> y in old(heap) || y == x
      ensures Admits(x.dist, old(tau), DBL_EPSILON) ==> x in heap
      ensures !Admits(x.dist, old(tau), DBL_EPSILON) ==> heap == old(heap) && tau == old(tau)
      ensures Admits(x.dist, old(tau), DBL_EPSILON) ==>
                && heap == PopThenPush(old(heap), x, k)
                && tau == NextTau(heap, k, old(tau), !DefinitelyLessThan(x.dist, old(tau), DBL_EPSILON))
    {
      if DefinitelyLessThan(x.dist, tau, DBL_EPSILON) || ApproximatelyEqual(x.dist, tau, DBL_EPSILON) {
        var approx := !DefinitelyLessThan(x.dist, tau, DBL_EPSILON);
        var h := heap;
        if |h| == k {
          PopMembers(h);
          h := Pop(h);
        }
        PushMembers(h, x);
        assert x in multiset(Push(h, x));
        h := Push(h, x);
        assert forall y :: y in h ==> y in heap || y == x;
        heap := h;
        if |h| == k {
          tau := Top(h).dist;
        }
        if approx {
          tau := if tau < Top(h).dist then tau else Top(h).dist;
        }
      }
    }

    /**
     * `lookUpNearsetTo(root_id, id)`: visits record `rootId`, offers its
     * item to the heap, then descends into the children the current `tau`
     * allows, re-reading `tau` after the first descent. The heap keeps at
     * most `k` items in order, gains only items naming records of the file
     * with their distance to `q`, and holds the visited record's item when
     * it passed the admission test.
     */
    method LookUpNearsetTo(rootId: nat, q: seq<real>)
      requires mapped && startToWrite && rootId < |records| && TreeFile(records)
      requires Ascending(heap) && |heap| <= k && k >= 1
      modifies this`heap, this`tau
      ensures Ascending(heap) && old(|heap|) <= |heap| <= k
      ensures forall x :: x in heap ==> x in old(heap) || FromFile(ker, records, q, x)
      ensures Admits(ker(records[rootId].vec, q), old(tau), DBL_EPSILON) ==> heap != []
      decreases |records| - rootId
    {
      var root := records[rootId].header;
      var rootRadius := root.radius;
      var dist := ker(records[rootId].vec, q);
      assert FromFile(ker, records, q, HeapItem(root.id, dist));
      Admit(HeapItem(root.id, dist));
      if dist < rootRadius {
        if root.leftChild != UINT_MAX && dist - tau <= rootRadius {
          LookUpNearsetTo(root.leftChild, q);
        }
        if root.rightChild != UINT_MAX && dist + tau >= rootRadius {
          LookUpNearsetTo(root.rightChild, q);
        }
      } else {
        if root.rightChild != UINT_MAX && dist + tau >= rootRadius {
          LookUpNearsetTo(root.rightChild, q);
        }
        if root.leftChild != UINT_MAX && dist - tau <= rootRadius {
          LookUpNearsetTo(root.leftChild, q);
        }
      }
    }

    /**
     * `topkSearchIdx(id, k)`: the query is the record the `_idx` file gives
     * for `id`; the heap is cleared, `tau` starts at `DBL_MAX`, the tree is
     * searched from record 0, and the drained heap is reversed: at most `k`
     * items in ascending distance order, each naming a record with its
     * distance to the query, and at least one when the root record passes
     * the first admission test. `k == 0` would pop an empty heap.
     */
    method TopkSearchIdx(id: nat, kk: nat) returns (results: seq<HeapItem>)
      requires id < |idxFile| && kk >= 1
      requires mapped && startToWrite && idxFile[id] < |records| && 0 < |records| && TreeFile(records)
      modifies this`heap, this`tau, this`k
      ensures k == kk && heap == [] && Ascending(results) && |results| <= kk
      ensures forall x :: x in results ==> FromFile(ker, records, records[idxFile[id]].vec, x)
      ensures Admits(ker(records[0].vec, records[idxFile[id]].vec), DBL_MAX, DBL_EPSILON) ==> results != []
    {
      k := kk;
      var q := records[idxFile[id]].vec;
      heap := [];
      tau := DBL_MAX;
      LookUpNearsetTo(0, q);
      ghost var found := heap;
      var drained := PopAll(heap);
      heap := [];
      results := Reversed(drained);
      ReversedAscending(found);
    }

    /**
     * `topkSearch(ptr, k)`: the same search for a given vector, returned
     * as drained from the heap, in descending distance order.
     */
    method TopkSearch(q: seq<real>, kk: nat) returns (results: seq<HeapItem>)
      requires kk >= 1 && mapped && startToWrite && 0 < |records| && TreeFile(records)
      modifies this`heap, this`tau, this`k
      ensures k == kk && heap == [] && Descending(results) && |results| <= kk
      ensures forall x :: x in results ==> FromFile(ker, records, q, x)
      ensures Admits(ker(records[0].vec, q), DBL_MAX, DBL_EPSILON) ==> results != []
    {
      k := kk;
      heap := [];
      tau := DBL_MAX;
      LookUpNearsetTo(0, q);
      results := PopAll(heap);
      heap := [];
    }
  }
}

/**
 * The VP-tree record store of include/vptree/DiskVP.h and its builder
 * driver (src/vptree/DiskVP.cpp).
 *
 * Vectors are appended to a log of fixed-size records (a dimension word,
 * then header + `d` floats per record). `restruct_index` maps the log,
 * rearranges the `index` permutation into vantage-point order by
 * `recursive_restruct_tree`, patching each pivot's radius and child links,
 * copies the records in that logical order into a second store and emits
 * the `_idx` words that map each original id to its logical position.
 *
 * The mapped file is `records` (one value per whole record) together with
 * `dimensionWord`; `mapped` says whether it is currently mapped (`file !=
 * nullptr`). Floats are reals and the kernel is a given function. What
 * one build step does is defined on values in module `VPBuild`; the
 * methods here are proved to do exactly that to the object's fields.
 */
module VPTree {
  import opened Machine
  import opened Wrappers
  import opened VPLayout
  import opened Selection
  import opened VPBuild

  /** The ids of the records in logical order: what the copy loop of `restruct_index` reads, one position at a time. */
  function Ids(recs: seq<Record>, ix: seq<nat>): (r: seq<nat>)
    requires forall j :: 0 <= j < |ix| ==> ix[j] < |recs|
    ensures |r| == |ix| && forall j :: 0 <= j < |ix| ==> r[j] == recs[ix[j]].header.id
  {
    seq(|ix|, j requires 0 <= j < |ix| => recs[ix[j]].header.id)
  }

  /** `indexMemory` after the first `i` passes of the copy loop: all zero, then `indexMemory[ids[j]] = j` for `j < i`. */
  function Written(ids: seq<nat>, n: nat, i: nat): (w: seq<nat>)
    requires i <= |ids|
    ensures |w| == n
    decreases i
  {
    if i == 0 then ZeroWords(n)
    else if ids[i - 1] < n then Written(ids, n, i - 1)[ids[i - 1] := i - 1]
    else Written(ids, n, i - 1)
  }

  /** With pairwise different ids, each id's entry is the position it was read at: the words invert the order. */
  lemma {:induction false} WrittenInverse(ids: seq<nat>, n: nat, i: nat)
    requires i <= |ids| && forall j :: 0 <= j < i ==> ids[j] < n
    requires forall j, k :: 0 <= j < k < i ==> ids[j] != ids[k]
    ensures forall j :: 0 <= j < i ==> Written(ids, n, i)[ids[j]] == j
    decreases i
  {
    if i > 0 {
      WrittenInverse(ids, n, i - 1);
    }
  }

  /** The copy of the logical order up to position `i + 1` extends the one up to `i` by the record at `i`. */
  lemma CopiedNext(recs: seq<Record>, ix: seq<nat>, n: nat, i: nat)
    requires i < |ix| && forall j :: 0 <= j < |ix| ==> ix[j] < |recs|
    requires forall j :: 0 <= j < |recs| ==> n <= |recs[j].vec|
    ensures var out := Clipped(Logical(recs, ix, |ix|), n);
      out[..i + 1] == out[..i] + [Record(recs[ix[i]].header, recs[ix[i]].vec[..n])]
  {
    var out := Clipped(Logical(recs, ix, |ix|), n);
    assert out[..i + 1] == out[..i] + [out[i]];
  }

  /** What the copy loop has appended after `i` passes: the first `i` records of the logical order `ix`, each cut to `n` floats. */
  function Copies(recs: seq<Record>, ix: seq<nat>, n: nat, i: nat): seq<Record>
    requires i <= |ix| && forall j :: 0 <= j < |ix| ==> ix[j] < |recs|
    requires forall j :: 0 <= j < |recs| ==> n <= |recs[j].vec|
  {
    if i == 0 then [] else Copies(recs, ix, n, i - 1) + [Record(recs[ix[i - 1]].header, recs[ix[i - 1]].vec[..n])]
  }

  /** The ids listed at logical positions `0 .. i - 1` are all below `n`: the copy loop's `indexMemory` writes so far were in bounds. */
  predicate IdsBelow(recs: seq<Record>, ix: seq<nat>, n: nat, i: nat)
    requires i <= |ix| && forall j :: 0 <= j < |ix| ==> ix[j] < |recs|
  {
    i == 0 || (IdsBelow(recs, ix, n, i - 1) && recs[ix[i - 1]].header.id < n)
  }

  /** `IdsBelow` is the bound on every one of the first `i` ids. */
  lemma {:induction false} IdsBelowAll(recs: seq<Record>, ix: seq<nat>, n: nat, i: nat)
    requires i <= |ix| && forall j :: 0 <= j < |ix| ==> ix[j] < |recs|
    ensures IdsBelow(recs, ix, n, i) <==> forall j :: 0 <= j < i ==> Ids(recs, ix)[j] < n
  {
    if i > 0 {
      IdsBelowAll(recs, ix, n, i - 1);
    }
  }

  /** After `i` passes the copies are the first `i` records of the clipped logical file. */
  lemma {:induction false} CopiesPrefix(recs: seq<Record>, ix: seq<nat>, n: nat, i: nat)
    requires i <= |ix| && forall j :: 0 <= j < |ix| ==> ix[j] < |recs|
    requires forall j :: 0 <= j < |recs| ==> n <= |recs[j].vec|
    ensures Copies(recs, ix, n, i) == Clipped(Logical(recs, ix, |ix|), n)[..i]
  {
    if i > 0 {
      CopiesPrefix(recs, ix, n, i - 1);
      CopiedNext(recs, ix, n, i - 1);
    }
  }

  /** `write_entry_to_disk(header, ptr)` copies `n` floats of each record: the records with their vectors cut to `n`. */
  function Clipped(recs: seq<Record>, n: nat): (r: seq<Record>)
    requires forall j :: 0 <= j < |recs| ==> n <= |recs[j].vec|
    ensures |r| == |recs| && forall j :: 0 <= j < |recs| ==> r[j] == Record(recs[j].header, recs[j].vec[..n])
  {
    seq(|recs|, j requires 0 <= j < |recs| => Record(recs[j].header, recs[j].vec[..n]))
  }

  /** The log as `write_entry_to_disk(entry)` leaves it: record `i` has id `i` and a header no build has touched. */
  predicate FreshLog(recs: seq<Record>)
  {
    forall i :: 0 <= i < |recs| ==> recs[i].header.id == i && Fresh(recs[i].header)
  }

  /**
   * Words written by a copy loop over a rearrangement `ix` of `0 .. n - 1`
   * whose records carry their own positions as ids: each original record
   * `x` is found in the logical order at the position its word gives.
   */
  lemma PermutationWords(recs: seq<Record>, ix: seq<nat>)
    requires |ix| == |recs| && multiset(ix) == multiset(Iota(|recs|)) && Distinct(ix)
    requires forall j :: 0 <= j < |ix| ==> ix[j] < |recs|
    ensures var n := |recs|;
      forall x :: 0 <= x < n ==> Written(ix, n, n)[x] < n && Logical(recs, ix, n)[Written(ix, n, n)[x]] == recs[x]
  {
    var n := |recs|;
    DistinctPairwise(ix);
    WrittenInverse(ix, n, n);
    forall x | 0 <= x < n ensures x in ix {
      assert Iota(n)[x] == x;
      assert x in multiset(Iota(n));
    }
    InverseLookup(recs, ix, Written(ix, n, n));
  }

  /**
   * What `restruct_index` achieves on a log of fresh records that builds
   * without error: the records copied out in logical order form a tree
   * file whose links point forward, each id read in logical order is the
   * record's own position, and `index` is a rearrangement of `0 .. n - 1`,
   * so the `_idx` words invert it (`PermutationWords`).
   */
  lemma FreshRestruct(cfg: Config, recs: seq<Record>, b: seq<BlockadeElement>, draws: nat)
    requires ShapedAs(recs, cfg.d) && FreshLog(recs) && 0 < |recs| < U32
    ensures var r := Restruct(cfg, Build(recs, Iota(|recs|), b, draws), 0, |recs| - 1);
      var n := |recs|; var t := r.state;
      r.outcome.Pass? ==>
        |t.records| == n && Valid(cfg.d, t) && multiset(t.index) == multiset(Iota(n)) &&
        TreeFile(Logical(t.records, t.index, n)) && Ids(t.records, t.index) == t.index
  {
    var n := |recs|;
    var s := Build(recs, Iota(n), b, draws);
    IotaValid(cfg.d, recs, b, draws);
    var r := Restruct(cfg, s, 0, n - 1);
    if r.outcome.Pass? {
      var t := r.state;
      RestructFrame(cfg, s, 0, n - 1);
      StepValid(cfg.d, s, t, 0, n);
      assert UnlinkedIn(s.records, s.index, 0, n);
      RestructLaid(cfg, s, 0, n - 1);
      LaidTreeFile(t.records, t.index);
      forall j | 0 <= j < n ensures t.records[t.index[j]].header.id == t.index[j] {
        assert t.index[j] < n;
      }
    }
  }

  /**
   * The state after the pivot step of `[first, last]` (lines 36-138): the
   * pivot choice's `index` and draws and, when a usable median was
   * assigned, the pivot linked and the blockade element recorded.
   */
  function Pivoting(cfg: Config, s: Build, first: nat, last: nat): (r: Build)
    requires Bounded(s) && first + 2 <= last < |s.index|
  {
    var c := Choose(cfg, s, first, last);
    var s1 := s.(index := c.index, draws := c.draws);
    if c.outcome.Fail? then s1 else Linking(cfg, s1, first, last, c.root, ChoiceRadius(cfg, s, c, first, last))
  }

  /** The pivot step keeps a state well formed. */
  lemma PivotingValid(cfg: Config, s: Build, first: nat, last: nat)
    requires Valid(cfg.d, s) && first + 2 <= last < |s.index|
    ensures Valid(cfg.d, Pivoting(cfg, s, first, last))
  {
    PivotFrame(cfg, s, first, last);
    var c := Choose(cfg, s, first, last);
    if c.outcome.Fail? {
      StepValid(cfg.d, s, s.(index := c.index, draws := c.draws), first, last + 1);
    }
  }

  class DiskVP {
    const d: nat
    const ker: Kernel
    const blockade: Blockade
    const strategy: Strategy
    /** The `mt19937` stream: the `n`-th draw. */
    const rng: nat -> nat
    /** Number of draws taken from `rng`. */
    var draws: nat
    var idx: nat
    var index: seq<nat>
    var blockadeElements: seq<BlockadeElement>
    var startToWrite: bool
    var mapped: bool
    var dimensionWord: nat
    var records: seq<Record>
    var idxFile: seq<nat>

    /** The builder's parameters. */
    function Cfg(): Config
    {
      Config(d, ker, blockade, strategy, rng)
    }

    /** What the builder reads and writes. */
    function State(): Build
      reads this
    {
      Build(records, index, blockadeElements, draws)
    }

    /** Writing a file: nothing mapped, one `index` entry per record, and the file holds what was appended. */
    predicate Writing()
      reads this
    {
      !mapped && |index| == idx && ShapedAs(records, d) &&
      (startToWrite ==> |records| == idx && dimensionWord == d) &&
      (!startToWrite ==> idx == 0 && records == [])
    }

    /** Writing the log: besides, `index` is `0 .. idx-1`. */
    predicate Appending()
      reads this
    {
      Writing() && index == Iota(idx)
    }

    /** The file is mapped and consistent with the store's dimension and count. */
    predicate Mapped()
      reads this
    {
      mapped && startToWrite && dimensionWord == d && idx == |records| && ShapedAs(records, d)
    }

    /** Mapped, and `index` lists every record exactly once: a state the builder works on. */
    ghost predicate Indexed()
      reads this
    {
      mapped && startToWrite && dimensionWord == d && idx == |records| && Valid(d, State())
    }

    /** The file's bookkeeping is left alone. */
    twostate predicate FileKept()
      reads this
    {
      old(idx) == idx && old(idxFile) == idxFile && old(dimensionWord) == dimensionWord &&
      old(mapped) == mapped && old(startToWrite) == startToWrite
    }

    constructor (d: nat, ker: Kernel, blockade: Blockade, strategy: Strategy, rng: nat -> nat)
      ensures this.d == d && this.ker == ker && this.blockade == blockade
      ensures this.strategy == strategy && this.rng == rng
      ensures Appending() && !startToWrite && idx == 0 && records == []
      ensures draws == 0 && blockadeElements == [] && idxFile == []
    {
      this.d := d;
      this.ker := ker;
      this.blockade := blockade;
      this.strategy := strategy;
      this.rng := rng;
      draws := 0;
      idx := 0;
      index := [];
      blockadeElements := [];
      startToWrite := false;
      mapped := false;
      dimensionWord := 0;
      records := [];
      idxFile := [];
    }

    /** `start_write_to_disk`: the first call truncates the file and writes the dimension word. */
    method StartWriteToDisk()
      requires Writing()
      modifies this`records, this`dimensionWord, this`startToWrite
      ensures Writing() && startToWrite && dimensionWord == d
      ensures records == old(records) && idx == old(idx) && index == old(index)
      ensures draws == old(draws) && blockadeElements == old(blockadeElements) && idxFile == old(idxFile)
    {
      if !startToWrite {
        records := [];
        dimensionWord := d;
        startToWrite := true;
      }
    }

    /** `write_entry_to_disk(entry)`: appends a fresh header with id `idx` and the first `d` floats. */
    method WriteEntryToDisk(entry: seq<real>)
      requires Appending() && |entry| >= d
      modifies this`records, this`dimensionWord, this`startToWrite, this`index, this`idx
      ensures Appending() && startToWrite
      ensures records == old(records) + [Record(FreshHeader(old(idx)), entry[..d])]
      ensures index == old(index) + [old(idx)] && idx == old(idx) + 1
      ensures old(FreshLog(records)) && old(idx) < U32 ==> FreshLog(records)
      ensures draws == old(draws) && blockadeElements == old(blockadeElements) && idxFile == old(idxFile)
    {
      StartWriteToDisk();
      records := records + [Record(FreshHeader(idx), entry[..d])];
      assert Iota(idx + 1) == Iota(idx) + [idx];
      index := index + [idx];
      idx := idx + 1;
    }

    /** `write_entry_to_disk(header, ptr)`: appends a copy of a header and `d` floats. */
    method WriteRecordToDisk(header: NodeHeader, vec: seq<real>)
      requires Writing() && |vec| >= d
      modifies this`records, this`dimensionWord, this`startToWrite, this`index, this`idx
      ensures Writing() && startToWrite
      ensures records == old(records) + [Record(header, vec[..d])]
      ensures index == old(index) + [old(idx)] && idx == old(idx) + 1
      ensures draws == old(draws) && blockadeElements == old(blockadeElements) && idxFile == old(idxFile)
    {
      StartWriteToDisk();
      records := records + [Record(header, vec[..d])];
      index := index + [idx];
      idx := idx + 1;
    }

    /**
     * `openSortedFile(actual)`: maps a file of `fileDimension`-float records
     * and, when `actual`, its `_idx` file of `idxWords`. The record count is
     * recomputed from the file length.
     */
    method OpenSortedFile(actual: bool, fileDimension: nat, fileRecords: seq<Record>, idxWords: seq<nat>)
      returns (o: Outcome<VPError>)
      requires ShapedAs(fileRecords, fileDimension)
      modifies this
      ensures mapped && records == fileRecords && dimensionWord == fileDimension
      ensures o.Pass? <==> fileDimension == d && (actual ==> |idxWords| == |fileRecords|)
      ensures fileDimension != d ==>
        o == Fail(DimensionsDoNotMatch) && idx == old(idx) && idxFile == old(idxFile)
      ensures fileDimension == d ==> idx == |fileRecords| && idxFile == if actual then idxWords else old(idxFile)
      ensures fileDimension == d && actual && |idxWords| != |fileRecords| ==> o == Fail(LengthDoesNotMatch)
      ensures startToWrite == (old(startToWrite) || o.Pass?)
      ensures o.Pass? ==> Mapped()
      ensures index == old(index) && draws == old(draws) && blockadeElements == old(blockadeElements)
    {
      mapped := true;
      records := fileRecords;
      dimensionWord := fileDimension;
      if dimensionWord != d {
        return Fail(DimensionsDoNotMatch);
      }
      FileLengthRecords(d, |records|);
      idx := (FileLength(d, |records|) - DIM_WORD) / RecordSize(d);
      if actual {
        idxFile := idxWords;
        if idx != |idxFile| {
          return Fail(LengthDoesNotMatch);
        }
      }
      startToWrite := true;
      o := Pass;
    }

    /** `finaliseFile`: after writing, closes the log and maps it; otherwise does nothing. */
    method FinaliseFile()
      requires Writing() || mapped
      modifies this
      ensures old(Writing()) && old(startToWrite) ==> Mapped()
      ensures !(old(Writing()) && old(startToWrite)) ==> unchanged(this)
      ensures index == old(index) && records == old(records) && idx == old(idx)
      ensures draws == old(draws) && blockadeElements == old(blockadeElements) && idxFile == old(idxFile)
    {
      if startToWrite && !mapped {
        var o := OpenSortedFile(false, dimensionWord, records, []);
        assert o.Pass?;
      }
    }

    /**
     * `getPTR(i)`: the byte offset of record `i`'s floats, right after its
     * header and ending where record `i + 1` starts; null before anything
     * was written.
     */
    function GetPTR(i: nat): (p: Option<nat>)
      reads this
      ensures p.Some? <==> startToWrite
      ensures p.Some? ==> p.value == EntryOffset(d, i) + NODE_HEADER_SIZE &&
                          p.value + FLOAT_SIZE * d == EntryOffset(d, i + 1)
    {
      if startToWrite then Some(VectorOffset(d, i)) else None
    }

    /** `getSPTR(i)`: `getPTR` of the record at logical position `i`. */
    function GetSPTR(i: nat): (p: Option<nat>)
      reads this
      requires i < |index|
      ensures p.Some? <==> startToWrite
      ensures p.Some? ==> (p.value - DIM_WORD - NODE_HEADER_SIZE) / RecordSize(d) == index[i]
    {
      GetPTR(index[i])
    }

    /** `getEntryPoint(i)`: finalises the file, then gives the offset of record `i`. */
    method GetEntryPoint(i: nat) returns (off: nat)
      requires Writing() || mapped
      modifies this
      ensures (off - DIM_WORD) / RecordSize(d) == i && (off - DIM_WORD) % RecordSize(d) == 0
      ensures old(Writing()) && old(startToWrite) ==> Mapped()
      ensures !(old(Writing()) && old(startToWrite)) ==> unchanged(this)
      ensures index == old(index) && records == old(records) && idx == old(idx)
    {
      FinaliseFile();
      off := EntryOffset(d, i);
    }

    /** `getShuffledEntryPoint(i)`: finalises the file, then gives the offset of the record at logical position `i`. */
    method GetShuffledEntryPoint(i: nat) returns (off: nat)
      requires Writing() || mapped
      requires i < |index|
      modifies this
      ensures index == old(index) && records == old(records) && idx == old(idx)
      ensures (off - DIM_WORD) / RecordSize(d) == index[i] && (off - DIM_WORD) % RecordSize(d) == 0
      ensures old(Writing()) && old(startToWrite) ==> Mapped()
      ensures !(old(Writing()) && old(startToWrite)) ==> unchanged(this)
    {
      FinaliseFile();
      off := EntryOffset(d, index[i]);
    }

    /** `updateNode(i, …)`: patches the header of physical record `i` and nothing else. */
    method UpdateNode(i: nat, distance: real, lchild: nat, rchild: nat, lf: bool)
      requires mapped && i < |records|
      modifies this
      ensures State() == Updated(old(State()), i, distance, lchild, rchild, lf)
      ensures FileKept()
    {
      records := records[i := Record(UpdatedHeader(records[i].header, distance, lchild, rchild, lf), records[i].vec)];
    }

    /**
     * `recursive_restruct_tree(first, last)`: the fields end up exactly as
     * `Restruct` computes from the state before, which rearranges `index`
     * inside `[first, last]` only and lays the range out (see
     * `RestructFrame`, `RestructLaid`, `RestructBall` in `VPBuild`).
     */
    method RecursiveRestructTree(first: nat, last: nat) returns (o: Outcome<VPError>)
      requires Indexed() && first <= last < |index|
      modifies this
      ensures State() == Restruct(Cfg(), old(State()), first, last).state
      ensures o == Restruct(Cfg(), old(State()), first, last).outcome
      ensures Indexed() && FileKept()
      decreases last - first, 2
    {
      ghost var s := State();
      if first >= last {
        UpdateNode(index[first], 0.0, UINT_MAX, UINT_MAX, false);
        LeafUpdateIsNoOp(s, first);
        o := Pass;
      } else if last - first <= 1 {
        UpdateNode(index[first], ker(records[index[first]].vec, records[index[last]].vec), last, UINT_MAX, false);
        KeptValid(d, s, State());
        o := Pass;
      } else {
        o := SplitStep(first, last);
      }
    }

    /**
     * Lines 36-129 as seen from the fields: the pivot choice replaces
     * `index` (the swap, `std::sort` or `nth_element`) and takes its
     * draws; the records are not touched.
     */
    method Rearrange(newIndex: seq<nat>, newDraws: nat)
      modifies this
      ensures index == newIndex && draws == newDraws
      ensures records == old(records) && blockadeElements == old(blockadeElements) && FileKept()
    {
      index, draws := newIndex, newDraws;
    }

    /**
     * Lines 130-138: the pivot listed at `first` gets the distance to the
     * record listed at `median` as its radius and its two children; on the
     * balanced path with a blockade, `(index[root], radius)` is recorded.
     */
    method LinkPivot(first: nat, last: nat, root: nat, median: nat)
      requires mapped && Bounded(State()) && first < last < |index| && root < |index| && median < |index|
      modifies this
      ensures State() == Linking(Cfg(), old(State()), first, last, root,
                                 ker(old(records)[old(index)[first]].vec, old(records)[old(index)[median]].vec))
      ensures FileKept()
    {
      var radius := ker(records[index[first]].vec, records[index[median]].vec);
      UpdateNode(index[first], radius, first + 1, (first + last) / 2 + 1, false);
      if DoBalanced(Cfg(), first, last) && blockade != -1 {
        blockadeElements := blockadeElements + [BlockadeElement(index[root], radius)];
      }
    }

    /** Lines 36-138: the pivot choice, then, when a usable median was assigned, the pivot's link. */
    method PivotStep(first: nat, last: nat) returns (c: Choice)
      requires Indexed() && first + 2 <= last < |index|
      modifies this
      ensures c == Choose(Cfg(), old(State()), first, last)
      ensures State() == Pivoting(Cfg(), old(State()), first, last)
      ensures Indexed() && FileKept()
    {
      ghost var s := State();
      PivotingValid(Cfg(), s, first, last);
      c := Choose(Cfg(), State(), first, last);
      Rearrange(c.index, c.draws);
      if c.outcome.Pass? {
        LinkPivot(first, last, c.root, Median(Cfg(), first, last).value);
      }
    }

    /** Lines 36-143: a range of three or more records. */
    method SplitStep(first: nat, last: nat) returns (o: Outcome<VPError>)
      requires Indexed() && first + 2 <= last < |index|
      modifies this
      ensures State() == Split(Cfg(), old(State()), first, last).state
      ensures o == Split(Cfg(), old(State()), first, last).outcome
      ensures Indexed() && FileKept()
      decreases last - first, 1
    {
      var c := PivotStep(first, last);
      if c.outcome.Fail? {
        return c.outcome;
      }
      o := HalvesStep(first, last);
    }

    /** Lines 140-143: `[first + 1, mid]`, then `[mid + 1, last]`; a failing left half ends the build. */
    method HalvesStep(first: nat, last: nat) returns (o: Outcome<VPError>)
      requires Indexed() && first + 2 <= last < |index|
      modifies this
      ensures State() == Halves(Cfg(), old(State()), first, last).state
      ensures o == Halves(Cfg(), old(State()), first, last).outcome
      ensures Indexed() && FileKept()
      decreases last - first, 0
    {
      var rc := (first + last) / 2 + 1;
      o := RecursiveRestructTree(first + 1, rc - 1);
      if o.Pass? {
        o := RecursiveRestructTree(rc, last);
      }
    }

    /**
     * `restruct_index(b2)`: after writing, maps the log, builds the whole
     * range `[0, idx - 1]`, then for every logical position `i` records
     * `indexMemory[id] = i` for the id of the record there and appends a
     * copy of that record to `b2`; the words of `indexMemory` are returned
     * as `idxWords` (the `_idx` file).
     */
    method RestructIndex(b2: DiskVP) returns (o: Outcome<VPError>, idxWords: seq<nat>)
      requires b2 != this && Appending() && b2.Writing() && b2.d <= d
      modifies this, b2
      ensures !old(startToWrite) ==> o == Pass && unchanged(this) && unchanged(b2)
      ensures old(startToWrite) && old(idx) == 0 ==> o == Fail(EmptyFile)
      ensures old(startToWrite) && old(idx) > 0 ==>
        var r := Restruct(Cfg(), old(State()), 0, old(idx) - 1);
        State() == r.state && Indexed() &&
        (r.outcome.Fail? ==> o == r.outcome) &&
        (r.outcome.Pass? ==> (o.Pass? <==> forall j :: 0 <= j < idx ==> Ids(records, index)[j] < idx))
      ensures o.Pass? && old(startToWrite) ==>
        Indexed() && b2.Mapped() &&
        b2.records == old(b2.records) + Clipped(Logical(records, index, idx), b2.d) &&
        idxWords == Written(Ids(records, index), idx, idx)
    {
      if !startToWrite {
        return Pass, [];
      }
      FinaliseFile();
      IotaValid(d, records, blockadeElements, draws);
      if idx == 0 {
        return Fail(EmptyFile), [];
      }
      o := RecursiveRestructTree(0, idx - 1);
      if o.Fail? {
        return o, [];
      }
      o, idxWords := CopyOut(b2, records, index);
    }

    /**
     * Lines 243-248 of `restruct_index`: for every logical position `i`,
     * `indexMemory[id] = i` for the id of the record there, and a copy of
     * that record is appended to `b2`; an id past the file (a write past
     * `indexMemory`) stops the copy. Then `b2` is finalised.
     */
    static method CopyOut(b2: DiskVP, recs: seq<Record>, ix: seq<nat>) returns (o: Outcome<VPError>, idxWords: seq<nat>)
      requires 0 < |ix| && forall j :: 0 <= j < |ix| ==> ix[j] < |recs|
      requires (forall j :: 0 <= j < |recs| ==> b2.d <= |recs[j].vec|) && b2.Writing()
      modifies b2
      ensures o.Pass? <==> forall j :: 0 <= j < |ix| ==> Ids(recs, ix)[j] < |ix|
      ensures o.Fail? ==> o == Fail(IdOutOfRange)
      ensures o.Pass? ==>
        b2.records == old(b2.records) + Clipped(Logical(recs, ix, |ix|), b2.d) &&
        idxWords == Written(Ids(recs, ix), |ix|, |ix|) && b2.Mapped()
    {
      var ok, written := CopyLoop(b2, recs, ix);
      IdsBelowAll(recs, ix, |ix|, |ix|);
      if !ok {
        return Fail(IdOutOfRange), written;
      }
      CopiesPrefix(recs, ix, b2.d, |ix|);
      assert Clipped(Logical(recs, ix, |ix|), b2.d)[..|ix|] == Clipped(Logical(recs, ix, |ix|), b2.d);
      b2.FinaliseFile();
      o, idxWords := Pass, written;
    }

    /** One pass of the copy loop: the record at logical position `i` is appended to `b2`, clipped to its dimension. */
    static method CopyRecord(b2: DiskVP, recs: seq<Record>, ix: seq<nat>, i: nat, ghost before: seq<Record>)
      requires i < |ix| && forall j :: 0 <= j < |ix| ==> ix[j] < |recs|
      requires (forall j :: 0 <= j < |recs| ==> b2.d <= |recs[j].vec|) && b2.Writing()
      requires b2.records == before + Copies(recs, ix, b2.d, i)
      modifies b2
      ensures b2.Writing() && b2.startToWrite
      ensures b2.records == before + Copies(recs, ix, b2.d, i + 1)
    {
      b2.WriteRecordToDisk(recs[ix[i]].header, recs[ix[i]].vec);
    }

    /**
     * The loop itself: it runs to the end exactly when every id listed is
     * below the record count, and then `b2` holds the copies in logical
     * order and `written` the logical position of every id.
     */
    static method CopyLoop(b2: DiskVP, recs: seq<Record>, ix: seq<nat>) returns (ok: bool, written: seq<nat>)
      requires forall j :: 0 <= j < |ix| ==> ix[j] < |recs|
      requires (forall j :: 0 <= j < |recs| ==> b2.d <= |recs[j].vec|) && b2.Writing()
      modifies b2
      ensures ok <==> IdsBelow(recs, ix, |ix|, |ix|)
      ensures b2.Writing() && (ok && 0 < |ix| ==> b2.startToWrite)
      ensures ok ==> b2.records == old(b2.records) + Copies(recs, ix, b2.d, |ix|)
      ensures ok ==> written == Written(Ids(recs, ix), |ix|, |ix|)
    {
      var n := |ix|;
      ghost var ids := Ids(recs, ix);
      written := ZeroWords(n);
      var i := 0;
      while i < n && recs[ix[i]].header.id < n
        invariant 0 <= i <= n
        invariant IdsBelow(recs, ix, n, i)
        invariant written == Written(ids, n, i)
        invariant b2.Writing() && (0 < i ==> b2.startToWrite)
        invariant b2.records == old(b2.records) + Copies(recs, ix, b2.d, i)
      {
        written := written[recs[ix[i]].header.id := i];
        CopyRecord(b2, recs, ix, i, old(b2.records));
        i := i + 1;
      }
      ok := i == n;
      if !ok {
        IdsBelowAll(recs, ix, n, n);
        assert ids[i] == recs[ix[i]].header.id;
      }
    }

    /**
     * The id-seeded search constructors (src/vptree/DiskVP.cpp:148-151,
     * 156-159): the id is mapped through the `_idx` words and the query is
     * the vector of the record found there; `getPTR` gives null before
     * anything was written, and a word past the file has no record.
     */
    function SeededQuery(id: nat): (q: Option<seq<real>>)
      reads this
      requires id < |idxFile|
      ensures q.Some? <==> startToWrite && idxFile[id] < |records|
      ensures q.Some? ==> q.value == records[idxFile[id]].vec
    {
      if startToWrite && idxFile[id] < |records| then Some(records[idxFile[id]].vec) else None
    }
  }
}

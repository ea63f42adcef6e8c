/**
 * The disk-resident BK-tree (include/bktree/BKTreeDisk.h and
 * src/bktree/BKTreeDisk.cpp): a bump allocator of fixed-size node blocks, a
 * primary index from object ids to blocks, a roots table, and the insertion
 * engine with its pending queue.
 *
 * The three mapped files are arrays: the block area of the tree file
 * (`blocks`, block `k` at byte offset `EntryNodeBlock(header, k)`), the
 * primary index (`primary`) and the roots table (`roots`, count in slot 0).
 * Child slots, roots and primary records hold byte offsets, as on disk.
 */
module BKTree {
  import opened Wrappers
  import opened Machine
  import opened BKLayout
  import opened BKDistance

  /** A deferred insertion: object id, the bytes behind the datum pointer, and the length to copy. */
  datatype Pending = Pending(id: nat, datum: seq<byte>, len: int)

  /** Where the walk from a block for a datum ends. */
  datatype Landing =
    | Match(k: nat)              // block `k` is at distance 0
    | Vacant(k: nat, slot: nat)  // block `k` has no child at distance `slot`
    | Beyond                     // the datum is too far from some block on the path

  /** The block a fresh allocation writes: the id, the first `len` datum bytes, everything else still zero. */
  function NewBlock(h: BKTreeHeader, id: nat, datum: seq<byte>, len: nat): (b: Block)
    requires len <= h.dataValueStorageSize && len <= |datum|
    ensures WellSized(h, b)
    ensures b.objectId == id && b.datum[..len] == datum[..len]
    ensures forall i :: len <= i < h.dataValueStorageSize ==> b.datum[i] == 0
    ensures forall j :: 0 <= j < h.maximumDiscreteDistance ==> b.children[j] == 0
  {
    Block(id, datum[..len] + Zeros(h.dataValueStorageSize - len), ZeroWords(h.maximumDiscreteDistance))
  }

  /** How a block came to be in the tree: as the root in table slot `slot`, or as child `slot` of block `parent`. */
  datatype Via = ViaRoot(slot: nat) | ViaChild(parent: nat, slot: nat)

  /** A snapshot of the mapped files: header, bump cursor, block area, primary index, roots table. */
  datatype Files = Files(header: BKTreeHeader, used: nat, blocks: seq<Block>, primary: seq<PrimaryIndexInformation>, roots: seq<nat>)

  class BKTreeDisk {
    var header: BKTreeHeader
    const blocks: array<Block>
    const primary: array<PrimaryIndexInformation>
    const roots: array<nat>
    var Q: seq<Pending>
    var missingValues: nat
    /** Number of blocks handed out by the bump allocator. */
    ghost var used: nat
    /** For each block handed out, the link that made it part of the tree. */
    ghost var via: seq<Via>

    /** `off` is the offset of an used block. */
    ghost predicate IsUsedOffset(off: nat)
      reads this`header, this`used
    {
      IsBlockOffset(header, off) && BlockIndex(header, off) < used
    }

    /** The block area and the primary index are consistent with the bump cursor. */
    ghost predicate Shape()
      reads this`header, this`used, blocks, primary
    {
      && blocks.Length == header.totalNodeSize
      && primary.Length == PrimaryCapacity(header.totalNodeSize)
      && used <= blocks.Length
      && header.lastFreeOffsetPointer == EntryNodeBlock(header, used)
      && (forall k :: 0 <= k < blocks.Length ==> WellSized(header, blocks[k]))
      && (forall k :: used <= k < blocks.Length ==> blocks[k] == EmptyBlock(header))
      // a child block is always used after its parent
      && (forall k, j :: 0 <= k < used && 0 <= j < header.maximumDiscreteDistance && blocks[k].children[j] != 0 ==>
            IsUsedOffset(blocks[k].children[j]) && k < BlockIndex(header, blocks[k].children[j]))
      // a non-zero primary record points at a block holding that object id
      && (forall id :: 0 <= id < primary.Length && primary[id].bkTreeDiskOffset != 0 ==>
            IsUsedOffset(primary[id].bkTreeDiskOffset) &&
            blocks[BlockIndex(header, primary[id].bkTreeDiskOffset)].objectId == id)
    }

    /** The roots table lists `roots[0]` used blocks, and there is a root as soon as there is a block. */
    ghost predicate RootsTable()
      reads this`header, this`used, roots
    {
      && roots.Length == header.totalNodeSize + 1
      && roots[0] <= used <= header.totalNodeSize
      && (roots[0] == 0 <==> used == 0)
      && (forall i :: 1 <= i <= roots[0] ==> IsUsedOffset(roots[i]))
    }

    /** A pending insertion that the source can carry out: its id has a primary record, its bytes fit a block. */
    ghost predicate Admissible(p: Pending)
      reads this`header
    {
      p.id < primary.Length && 0 <= p.len <= header.dataValueStorageSize && p.len <= |p.datum|
    }

    /** Block `k` is the root in table slot `i`. */
    ghost predicate RootIn(k: nat, i: nat)
      reads this`header, roots
    {
      1 <= i < roots.Length && i <= roots[0] && roots[i] == EntryNodeBlock(header, k)
    }

    /** Child slot `d` of block `j` links to block `k`. */
    ghost predicate ChildIn(j: nat, d: nat, k: nat)
      reads this`header, blocks
    {
      j < blocks.Length && d < |blocks[j].children| && blocks[j].children[d] == EntryNodeBlock(header, k)
    }

    /** `v` links block `k` into the tree: a root slot naming it, or a child slot of an earlier block. */
    ghost predicate Linked(k: nat, v: Via)
      reads this`header, blocks, roots
    {
      match v
        case ViaRoot(i) => RootIn(k, i)
        case ViaChild(j, d) => j < k && ChildIn(j, d, k)
    }

    /** Every block handed out is a root, or the child of an earlier block. */
    ghost predicate Rooted()
      reads this`header, this`used, this`via, blocks, roots
    {
      |via| == used && forall k :: 0 <= k < |via| ==> Linked(k, via[k])
    }

    /**
     * Appending the link of one new block keeps the tree rooted when the
     * older roots and blocks still carry their links.
     */
    twostate lemma RootedGrows()
      requires old(Rooted()) && |via| == used == old(used) + 1 && via[..old(used)] == old(via)
      requires Linked(old(used), via[old(used)])
      requires EntryBlockRecordSize(header) == EntryBlockRecordSize(old(header))
      requires 0 < roots.Length && old(roots[0]) <= roots[0]
      requires forall i :: 1 <= i <= old(roots[0]) && i < roots.Length ==> roots[i] == old(roots[i])
      // every link an older block had is still there
      requires forall j, d ::
                 (0 <= j < old(used) && j < blocks.Length && 0 <= d < |old(blocks[j].children)| && old(blocks[j].children[d]) != 0)
                 ==> d < |blocks[j].children| && blocks[j].children[d] == old(blocks[j].children[d])
      ensures Rooted()
    {
      forall k | 0 <= k < |via| ensures Linked(k, via[k]) {
        if k < old(used) {
          assert via[k] == old(via[k]);
          assert old(Linked(k, via[k]));
        }
      }
    }

    ghost predicate Valid()
      reads this`header, this`used, this`via, this`Q, blocks, primary, roots
    {
      Shape() && RootsTable() && Rooted() && forall p :: p in Q ==> Admissible(p)
    }

    /**
     * `createNewDiskFile`: sizes the three files for `maximumNodeSize` objects
     * (zero-filled) and writes the header with the cursor just past it.
     */
    constructor CreateNewDiskFile(maximumNodeSize: nat, maximumDataStorage: nat,
                                  distanceMethod: nat, maximumDiscreteDistance: nat)
      ensures Valid() && Q == [] && missingValues == 0 && used == 0
      ensures header == BKTreeHeader(maximumNodeSize, maximumDataStorage, distanceMethod,
                                     maximumDiscreteDistance, HEADER_SIZE)
      ensures TreeFileSize(header) == HEADER_SIZE + blocks.Length * EntryBlockRecordSize(header)
      ensures primary.Length == PrimaryFileSize(maximumNodeSize) / PRIMARY_RECORD_SIZE
      ensures roots.Length == RootsFileSize(maximumNodeSize) / WORD
      ensures forall k :: 0 <= k < blocks.Length ==> blocks[k] == EmptyBlock(header)
      ensures forall i :: 0 <= i < primary.Length ==> primary[i] == PrimaryIndexInformation(0, 0)
      ensures forall i :: 0 <= i < roots.Length ==> roots[i] == 0
    {
      var h := BKTreeHeader(maximumNodeSize, maximumDataStorage, distanceMethod,
                            maximumDiscreteDistance, HEADER_SIZE);
      header := h;
      blocks := new Block[maximumNodeSize](_ => EmptyBlock(h));
      primary := new PrimaryIndexInformation[PrimaryCapacity(maximumNodeSize)](_ => PrimaryIndexInformation(0, 0));
      roots := new nat[maximumNodeSize + 1](_ => 0);
      Q := [];
      missingValues := 0;
      used := 0;
      via := [];
      new;
      assert EntryNodeBlock(h, 0) == HEADER_SIZE;
    }

    /**
     * `resolveObjectIdToBKTreeEntry`: the block recorded for `id`, or nothing
     * when its primary record is still the zero "absent" marker.
     */
    function ResolveObjectIdToBKTreeEntry(id: nat): (r: Option<nat>)
      requires Valid() && id < primary.Length
      reads this`header, this`used, this`via, this`Q, blocks, primary, roots
      ensures r.None? <==> primary[id].bkTreeDiskOffset == 0
      ensures r.Some? ==> IsUsedOffset(r.value) && blocks[BlockIndex(header, r.value)].objectId == id
    {
      if primary[id].bkTreeDiskOffset == 0 then None else Some(primary[id].bkTreeDiskOffset)
    }

    /**
     * `allocateNewNodeEntry`: hands out the block at the bump cursor, writes
     * the id and the first `len` datum bytes into it, advances the cursor by
     * one record and points the primary record of `id` at the block.
     */
    method AllocateNewNodeEntry(id: nat, datum: seq<byte>, len: int) returns (newNodeOffset: nat)
      requires Shape() && used < blocks.Length && Admissible(Pending(id, datum, len))
      modifies this, blocks, primary
      ensures Shape()
      ensures newNodeOffset == old(header.lastFreeOffsetPointer) == EntryNodeBlock(header, old(used))
      ensures header == old(header).(lastFreeOffsetPointer := newNodeOffset + EntryBlockRecordSize(header))
      ensures used == old(used) + 1
      ensures blocks[old(used)] == NewBlock(header, id, datum, len)
      ensures forall k :: 0 <= k < blocks.Length && k != old(used) ==> blocks[k] == old(blocks[k])
      ensures primary[id] == old(primary[id]).(bkTreeDiskOffset := newNodeOffset)
      ensures forall i :: 0 <= i < primary.Length && i != id ==> primary[i] == old(primary[i])
      ensures Q == old(Q) && missingValues == old(missingValues) && via == old(via)
    {
      newNodeOffset := header.lastFreeOffsetPointer;
      var k := BlockIndex(header, newNodeOffset);
      // the block is still zero-filled: only the id and the datum prefix are written
      blocks[k] := blocks[k].(objectId := id, datum := datum[..len] + blocks[k].datum[len..]);
      EntryNodeBlockOrder(header, used, used + 1);
      header := header.(lastFreeOffsetPointer := EntryBlockRecordSize(header) + newNodeOffset);
      primary[id] := primary[id].(bkTreeDiskOffset := newNodeOffset);
      used := used + 1;
    }

    /**
     * `addRoot`: bumps the root count, allocates the block and records its
     * offset in the new last slot of the roots table; earlier roots stay.
     */
    method AddRoot(id: nat, datum: seq<byte>, len: int) returns (off: nat)
      requires Valid() && used < blocks.Length && Admissible(Pending(id, datum, len))
      modifies this, blocks, primary, roots
      ensures Valid()
      ensures off == old(header.lastFreeOffsetPointer) == EntryNodeBlock(header, old(used))
      ensures header == old(header).(lastFreeOffsetPointer := off + EntryBlockRecordSize(header))
      ensures used == old(used) + 1
      ensures blocks[old(used)] == NewBlock(header, id, datum, len)
      ensures forall k :: 0 <= k < blocks.Length && k != old(used) ==> blocks[k] == old(blocks[k])
      ensures primary[id] == old(primary[id]).(bkTreeDiskOffset := off)
      ensures forall i :: 0 <= i < primary.Length && i != id ==> primary[i] == old(primary[i])
      ensures roots[0] == old(roots[0]) + 1 && roots[roots[0]] == off
      ensures forall i :: 1 <= i <= old(roots[0]) ==> roots[i] == old(roots[i])
      ensures Q == old(Q) && missingValues == old(missingValues)
      ensures ResolveObjectIdToBKTreeEntry(id) == Some(off)
    {
      roots[0] := roots[0] + 1;
      off := AllocateNewNodeEntry(id, datum, len);
      roots[roots[0]] := off;
      via := via + [ViaRoot(roots[0])];
      RootedGrows();
    }

    /** The discrete distance from the datum of block `k` to `x` (`calculate_distance_with_Block`). */
    ghost function DistanceToBlock(k: nat, x: seq<byte>): nat
      requires k < blocks.Length
      reads this`header, blocks
    {
      Distance(header.distanceMethod, blocks[k].datum, x)
    }

    /**
     * The descent of `add` from block `k`: stop at a block at distance 0, at
     * an empty child slot for the distance, or when the distance reaches
     * `maximumDiscreteDistance`; otherwise continue in the child.
     */
    ghost function Walk(k: nat, x: seq<byte>): (l: Landing)
      requires Shape() && k < used
      reads this`header, this`used, blocks, primary
      ensures l.Match? ==> k <= l.k < used && DistanceToBlock(l.k, x) == 0
      ensures l.Vacant? ==> k <= l.k < used && l.slot == DistanceToBlock(l.k, x) &&
                            1 <= l.slot < header.maximumDiscreteDistance && blocks[l.k].children[l.slot] == 0
      decreases used - k
    {
      var distance := DistanceToBlock(k, x);
      if distance == 0 then Match(k)
      else if distance < header.maximumDiscreteDistance then
        var child := blocks[k].children[distance];
        if child == 0 then Vacant(k, distance) else Walk(BlockIndex(header, child), x)
      else Beyond
    }

    /**
     * The root scan of `add`: roots `i`, `i - 1`, ..., 0 (table slots `i + 1`
     * down to 1), newest first; with `lastOnly` only the first one is tried.
     */
    ghost function Scan(i: int, x: seq<byte>, lastOnly: bool): (l: Landing)
      requires Shape() && RootsTable() && -1 <= i < roots[0]
      reads this`header, this`used, blocks, primary, roots
      ensures l.Match? ==> l.k < used && DistanceToBlock(l.k, x) == 0
      ensures l.Vacant? ==> l.k < used && l.slot == DistanceToBlock(l.k, x) &&
                            1 <= l.slot < header.maximumDiscreteDistance && blocks[l.k].children[l.slot] == 0
      decreases i + 1
    {
      if i < 0 then Beyond
      else
        var l := Walk(BlockIndex(header, roots[i + 1]), x);
        if !l.Beyond? || lastOnly then l else Scan(i - 1, x, lastOnly)
    }

    /** Nothing in the three mapped files, the cursor or the queue changed. */
    twostate predicate FilesUnchanged()
      reads this, blocks, primary, roots
    {
      unchanged(this, blocks, primary, roots)
    }

    /** The header, the cursor and the three mapped files are as before; the queue may differ. */
    twostate predicate TreeUnchanged()
      reads this, blocks, primary, roots
    {
      header == old(header) && used == old(used) && unchanged(blocks, primary, roots)
    }

    /** An unchanged tree has an unchanged snapshot. */
    twostate lemma SnapUnchanged()
      requires TreeUnchanged()
      ensures Snap() == old(Snap())
    {
      assert blocks[..] == old(blocks[..]);
      assert primary[..] == old(primary[..]);
      assert roots[..] == old(roots[..]);
    }

    /** The tree has a root, and the root scan for `x` (newest root only under `lastOnly`) finds no place. */
    ghost predicate Refuses(x: seq<byte>, lastOnly: bool)
      requires Shape() && RootsTable()
      reads this`header, this`used, blocks, primary, roots
    {
      0 < roots[0] && Scan(roots[0] - 1, x, lastOnly).Beyond?
    }

    /** A tree left as it was refuses what it refused. */
    twostate lemma StillRefused()
      requires old(Shape() && RootsTable()) && Shape() && RootsTable() && TreeUnchanged()
      ensures forall x, lastOnly :: old(Refuses(x, lastOnly)) ==> Refuses(x, lastOnly)
    {
    }

    /** Block `k` holds the object of `p` (its id and datum bytes), or a datum at distance 0 from it. */
    ghost predicate PlacedAt(k: nat, p: Pending)
      requires k < blocks.Length
      reads this`header, blocks
    {
      || (&& blocks[k].objectId == p.id && 0 <= p.len <= |p.datum| && p.len <= |blocks[k].datum|
          && blocks[k].datum[..p.len] == p.datum[..p.len])
      || DistanceToBlock(k, p.datum) == 0
    }

    /** Some used block holds `p`'s object or matches its datum: the object is represented in the tree. */
    ghost predicate Placed(p: Pending)
      reads this`header, this`used, blocks
    {
      exists k :: 0 <= k < used && k < blocks.Length && PlacedAt(k, p)
    }

    /** Some slot of the roots table names block `k`. */
    ghost predicate IsRoot(k: nat)
      reads this`header, roots
    {
      exists i :: RootIn(k, i)
    }

    /** Some child slot of block `j` links to block `k`. */
    ghost predicate ChildOf(j: nat, k: nat)
      reads this`header, blocks
    {
      exists d :: ChildIn(j, d, k)
    }

    /** `path` starts at a root and each next block hangs from a child slot of the one before. */
    ghost predicate LinkPath(path: seq<nat>)
      reads this`header, blocks, roots
    {
      path != [] && IsRoot(path[0]) && forall n :: 0 <= n < |path| - 1 ==> ChildOf(path[n], path[n + 1])
    }

    /** A path extends by a child of its last block. */
    lemma LinkPathSnoc(path: seq<nat>, k: nat)
      requires LinkPath(path) && ChildOf(path[|path| - 1], k)
      ensures LinkPath(path + [k])
    {
      var ext := path + [k];
      forall n | 0 <= n < |ext| - 1 ensures ChildOf(ext[n], ext[n + 1]) {
        if n < |path| - 1 {
          assert ext[n] == path[n] && ext[n + 1] == path[n + 1];
        }
      }
    }

    /** The blocks on the child-link path from a root down to block `k`. */
    ghost function PathTo(k: nat): (path: seq<nat>)
      requires Rooted() && k < used
      reads this`header, this`used, this`via, blocks, roots
      ensures LinkPath(path) && path[|path| - 1] == k
      ensures forall n :: 0 <= n < |path| ==> path[n] <= k
      decreases k
    {
      assert Linked(k, via[k]);
      match via[k]
        case ViaRoot(i) =>
          assert RootIn(k, i);
          [k]
        case ViaChild(j, d) =>
          var prefix := PathTo(j);
          assert ChildIn(j, d, k);
          LinkPathSnoc(prefix, k);
          prefix + [k]
    }

    /** A descent along child links from some root reaches a block holding `p`. */
    ghost predicate Reached(p: Pending)
      reads this`header, this`used, blocks, roots
    {
      exists path :: LinkPath(path) && path[|path| - 1] < used && path[|path| - 1] < blocks.Length &&
                     PlacedAt(path[|path| - 1], p)
    }

    /** In a rooted tree every object held by a block is reached from a root. */
    lemma PlacedReached(p: Pending)
      requires Rooted() && Placed(p)
      ensures Reached(p)
    {
      var k :| 0 <= k < used && k < blocks.Length && PlacedAt(k, p);
      var path := PathTo(k);
      assert path[|path| - 1] == k;
    }

    /** The contents of the three mapped files and the bump cursor. */
    ghost function Snap(): (f: Files)
      reads this`header, this`used, blocks, primary, roots
      ensures f.header == header && f.used == used
      ensures f.blocks == blocks[..] && f.primary == primary[..] && f.roots == roots[..]
    {
      Files(header, used, blocks[..], primary[..], roots[..])
    }

    /**
     * The files after a new block for the object became the child of block
     * `k` at distance `slot`, relative to the files `f` before: the cursor
     * advanced by one block, the new block and the parent's slot were
     * written, the primary record of `id` names the block and the parent's
     * object id, and nothing else changed.
     */
    ghost predicate Attached(k: nat, slot: nat, r: Option<nat>, id: nat, datum: seq<byte>, len: int, f: Files)
      reads this`header, this`used, blocks, primary, roots
    {
      && |f.blocks| == blocks.Length && |f.primary| == primary.Length
      && k < f.used < blocks.Length && slot < |f.blocks[k].children| && id < primary.Length
      && 0 <= len <= header.dataValueStorageSize && len <= |datum|
      && r == Some(f.header.lastFreeOffsetPointer)
      && header == f.header.(lastFreeOffsetPointer := r.value + EntryBlockRecordSize(header))
      && used == f.used + 1
      && blocks[f.used] == NewBlock(header, id, datum, len)
      && blocks[k] == f.blocks[k].(children := f.blocks[k].children[slot := r.value])
      && (forall j :: 0 <= j < blocks.Length && j != k && j != f.used ==> blocks[j] == f.blocks[j])
      && primary[id] == PrimaryIndexInformation(r.value, f.blocks[k].objectId)
      && (forall i :: 0 <= i < primary.Length && i != id ==> primary[i] == f.primary[i])
      && roots[..] == f.roots
    }

    /** What one landing does to the files `f` as they were before the insertion. */
    ghost predicate Landed(l: Landing, r: Option<nat>, id: nat, datum: seq<byte>, len: int, f: Files)
      reads this`header, this`used, blocks, primary, roots
    {
      match l
        case Match(k) =>
          r == Some(EntryNodeBlock(header, k)) && Snap() == f
        case Vacant(k, slot) =>
          Attached(k, slot, r, id, datum, len, f)
        case Beyond =>
          r == None && Snap() == f
    }

    /**
     * The insertion step of the descent: a new block for the object becomes
     * the child of block `k` at distance `slot`, and its primary record
     * remembers the parent's object id.
     */
    method Attach(k: nat, slot: nat, id: nat, datum: seq<byte>, len: int) returns (off: nat)
      requires Valid() && used < blocks.Length && Admissible(Pending(id, datum, len))
      requires k < used && 1 <= slot < header.maximumDiscreteDistance && blocks[k].children[slot] == 0
      modifies this, blocks, primary
      ensures Valid() && Q == old(Q) && missingValues == old(missingValues)
      ensures Landed(Vacant(k, slot), Some(off), id, datum, len, old(Snap()))
    {
      var parentId := blocks[k].objectId;
      off := AllocateNewNodeEntry(id, datum, len);
      blocks[k] := blocks[k].(children := blocks[k].children[slot := off]);
      primary[id] := primary[id].(parentOffset := parentId);
      via := via + [ViaChild(k, slot)];
      RootedGrows();
    }

    /**
     * The do-while descent of the private `add` from the root at offset
     * `root`: it carries out `Walk` from that block.
     */
    method Descend(root: nat, id: nat, datum: seq<byte>, len: int) returns (r: Option<nat>)
      requires Valid() && used < blocks.Length && Admissible(Pending(id, datum, len)) && IsUsedOffset(root)
      modifies this, blocks, primary
      ensures Valid() && Q == old(Q) && missingValues == old(missingValues)
      ensures Landed(old(Walk(BlockIndex(header, root), datum)), r, id, datum, len, old(Snap()))
      ensures r.None? <==> old(Walk(BlockIndex(header, root), datum)).Beyond?
      ensures r.None? ==> FilesUnchanged()
    {
      ghost var target := Walk(BlockIndex(header, root), datum);
      var node := root;
      while true
        invariant Valid() && FilesUnchanged() && Q == old(Q) && missingValues == old(missingValues)
        invariant IsUsedOffset(node)
        invariant Walk(BlockIndex(header, node), datum) == target
        decreases used - BlockIndex(header, node)
      {
        var k := BlockIndex(header, node);
        BlockOffsetRoundTrip(header, node);
        var distance := CalculateDistance(header.distanceMethod, blocks[k].datum, datum);
        if distance == 0 {
          assert target == Match(k);
          return Some(node);
        } else if distance < header.maximumDiscreteDistance {
          if blocks[k].children[distance] == 0 {
            assert target == Vacant(k, distance);
            assert Snap() == old(Snap());
            var off := Attach(k, distance, id, datum, len);
            return Some(off);
          } else {
            node := blocks[k].children[distance];
          }
        } else {
          assert target == Beyond;
          return None;
        }
      }
    }

    /**
     * The root loop of the private `add` on a non-empty tree: the descent
     * from each root, newest first, until one accepts the object (only the
     * newest when `doLastRoot`); it carries out `Scan`.
     */
    method ScanRoots(id: nat, datum: seq<byte>, len: int, doLastRoot: bool) returns (r: Option<nat>)
      requires Valid() && 0 < used < blocks.Length && Admissible(Pending(id, datum, len))
      modifies this, blocks, primary
      ensures Valid() && Q == old(Q) && missingValues == old(missingValues)
      ensures Landed(old(Scan(roots[0] - 1, datum, doLastRoot)), r, id, datum, len, old(Snap()))
      ensures r.None? ==> FilesUnchanged()
    {
      ghost var target := Scan(roots[0] - 1, datum, doLastRoot);
      var i: int := roots[0] - 1;
      while i >= 0
        invariant -1 <= i < roots[0]
        invariant FilesUnchanged()
        invariant doLastRoot ==> i == roots[0] - 1
        invariant Scan(i, datum, doLastRoot) == target
      {
        ghost var l := Walk(BlockIndex(header, roots[i + 1]), datum);
        ghost var rest := Scan(i - 1, datum, doLastRoot);
        assert target == if !l.Beyond? || doLastRoot then l else rest;
        r := Descend(roots[i + 1], id, datum, len);
        if r.Some? {
          return;
        }
        assert l == Beyond;
        if doLastRoot {
          break;
        }
        assert Scan(i - 1, datum, doLastRoot) == rest;
        i := i - 1;
      }
      r := None;
    }

    /**
     * The private `add(id, datum, len, Q, doLastRoot)`. The first object of an
     * empty tree becomes its sole root. Otherwise the roots are scanned
     * newest first: a block at distance 0 is returned as it is; an empty child
     * slot at distance `1 <= d < maximumDiscreteDistance` receives a new block
     * whose primary record names the parent's object id; when no root accepts
     * the object it is appended to the queue `q` and nothing is returned.
     */
    method Place(id: nat, datum: seq<byte>, len: int, q: seq<Pending>, doLastRoot: bool)
      returns (r: Option<nat>, q': seq<Pending>)
      requires Valid() && used < blocks.Length && Admissible(Pending(id, datum, len))
      modifies this, blocks, primary, roots
      ensures Valid() && Q == old(Q) && missingValues == old(missingValues)
      ensures header.dataValueStorageSize == old(header.dataValueStorageSize)
      ensures header.distanceMethod == old(header.distanceMethod)
      ensures used >= old(used) && used + |q'| <= old(used) + |q| + 1
      ensures r.None? <==> q' == q + [Pending(id, datum, len)]
      ensures r.Some? ==> q' == q
      ensures forall k :: 0 <= k < old(used) ==>
                blocks[k].objectId == old(blocks[k].objectId) && blocks[k].datum == old(blocks[k].datum)
      ensures roots[0] >= old(roots[0]) && forall i :: 1 <= i <= old(roots[0]) ==> roots[i] == old(roots[i])
      // empty tree: the object becomes the sole root
      ensures old(used) == 0 ==>
                && r == Some(HEADER_SIZE) && used == 1
                && blocks[0] == NewBlock(header, id, datum, len)
                && roots[0] == 1 && roots[1] == HEADER_SIZE
                && primary[id].bkTreeDiskOffset == HEADER_SIZE
      // otherwise the first root that accepts the object, newest first
      ensures old(used) > 0 ==> Landed(old(Scan(roots[0] - 1, datum, doLastRoot)), r, id, datum, len, old(Snap()))
      // an object is either represented in the tree afterwards, or refused by an unchanged tree
      ensures r.Some? ==> Placed(Pending(id, datum, len))
      ensures r.None? ==> TreeUnchanged() && Refuses(datum, doLastRoot)
    {
      if header.lastFreeOffsetPointer == HEADER_SIZE && roots[0] == 0 {
        assert used == 0 by { EntryNodeBlockOrder(header, 0, used); }
        var off := AddRoot(id, datum, len);
        assert PlacedAt(0, Pending(id, datum, len));
        return Some(off), q;
      }
      ghost var target := Scan(roots[0] - 1, datum, doLastRoot);
      ghost var f := Snap();
      r := ScanRoots(id, datum, len, doLastRoot);
      q' := if r.None? then q + [Pending(id, datum, len)] else q;
      match target
      case Match(k) => assert PlacedAt(k, Pending(id, datum, len));
      case Vacant(k, slot) => assert PlacedAt(f.used, Pending(id, datum, len));
      case Beyond =>
    }

    /**
     * The public `add`: the private one on the member queue; a deferred
     * object is counted in `missingValues`.
     */
    method Add(id: nat, datum: seq<byte>, len: int) returns (r: Option<nat>)
      requires Valid() && used < blocks.Length && Admissible(Pending(id, datum, len))
      modifies this, blocks, primary, roots
      ensures Valid()
      ensures r.None? ==> Q == old(Q) + [Pending(id, datum, len)] && missingValues == old(missingValues) + 1
      ensures r.Some? ==> Q == old(Q) && missingValues == old(missingValues)
      ensures used == old(used) || used == old(used) + 1
      ensures forall k :: 0 <= k < old(used) ==>
                blocks[k].objectId == old(blocks[k].objectId) && blocks[k].datum == old(blocks[k].datum)
      ensures header.dataValueStorageSize == old(header.dataValueStorageSize)
      ensures old(used) == 0 ==> r == Some(HEADER_SIZE) && used == 1 && blocks[0] == NewBlock(header, id, datum, len)
      ensures old(used) > 0 ==> Landed(old(Scan(roots[0] - 1, datum, false)), r, id, datum, len, old(Snap()))
      ensures r.Some? ==> IsUsedOffset(r.value) && Placed(Pending(id, datum, len))
      ensures r.None? ==> TreeUnchanged() && Refuses(datum, false)
    {
      var q;
      r, q := Place(id, datum, len, Q, false);
      Requeue(q, r.None?);
    }

    /** The member queue becomes `q`, and a deferred object is counted. */
    method Requeue(q: seq<Pending>, deferred: bool)
      requires Valid() && forall p :: p in q ==> Admissible(p)
      modifies this`Q, this`missingValues
      ensures Valid() && Q == q
      ensures missingValues == old(missingValues) + if deferred then 1 else 0
    {
      Q := q;
      if deferred {
        missingValues := missingValues + 1;
      }
    }

    /**
     * Blocks already handed out keep their object id and datum, the
     * allocator and the roots only grow, and the distance is the same.
     */
    twostate predicate Kept()
      requires old(Valid()) && Valid()
      reads this, blocks, primary, roots
    {
      && used >= old(used) && roots[0] >= old(roots[0])
      && header.dataValueStorageSize == old(header.dataValueStorageSize)
      && header.distanceMethod == old(header.distanceMethod)
      && (forall k :: 0 <= k < old(used) ==>
            blocks[k].objectId == old(blocks[k].objectId) && blocks[k].datum == old(blocks[k].datum))
    }

    /** What `Kept` keeps is enough to keep every object in the tree in the tree. */
    twostate lemma StillPlaced()
      requires old(Valid()) && Valid() && old(used) <= used
      requires header.distanceMethod == old(header.distanceMethod)
      requires forall k :: 0 <= k < old(used) ==>
                 blocks[k].objectId == old(blocks[k].objectId) && blocks[k].datum == old(blocks[k].datum)
      ensures forall p :: old(Placed(p)) ==> Placed(p)
    {
      forall p | old(Placed(p))
        ensures Placed(p)
      {
        var k :| 0 <= k < old(used) && k < blocks.Length && old(PlacedAt(k, p));
        assert PlacedAt(k, p);
      }
    }

    /**
     * One step of the inner loop of `finalise_insertion`: the front of the
     * queue is retried with the private `add`; it is then in the tree, or
     * else the tree, left unchanged, refuses it and it is appended to
     * `refused`. The source pops the front after the `add`; the private
     * `add` does not read `Q`, so popping first has the same effect.
     */
    method RetryFront(refused: seq<Pending>, doLastRoot: bool) returns (r: Option<nat>, refused': seq<Pending>)
      requires Valid() && Q != [] && used + |Q| + |refused| <= blocks.Length
      requires forall p :: p in refused ==> Admissible(p)
      modifies this, blocks, primary, roots
      ensures Valid() && Kept() && Q == old(Q[1..]) && missingValues == old(missingValues)
      ensures r.Some? ==> refused' == refused && Placed(old(Q[0]))
      ensures r.None? ==> refused' == refused + [old(Q[0])] && TreeUnchanged() && Refuses(old(Q[0].datum), doLastRoot)
      ensures used + |refused'| <= old(used) + |refused| + 1
      ensures forall p :: p in refused' ==> Admissible(p)
    {
      var x := Q[0];
      assert x in Q;
      Dequeue();
      r, refused' := Place(x.id, x.datum, x.len, refused, doLastRoot);
    }

    /** The front of the member queue is dropped. */
    method Dequeue()
      requires Valid() && Q != []
      modifies this`Q
      ensures Valid() && Q == old(Q[1..])
    {
      assert forall p :: p in Q[1..] ==> p in Q;
      Q := Q[1..];
    }

    /**
     * The progress of a pass over the queue `q0`: the objects already
     * retried are each in the tree or among `refused`, which keeps their
     * order; while all of them were refused, the files are still `start`
     * and the tree refuses each of them.
     */
    ghost predicate PassSoFar(q0: seq<Pending>, refused: seq<Pending>, start: Files, doLastRoot: bool)
      requires Shape() && RootsTable()
      reads this`header, this`used, this`Q, blocks, primary, roots
    {
      && |Q| <= |q0| && Q == q0[|q0| - |Q|..]
      && Subsequence(refused, q0[..|q0| - |Q|])
      && (forall p :: p in q0[..|q0| - |Q|] ==> Placed(p) || p in refused)
      && (|refused| == |q0| - |Q| ==> Snap() == start && forall p :: p in refused ==> Refuses(p.datum, doLastRoot))
    }

    /** The step of a pass: `RetryFront` advances the pass's progress by one object. */
    method RetryNext(refused: seq<Pending>, doLastRoot: bool, ghost q0: seq<Pending>, ghost start: Files)
      returns (refused': seq<Pending>)
      requires Valid() && Q != [] && used + |Q| + |refused| <= blocks.Length
      requires forall p :: p in refused ==> Admissible(p)
      requires PassSoFar(q0, refused, start, doLastRoot)
      modifies this, blocks, primary, roots
      ensures Valid() && Kept() && Q == old(Q[1..]) && missingValues == old(missingValues)
      ensures PassSoFar(q0, refused', start, doLastRoot)
      ensures used + |refused'| <= old(used) + |refused| + 1
      ensures forall p :: p in refused' ==> Admissible(p)
    {
      ghost var x := Q[0];
      ghost var n := |q0| - |Q|;
      assert Q[1..] == q0[n + 1..];
      var r;
      r, refused' := RetryFront(refused, doLastRoot);
      StillPlaced();
      RefusedSoFar(q0, n, refused, refused', r.Some?);
      if r.None? && |refused| == n {
        SnapUnchanged();
        StillRefused();
      }
    }

    /**
     * One pass of the inner loop of `finalise_insertion`: every queued object
     * is retried in order (only from the newest root when `doLastRoot`); the
     * ones still refused are returned in queue order, every other one is
     * now in the tree, and the queue is left empty. A pass that places
     * nothing leaves the files unchanged, and the tree refuses every object.
     */
    method RetryQueue(doLastRoot: bool) returns (refused: seq<Pending>)
      requires Valid() && used + |Q| <= blocks.Length
      modifies this, blocks, primary, roots
      ensures Valid() && Kept() && Q == [] && missingValues == old(missingValues)
      ensures Subsequence(refused, old(Q))
      ensures forall p :: p in old(Q) ==> Placed(p) || p in refused
      ensures |refused| == |old(Q)| ==> Snap() == old(Snap()) && forall p :: p in refused ==> Refuses(p.datum, doLastRoot)
      ensures used + |refused| <= old(used) + |old(Q)|
      ensures forall p :: p in refused ==> Admissible(p)
    {
      refused := [];
      ghost var q0 := Q;
      ghost var start := Snap();
      assert q0[..0] == [];
      while Q != []
        invariant Valid() && Kept() && missingValues == old(missingValues)
        invariant PassSoFar(q0, refused, start, doLastRoot)
        invariant used + |Q| + |refused| <= old(used) + |q0|
        invariant used + |Q| + |refused| <= blocks.Length
        invariant forall p :: p in refused ==> Admissible(p)
        decreases |Q|
      {
        refused := RetryNext(refused, doLastRoot, q0, start);
      }
      assert q0[..|q0|] == q0;
    }

    /**
     * `finalise_insertion`: the deferred objects are retried until a whole
     * pass places none of them; while some remain, the oldest becomes a new
     * root and the others are retried from that root only. The first round
     * of the source's do-while loop, the one with `firstIteration` set, is
     * the call before the loop. Every deferred object ends up in the tree,
     * on a path of child links from a root, and the queue is empty.
     */
    method FinaliseInsertion()
      requires Valid() && used + |Q| <= blocks.Length
      modifies this, blocks, primary, roots
      ensures Valid() && Kept() && Q == [] && missingValues == old(missingValues)
      ensures used <= old(used) + |old(Q)|
      ensures forall p :: p in old(Q) ==> Placed(p) && Reached(p)
    {
      RetryPasses(false);
      StillPlaced();
      while Q != []
        invariant Valid() && Kept() && missingValues == old(missingValues)
        invariant used + |Q| <= old(used) + |old(Q)| && used + |Q| <= blocks.Length
        invariant forall p :: p in old(Q) ==> Placed(p) || p in Q
        decreases |Q|
      {
        label Promoting:
        PromoteFront();
        StillPlaced@Promoting();
        if Q != [] {
          label Retrying:
          RetryPasses(true);
          StillPlaced@Retrying();
        }
      }
      forall p | p in old(Q) ensures Reached(p) {
        PlacedReached(p);
      }
    }

    /**
     * The inner loop of `finalise_insertion`: passes over the queue are
     * repeated until one of them places nothing. The queue keeps the
     * objects still refused, in their order; every other object is in the
     * tree; and the tree refuses every object left.
     */
    method RetryPasses(doLastRoot: bool)
      requires Valid() && used + |Q| <= blocks.Length
      modifies this, blocks, primary, roots
      ensures Valid() && Kept() && missingValues == old(missingValues)
      ensures used + |Q| <= old(used) + |old(Q)|
      ensures Subsequence(Q, old(Q))
      ensures forall p :: p in old(Q) ==> Placed(p) || p in Q
      ensures forall p :: p in Q ==> Refuses(p.datum, doLastRoot)
    {
      var orig, after;
      SubsequenceRefl(Q);
      while true
        invariant Valid() && Kept() && missingValues == old(missingValues)
        invariant used + |Q| <= old(used) + |old(Q)| && used + |Q| <= blocks.Length
        invariant Subsequence(Q, old(Q))
        invariant forall p :: p in old(Q) ==> Placed(p) || p in Q
        decreases |Q|
      {
        ghost var q := Q;
        orig := |Q|;
        label Pass:
        var refused := RetryQueue(doLastRoot);
        StillPlaced@Pass();
        after := |refused|;
        Q := refused;
        SubsequenceTrans(Q, q, old(Q));
        if orig == after {
          break;
        }
      }
    }

    /** The new-root step of `finalise_insertion`: the front of the queue becomes a new root and leaves the queue. */
    method PromoteFront()
      requires Valid() && Q != [] && used + |Q| <= blocks.Length
      modifies this, blocks, primary, roots
      ensures Valid() && Kept() && Q == old(Q[1..]) && missingValues == old(missingValues)
      ensures used == old(used) + 1
      ensures roots[0] == old(roots[0]) + 1 && IsUsedOffset(roots[roots[0]])
      ensures blocks[BlockIndex(header, roots[roots[0]])].objectId == old(Q[0].id)
      ensures Placed(old(Q[0]))
    {
      var tp := Q[0];
      assert tp in Q;
      var root := AddRoot(tp.id, tp.datum, tp.len);
      assert PlacedAt(used - 1, tp);
      assert forall p :: p in Q[1..] ==> p in Q;
      Q := Q[1..];
    }
  }

  /** `a` is `b` with some items left out, the rest kept in order. */
  predicate Subsequence<T(==)>(a: seq<T>, b: seq<T>)
    decreases |b|
  {
    if b == [] then a == []
    else
      || (a != [] && a[|a| - 1] == b[|b| - 1] && Subsequence(a[..|a| - 1], b[..|b| - 1]))
      || Subsequence(a, b[..|b| - 1])
  }

  /** A sequence is a subsequence of itself. */
  lemma {:induction false} SubsequenceRefl<T>(a: seq<T>)
    ensures Subsequence(a, a)
    decreases |a|
  {
    if a != [] {
      SubsequenceRefl(a[..|a| - 1]);
    }
  }

  /**
   * The refused objects of a pass over `q`, after the object at `n` was
   * placed (`refused'` is `refused`) or refused (it is appended), are still
   * a subsequence of the objects retried so far; all of them are refused
   * only if all earlier ones were and this one is.
   */
  lemma RefusedSoFar<T>(q: seq<T>, n: nat, refused: seq<T>, refused': seq<T>, placed: bool)
    requires n < |q| && Subsequence(refused, q[..n])
    requires placed ==> refused' == refused
    requires !placed ==> refused' == refused + [q[n]]
    ensures q[..n + 1] == q[..n] + [q[n]] && Subsequence(refused', q[..n + 1])
    ensures |refused'| == n + 1 ==> !placed && |refused| == n
  {
    assert q[..n + 1] == q[..n] + [q[n]];
    SubsequenceLength(refused, q[..n]);
    if !placed {
      assert refused'[..|refused'| - 1] == refused;
    }
    SubsequenceSnoc(refused', q[..n], q[n]);
  }

  /** A subsequence is no longer than the sequence. */
  lemma {:induction false} SubsequenceLength<T>(a: seq<T>, b: seq<T>)
    requires Subsequence(a, b)
    ensures |a| <= |b|
    decreases |b|
  {
    if b != [] {
      if Subsequence(a, b[..|b| - 1]) {
        SubsequenceLength(a, b[..|b| - 1]);
      } else {
        SubsequenceLength(a[..|a| - 1], b[..|b| - 1]);
      }
    }
  }

  /** Extending `b` by `x`, with or without `a` keeping `x`, keeps `a` a subsequence. */
  lemma SubsequenceSnoc<T>(a: seq<T>, b: seq<T>, x: T)
    requires Subsequence(a, b) || (a != [] && a[|a| - 1] == x && Subsequence(a[..|a| - 1], b))
    ensures Subsequence(a, b + [x])
  {
    assert (b + [x])[..|b|] == b;
  }

  /** A subsequence of a subsequence is a subsequence. */
  lemma {:induction false} SubsequenceTrans<T>(a: seq<T>, b: seq<T>, c: seq<T>)
    requires Subsequence(a, b) && Subsequence(b, c)
    ensures Subsequence(a, c)
    decreases |c|
  {
    if c == [] {
    } else if Subsequence(b, c[..|c| - 1]) {
      SubsequenceTrans(a, b, c[..|c| - 1]);
    } else if a != [] && a[|a| - 1] == b[|b| - 1] && Subsequence(a[..|a| - 1], b[..|b| - 1]) {
      SubsequenceTrans(a[..|a| - 1], b[..|b| - 1], c[..|c| - 1]);
    } else {
      SubsequenceTrans(a, b[..|b| - 1], c[..|c| - 1]);
    }
  }
}

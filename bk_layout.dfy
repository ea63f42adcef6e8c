/**
 * On-disk layout of the BK-tree files: the header record at the start of the
 * tree file, the fixed-size node blocks that follow it, the primary-index
 * record, and the byte-offset arithmetic that addresses blocks.
 */
module BKLayout {
  import opened Machine

  /** `sizeof(size_t)`: object ids, offsets and child slots are machine words. */
  const WORD: nat := 8
  /** `sizeof(BKTReeHeader)`: five `size_t` fields. */
  const HEADER_SIZE: nat := 5 * WORD
  /** `sizeof(PrimaryIndexInformation)`: two `size_t` fields. */
  const PRIMARY_RECORD_SIZE: nat := 2 * WORD

  /** The tree file header. A default-constructed header is all zero. */
  datatype BKTreeHeader = BKTreeHeader(
    totalNodeSize: nat,
    dataValueStorageSize: nat,
    distanceMethod: nat,
    maximumDiscreteDistance: nat,
    lastFreeOffsetPointer: nat)

  const DEFAULT_HEADER := BKTreeHeader(0, 0, 0, 0, 0)

  /** One record of the primary index: where the object's block is, and the object id of its parent. */
  datatype PrimaryIndexInformation = PrimaryIndexInformation(bkTreeDiskOffset: nat, parentOffset: nat)

  /**
   * One node block: the object id word, the datum area of
   * `dataValueStorageSize` bytes, and one child offset word per discrete
   * distance below `maximumDiscreteDistance` (0 = no child at that distance).
   */
  datatype Block = Block(objectId: nat, datum: seq<byte>, children: seq<nat>)

  /** A block whose fields have the sizes the header prescribes. */
  predicate WellSized(h: BKTreeHeader, b: Block)
  {
    |b.datum| == h.dataValueStorageSize && |b.children| == h.maximumDiscreteDistance
  }

  /** A block in a freshly created (zero-filled) tree file. */
  function EmptyBlock(h: BKTreeHeader): (b: Block)
    ensures WellSized(h, b)
  {
    Block(0, Zeros(h.dataValueStorageSize), ZeroWords(h.maximumDiscreteDistance))
  }

  /**
   * `ENTRY_BLOCK_RECORD_SIZE`: the record holds exactly the object id word,
   * the datum area and the child-offset words, one per discrete distance.
   */
  function EntryBlockRecordSize(h: BKTreeHeader): (size: nat)
    ensures size == WORD + h.dataValueStorageSize + WORD * h.maximumDiscreteDistance
    ensures size >= WORD
  {
    WORD * (h.maximumDiscreteDistance + 1) + h.dataValueStorageSize
  }

  /** Byte offset, inside a block, of the child slot for distance `j` (`ENTRY_DISTANCE_TO_CHILD_MAP`). */
  function ChildSlotOffset(h: BKTreeHeader, j: nat): nat
  {
    WORD + h.dataValueStorageSize + WORD * j
  }

  /** Every child slot of a block lies after the datum area and inside the block's record. */
  lemma ChildSlotsInsideRecord(h: BKTreeHeader, j: nat)
    requires j < h.maximumDiscreteDistance
    ensures WORD + h.dataValueStorageSize <= ChildSlotOffset(h, j)
    ensures ChildSlotOffset(h, j) + WORD <= EntryBlockRecordSize(h)
  {
  }

  /** Whether `off` is the byte offset of a block boundary in the tree file. */
  predicate IsBlockOffset(h: BKTreeHeader, off: nat)
  {
    off >= HEADER_SIZE && (off - HEADER_SIZE) % EntryBlockRecordSize(h) == 0
  }

  /** The index of the block that starts at byte offset `off`. */
  function BlockIndex(h: BKTreeHeader, off: nat): nat
    requires off >= HEADER_SIZE
  {
    (off - HEADER_SIZE) / EntryBlockRecordSize(h)
  }

  /**
   * `ENTRY_NODE_BLOCK`: byte offset of block `k`. It is a block boundary at or
   * after the header (so never the 0 "absent" marker) and maps back to `k`.
   */
  function EntryNodeBlock(h: BKTreeHeader, k: nat): (off: nat)
    ensures off >= HEADER_SIZE > 0
    ensures IsBlockOffset(h, off) && BlockIndex(h, off) == k
  {
    DivMul(k, EntryBlockRecordSize(h));
    HEADER_SIZE + k * EntryBlockRecordSize(h)
  }

  /** A block boundary is the offset of the block index it maps to. */
  lemma BlockOffsetRoundTrip(h: BKTreeHeader, off: nat)
    requires IsBlockOffset(h, off)
    ensures EntryNodeBlock(h, BlockIndex(h, off)) == off
  {
    var r := EntryBlockRecordSize(h);
    assert off - HEADER_SIZE == ((off - HEADER_SIZE) / r) * r + (off - HEADER_SIZE) % r;
  }

  /** Consecutive blocks tile the file: block `k + 1` starts where block `k` ends, and offsets grow with indices. */
  lemma EntryNodeBlockOrder(h: BKTreeHeader, k: nat, k': nat)
    ensures EntryNodeBlock(h, k + 1) == EntryNodeBlock(h, k) + EntryBlockRecordSize(h)
    ensures k < k' ==> EntryNodeBlock(h, k) + EntryBlockRecordSize(h) <= EntryNodeBlock(h, k')
  {
    if k < k' {
      MulStrict(k, k', EntryBlockRecordSize(h));
    }
  }

  /** Size in bytes of the tree file created for `h.totalNodeSize` blocks. */
  function TreeFileSize(h: BKTreeHeader): (size: nat)
    ensures forall k :: 0 <= k < h.totalNodeSize ==> EntryNodeBlock(h, k) + EntryBlockRecordSize(h) <= size
    ensures size == EntryNodeBlock(h, h.totalNodeSize)
  {
    forall k | 0 <= k < h.totalNodeSize
      ensures EntryNodeBlock(h, k) + EntryBlockRecordSize(h) <= EntryNodeBlock(h, h.totalNodeSize)
    {
      EntryNodeBlockOrder(h, k, h.totalNodeSize);
    }
    HEADER_SIZE + h.totalNodeSize * EntryBlockRecordSize(h)
  }

  /** Size in bytes of the roots file: a count word followed by `n` offset words. */
  function RootsFileSize(n: nat): (size: nat)
    ensures size / WORD == n + 1 && size % WORD == 0
  {
    DivMul(n + 1, WORD);
    (1 + n) * WORD
  }

  /** Size in bytes of the primary-index file: one word per possible object, not one record. */
  function PrimaryFileSize(n: nat): nat
  {
    n * WORD
  }

  /** Number of whole primary-index records that fit in the primary-index file. */
  function PrimaryCapacity(n: nat): (c: nat)
    ensures c == n / 2
  {
    DivUnique(n * WORD, PRIMARY_RECORD_SIZE, n / 2, (n % 2) * WORD);
    PrimaryFileSize(n) / PRIMARY_RECORD_SIZE
  }

  /** The record of object `id` lies inside the primary-index file exactly when `id < n / 2`. */
  lemma PrimaryRecordFits(n: nat, id: nat)
    ensures id * PRIMARY_RECORD_SIZE + PRIMARY_RECORD_SIZE <= PrimaryFileSize(n) <==> id < n / 2
  {
  }
}

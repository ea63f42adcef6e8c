/**
 * The record layout shared by both VP-tree stores (include/disk_vp_node_header.h,
 * include/vptree/DiskVP.h, include/DiskVP.h): a 4-byte dimension word followed
 * by fixed-size records, each a 20-byte node header and `d` floats.
 *
 * Child links are logical positions stored as `unsigned int`, with
 * `UINT_MAX` meaning "no child". Floats are modelled as reals.
 */
module VPLayout {
  import opened Machine

  /** `sizeof(unsigned int)`: the dimension word at the head of the tree file. */
  const DIM_WORD: nat := 4
  /** `sizeof(float)`. */
  const FLOAT_SIZE: nat := 4
  /** `sizeof(disk_vp_node_header)`: id, radius, leftChild, rightChild (4 bytes each), isLeaf, 3 padding bytes. */
  const NODE_HEADER_SIZE: nat := 20
  /** `offsetof(disk_vp_node_header, leftChild)`; the link bytes below start here. */
  const LEFT_CHILD_OFFSET: nat := 8
  /** Number of header bytes from `leftChild` to the end of the padding. */
  const LINK_BYTES: nat := 12

  datatype NodeHeader = NodeHeader(id: nat, radius: real, leftChild: nat, rightChild: nat, isLeaf: bool)

  /** One record of the tree file: its header and its vector. */
  datatype Record = Record(header: NodeHeader, vec: seq<real>)

  /** `HeapItem`: the id of a record and its distance to the query; ordered by `dist` alone. */
  datatype HeapItem = HeapItem(item: nat, dist: real)

  /** `sizeof(disk_vp_node_header) + sizeof(float) * d`. */
  function RecordSize(d: nat): (r: nat)
    ensures r >= NODE_HEADER_SIZE > 0
  {
    NODE_HEADER_SIZE + FLOAT_SIZE * d
  }

  /** Byte offset of record `i` (`getEntryPoint`): it is the start of exactly record `i`. */
  function EntryOffset(d: nat, i: nat): (off: nat)
    ensures off >= DIM_WORD
    ensures (off - DIM_WORD) / RecordSize(d) == i && (off - DIM_WORD) % RecordSize(d) == 0
  {
    DivMul(i, RecordSize(d));
    assert RecordSize(d) * i == i * RecordSize(d);
    DIM_WORD + RecordSize(d) * i
  }

  /** Byte offset of the vector of record `i` (`getPTR`): right after its header, and its floats end where record `i + 1` starts. */
  function VectorOffset(d: nat, i: nat): (off: nat)
    ensures off == EntryOffset(d, i) + NODE_HEADER_SIZE
    ensures off + FLOAT_SIZE * d == EntryOffset(d, i + 1)
  {
    EntryOffset(d, i) + NODE_HEADER_SIZE
  }

  /** Length of a tree file holding `n` records. */
  function FileLength(d: nat, n: nat): nat
  {
    DIM_WORD + RecordSize(d) * n
  }

  /** `openSortedFile`'s record count `(mmapfilelen - 4) / recordSize` gives back the number of records written. */
  lemma FileLengthRecords(d: nat, n: nat)
    ensures (FileLength(d, n) - DIM_WORD) / RecordSize(d) == n
  {
    DivMul(n, RecordSize(d));
    assert RecordSize(d) * n == n * RecordSize(d);
  }

  /** Records never overlap: record `i` ends before record `j > i` starts. */
  lemma EntriesDisjoint(d: nat, i: nat, j: nat)
    requires i < j
    ensures EntryOffset(d, i) + RecordSize(d) <= EntryOffset(d, j)
  {
    MulStrict(i, j, RecordSize(d));
    assert RecordSize(d) * i == i * RecordSize(d) && RecordSize(d) * j == j * RecordSize(d);
  }

  /** The header `write_entry_to_disk(entry)` appends for the `idx`-th vector. */
  function FreshHeader(idx: nat): NodeHeader
  {
    NodeHeader(idx % U32, 0.0, UINT_MAX, UINT_MAX, false)
  }

  /** The twelve header bytes from `leftChild` on, little-endian, padding zero. */
  function LinkBytes(h: NodeHeader): (b: seq<byte>)
    ensures |b| == LINK_BYTES
  {
    ToLittleEndian(h.leftChild, 4) + ToLittleEndian(h.rightChild, 4) + [if h.isLeaf then 1 else 0, 0, 0, 0]
  }

  /** The link fields as read back from the twelve bytes (a `bool` byte is true when non-zero). */
  function ReadLinks(h: NodeHeader, b: seq<byte>): NodeHeader
    requires |b| == LINK_BYTES
  {
    h.(leftChild := LittleEndian(b[0..4]), rightChild := LittleEndian(b[4..8]), isLeaf := b[8] != 0)
  }

  /** A `width`-byte little-endian store of `v` at byte `at`. */
  function Store(b: seq<byte>, at: nat, v: nat, width: nat): (r: seq<byte>)
    requires at + width <= |b|
    ensures |r| == |b|
  {
    b[..at] + ToLittleEndian(v, width) + b[at + width..]
  }

  /** Encoding the link fields and reading them back is the identity for 32-bit fields. */
  lemma LinkBytesRoundTrip(h: NodeHeader)
    requires h.leftChild < U32 && h.rightChild < U32
    ensures ReadLinks(h, LinkBytes(h)) == h
  {
    var b := LinkBytes(h);
    LinkBytesFields(h);
    LoadWord(h.leftChild);
    LoadWord(h.rightChild);
    assert LittleEndian(b[0..4]) == h.leftChild;
    assert LittleEndian(b[4..8]) == h.rightChild;
  }

  /** A 32-bit value survives a four-byte store and load. */
  lemma LoadWord(v: nat)
    requires v < U32
    ensures LittleEndian(ToLittleEndian(v, 4)) == v
  {
    assert Pow256(4) == U32;
    LittleEndianRoundTrip(v, 4);
    DivUnique(v, U32, 0, v);
  }

  /** Where each field lies in the twelve link bytes. */
  lemma LinkBytesFields(h: NodeHeader)
    ensures LinkBytes(h)[0..4] == ToLittleEndian(h.leftChild, 4)
    ensures LinkBytes(h)[4..8] == ToLittleEndian(h.rightChild, 4)
    ensures (LinkBytes(h)[8] != 0) == h.isLeaf
  {
  }

  /**
   * The two `*(size_t*)` stores of `updateNode`: eight bytes of `lchild` at
   * `leftChild`, then eight bytes of `rchild` at `rightChild`.
   */
  function StoreChildren(h: NodeHeader, lchild: nat, rchild: nat): (r: NodeHeader)
    ensures r.id == h.id && r.radius == h.radius
  {
    ReadLinks(h, Store(Store(LinkBytes(h), 0, lchild, 8), 4, rchild, 8))
  }

  /**
   * The net effect of the two overlapping 8-byte stores on a little-endian
   * machine: the left child is `lchild` truncated to 32 bits, the second
   * store overwrites the high half of the first, and the fifth byte of
   * `rchild` lands on `isLeaf`.
   */
  lemma StoreChildrenNetEffect(h: NodeHeader, lchild: nat, rchild: nat)
    ensures StoreChildren(h, lchild, rchild) ==
            h.(leftChild := lchild % U32, rightChild := rchild % U32, isLeaf := rchild / U32 % 256 != 0)
  {
    var b1 := Store(LinkBytes(h), 0, lchild, 8);
    var b2 := Store(b1, 4, rchild, 8);
    var l8, r8 := ToLittleEndian(lchild, 8), ToLittleEndian(rchild, 8);
    assert b2 == l8[..4] + r8;
    assert Pow256(4) == U32;
    ToLittleEndianPrefix(lchild, 4, 8);
    ToLittleEndianPrefix(rchild, 4, 8);
    assert b2[0..4] == ToLittleEndian(lchild, 4);
    assert b2[4..8] == ToLittleEndian(rchild, 4);
    LittleEndianRoundTrip(lchild, 4);
    LittleEndianRoundTrip(rchild, 4);
    ToLittleEndianDigit(rchild, 8, 4);
    assert b2[8] == r8[4];
  }

  /** With both children below 2^32 the stores write exactly the two links and clear `isLeaf`. */
  lemma StoreSmallChildren(h: NodeHeader, lchild: nat, rchild: nat)
    requires lchild < U32 && rchild < U32
    ensures StoreChildren(h, lchild, rchild) == h.(leftChild := lchild, rightChild := rchild, isLeaf := false)
  {
    StoreChildrenNetEffect(h, lchild, rchild);
  }

  /** `p`'s links are "no child" or positions after `p` and at most `last`. */
  predicate LinksWithin(p: nat, last: nat, h: NodeHeader)
  {
    (h.leftChild == UINT_MAX || p < h.leftChild <= last) &&
    (h.rightChild == UINT_MAX || p < h.rightChild <= last)
  }

  /** Neither child is present. */
  predicate NoChildren(h: NodeHeader)
  {
    h.leftChild == UINT_MAX && h.rightChild == UINT_MAX
  }

  /** A laid-out tree file: every link of record `p` points to a later record of the file. */
  predicate TreeFile(records: seq<Record>)
  {
    forall p :: 0 <= p < |records| ==> LinksWithin(p, |records| - 1, records[p].header)
  }

  /** `0, 1, ..., n - 1`: the `index` vector after `n` appends. */
  function Iota(n: nat): (s: seq<nat>)
    ensures |s| == n && forall i :: 0 <= i < n ==> s[i] == i
  {
    if n == 0 then [] else Iota(n - 1) + [n - 1]
  }
}

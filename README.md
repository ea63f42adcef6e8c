# DiskVP and BKTreeDisk in Dafny

A model of the core of a repository that keeps two metric indexes in
memory-mapped files, and proofs about that model.

- **The BK-tree block store** (`BKTreeDisk`).
  - A header with a bump cursor and fixed-size blocks. Each block holds an object id, a datum, and one child-offset slot per discrete distance.
  - A primary index maps each object id to its block and its parent.
  - A roots table keeps the count in word 0 and the root offsets after it.
  - A queue holds the objects no root could place, and `finalise_insertion` drains it.
  - Distances are the absolute difference of two words, or the Levenshtein distance of two C strings, computed by the single-row dynamic program.
- **The VP-tree record store and builder** (`DiskVP` in `include/vptree`).
  - An append log of fixed-size records: a node header and `d` floats each.
  - Open-time checks, record-offset arithmetic, and `updateNode` patching a header through byte stores.
  - `recursive_restruct_tree` with its three pivot strategies, rearranging the `index` permutation in place.
  - `restruct_index`, which copies the records out in logical order and writes the inverse permutation.
  - The two searches: the k-nearest `TopKSearch` and the range `MaxDistanceSearch`.
- **The legacy VP-tree** (`DiskVP` in `include/DiskVP.h`). Its build is random-pivot only and writes headers unconditionally. Its k-nearest search is recursive.
- **`FAISSBatch`**: a zeroed flat buffer of `nb` rows of `d` floats, filled one row at a time.
- **The vector hash** of `include/vectorhash.h`. It is identical to `TransformationFunction::hash`. The L1 `TransformationFunction::distance` is modelled next to it.

How the model represents the source:

- Each mapped file: a class field: an `array` (the BK-tree's three files) or a `seq` of typed records (the VP-tree log).
- Byte offsets: kept as offsets, with lemmas tying them to record indices.
- Floats: `real`s.
- The kernel `ker`: an uninterpreted function.
- The random generator: a function of a draw counter.
- The epsilon comparisons: the formulas of the source over reals, with the machine epsilons as constants.
- `std::sort` and `std::nth_element`: specified by their promises (a rearrangement, sorted or partitioned), realised by an insertion sort.

Behaviour of the source that the model reproduces as written:

- **Legacy build, position `last`.**
  - In the legacy builder, and on the random path of the current one, the pivot is drawn from `[first, last - 1]`, and `nth_element` partitions only `[first + 1, last)`.
  - So the record at `last` takes no part in the partition.
  - The ball property therefore holds for the right half except that record (`OutsideExcept`).
- **Current build, leaf flag.** A one-record range calls `updateNode` with `lchild == UINT_MAX`, which writes nothing, so no leaf is ever marked. A two-record range writes its links and clears `isLeaf`: the second 8-byte store, with `rchild == UINT_MAX`, puts `rchild`'s fifth byte, which is 0, over `isLeaf`.
- **Current build, unassigned median.** The geometric-median strategy, and the balanced path without a fitting blockade, read `median` without assigning it. The model makes those paths an error outcome (`Fail(MedianUnassigned)`). On the random path a fitting blockade is used as an absolute median; one below `first + 1` is outside the `nth_element` range and is an error outcome too (`Fail(MedianOutOfRange)`).
- **Current build, balanced sort key.** The accumulation loop adds the vector at `first` on every pass instead of the vector at `i`, so the balanced sort is keyed by distance to `last - first` times that vector, not to a centroid (`Scaled`).
- **Primary index size.** The BK-tree's primary-index file is sized one word per object although each record is two words. Only ids below `n / 2` fit, and the model requires that.
- **`MaxDistanceSearch` result.** Its `std::set` orders `HeapItem`s by distance alone, so it keeps one item per distance.

## Model

| member | source | states |
|---|---|---|
| BKLayout.EntryBlockRecordSize | include/bktree/BKTreeDisk.h:20 | a block record is exactly the id word, the datum area and one child word per discrete distance |
| BKLayout.ChildSlotsInsideRecord | include/bktree/BKTreeDisk.h:24-26 | every child slot lies after the datum area and inside its block's record |
| BKLayout.EntryNodeBlock | include/bktree/BKTreeDisk.h:21-22 | block `k`'s offset is a block boundary at or after the header (never the 0 "absent" marker) and maps back to `k` |
| BKLayout.BlockOffsetRoundTrip | include/bktree/BKTreeDisk.h:21-22 | every block boundary is the offset of the block index it maps to |
| BKLayout.EntryNodeBlockOrder | include/bktree/BKTreeDisk.h:155-164 | block `k + 1` starts where block `k` ends, so later allocations have larger offsets |
| BKLayout.TreeFileSize | src/bktree/BKTreeDisk.cpp:60 | the tree file is the header plus `total_node_size` block records |
| BKLayout.RootsFileSize | src/bktree/BKTreeDisk.cpp:65 | the roots file is a count word and `n` offset words |
| BKLayout.PrimaryCapacity | src/bktree/BKTreeDisk.cpp:63 | a file of `n` words holds `n / 2` primary records |
| BKLayout.PrimaryRecordFits | src/bktree/BKTreeDisk.cpp:63 | the record of `id` lies inside the primary file exactly when `id < n / 2` |
| BKLayout.EmptyBlock | include/bktree/BKTreeDisk.h:161 | a block of a zero-filled file has id 0, a zero datum and no children |
| BKDistance.LoadWord | src/bktree/BKTreeDisk.cpp:115-116 | the first eight datum bytes read as a little-endian word, below 2^64 |
| BKDistance.CString | src/bktree/BKTreeDisk.cpp:107 | the bytes before the first NUL, which contain no NUL |
| BKDistance.IntDistanceIsAbsoluteDifference | src/bktree/BKTreeDisk.cpp:114-118 | the integer distance is the absolute difference of the words and fits in a word, with no unsigned underflow |
| BKDistance.DistanceSymmetricAndZero | src/bktree/BKTreeDisk.cpp:112-126 | both distances are symmetric and are 0 exactly on equal keys |
| BKDistance.UnknownMethodNeverFits | src/bktree/BKTreeDisk.cpp:125 | an unknown method yields `(size_t)-1`, never below the maximum discrete distance, so such objects never find a slot |
| BKDistance.CalculateDistance | src/bktree/BKTreeDisk.cpp:105-126 | the switch of `calculate_distance`; a string distance never exceeds the longer string |
| Levenshtein.EditDistanceSymmetric | src/bktree/BKTreeDisk.cpp:74-76 | edit distance does not depend on argument order, which justifies the swap |
| Levenshtein.EditDistanceZeroIff | src/bktree/BKTreeDisk.cpp:82-101 | the distance is 0 exactly when the strings are equal |
| Levenshtein.EditDistanceBounds | src/bktree/BKTreeDisk.cpp:82-96 | the distance lies between the length difference and the longer length |
| Levenshtein.NextCell | src/bktree/BKTreeDisk.cpp:91-97 | the cell written from its three neighbours is the distance of the two prefixes |
| Levenshtein.NextRow | src/bktree/BKTreeDisk.cpp:86-98 | after outer pass `j`, `lev[i]` is the distance of source prefix `i` and target prefix `j`, for every `i` |
| Levenshtein.LevenshteinDistance | src/bktree/BKTreeDisk.cpp:72-102 | the single-row dynamic program returns the edit distance of the two sequences |
| BKTree.NewBlock | include/bktree/BKTreeDisk.h:157-161 | a fresh block holds the id and the first `len` datum bytes, and zeros everywhere else |
| BKTree.BKTreeDisk.CreateNewDiskFile | src/bktree/BKTreeDisk.cpp:52-70 | the five header fields, the cursor just past the header, and the three files sized and zero-filled; an empty tree is trivially rooted |
| BKTree.BKTreeDisk.ResolveObjectIdToBKTreeEntry | include/bktree/BKTreeDisk.h:79-85 | nothing exactly when the primary offset is 0; otherwise a used block whose id is `id` |
| BKTree.BKTreeDisk.AllocateNewNodeEntry | include/bktree/BKTreeDisk.h:154-170 | returns the old cursor, advances it by one record, writes the new block, points `primary[id]` at it, and changes nothing else |
| BKTree.BKTreeDisk.AddRoot | include/bktree/BKTreeDisk.h:173-178 | `roots[0]` grows by one and the new last slot holds the new offset; earlier roots stay, and `id` then resolves to the block; every block is still a root or a child of an earlier block (`Rooted`, part of `Valid`) |
| BKTree.BKTreeDisk.Walk | include/bktree/BKTreeDisk.h:208-240 | the descent ends at a later block at distance 0, or at an empty slot `1 <= d < max`; it terminates because children come after parents |
| BKTree.BKTreeDisk.Scan | include/bktree/BKTreeDisk.h:205-242 | roots are tried newest first, and only the newest with `doLastRoot` |
| BKTree.BKTreeDisk.Attach | include/bktree/BKTreeDisk.h:219-228 | one block allocated into the empty slot; `ParentOffset` gets the parent's object id; the new block hangs from its parent's slot, so the tree stays `Rooted` |
| BKTree.BKTreeDisk.RootedGrows | include/bktree/BKTreeDisk.h:173-228 | a block allocated as a new root or into an empty child slot, with every older root and link kept, leaves every block a root or a child of an earlier block |
| BKTree.BKTreeDisk.LinkPathSnoc | include/bktree/BKTreeDisk.h:219-228 | a path of child links from a root extends by a child of its last block |
| BKTree.BKTreeDisk.PathTo | include/bktree/BKTreeDisk.h:173-228 | in a rooted tree every used block ends a path that starts at a root and follows child links through earlier blocks |
| BKTree.BKTreeDisk.PlacedReached | include/bktree/BKTreeDisk.h:205-242 | in a rooted tree an object held by a block, or matched at distance 0, is reached along child links from a root |
| BKTree.BKTreeDisk.Descend | include/bktree/BKTreeDisk.h:207-240 | the do-while loop carries out `Walk`; a distance-0 hit or a refusal leaves all files unchanged |
| BKTree.BKTreeDisk.ScanRoots | include/bktree/BKTreeDisk.h:205-242 | the root loop carries out `Scan` |
| BKTree.BKTreeDisk.Place | include/bktree/BKTreeDisk.h:195-252 | an empty tree makes the object its sole root; otherwise the scan's landing; a placed object is then in the tree; a refusal returns nothing, appends the object to the queue, and leaves a tree that refuses it |
| BKTree.BKTreeDisk.Add | include/bktree/BKTreeDisk.h:112-118 | the first object of an empty tree becomes its sole root; otherwise the outcome is the landing of the scan over all roots, as for `Place`; a placed object is in the tree; a refused one is queued, counted in `missingValues`, and the unchanged tree refuses it; placed blocks keep their ids and data |
| BKTree.BKTreeDisk.RetryFront | src/bktree/BKTreeDisk.cpp:159-167 | the front object leaves the queue and either is then in the tree, or goes onto `Q2` while the unchanged tree refuses it |
| BKTree.BKTreeDisk.RetryNext | src/bktree/BKTreeDisk.cpp:157-171 | one step keeps the pass invariant: the queue is a suffix of the pass's queue, `Q2` an in-order subsequence of the objects tried, every other tried object is in the tree, and while none was placed the files are as at the start and the tree refuses all of `Q2` |
| BKTree.BKTreeDisk.StillPlaced | include/bktree/BKTreeDisk.h:154-170 | blocks are only appended and keep their ids and data, so an object in the tree stays in it |
| BKTree.BKTreeDisk.RetryQueue | src/bktree/BKTreeDisk.cpp:157-171 | after a pass the queue is empty, `Q2` is an in-order subsequence of the old queue, and every other queued object is in the tree; a pass that places nothing leaves the files unchanged and the tree refuses all of `Q2`; blocks used plus objects pending never grow |
| BKTree.BKTreeDisk.RetryPasses | src/bktree/BKTreeDisk.cpp:154-172 | passes repeat while the queue shrinks; the queue left is an in-order subsequence of the old one, every other old object is in the tree, and the tree refuses every object left, because the last pass placed none |
| BKTree.BKTreeDisk.PromoteFront | src/bktree/BKTreeDisk.cpp:143-149 | the front object becomes the newest root, is in the tree, and leaves the queue |
| BKTree.BKTreeDisk.FinaliseInsertion | src/bktree/BKTreeDisk.cpp:130-176 | terminates with the queue empty, and every object that was queued is held by a block that a path of child links from a root reaches (`Reached`); placed blocks keep their ids and data; at most one block per queued object is used |
| VPLayout.RecordSize | include/vptree/DiskVP.h:270 | a record is the 20-byte header and `d` floats |
| VPLayout.EntryOffset | include/vptree/DiskVP.h:268-271 | record `i` starts at `4 + recordSize * i`, which is the start of exactly record `i` |
| VPLayout.VectorOffset | include/vptree/DiskVP.h:304-310 | a record's floats start right after its header and end where the next record starts |
| VPLayout.FileLengthRecords | include/vptree/DiskVP.h:117 | `(len - 4) / recordSize` gives back the number of records written |
| VPLayout.EntriesDisjoint | include/vptree/DiskVP.h:268-271 | records never overlap |
| VPLayout.LinkBytesRoundTrip | include/disk_vp_node_header.h:29-35 | encoding the link fields as bytes and reading them back is the identity for 32-bit fields |
| VPLayout.StoreChildren | include/vptree/DiskVP.h:289-292 | the two overlapping 8-byte child stores, as byte writes into the header |
| VPLayout.StoreChildrenNetEffect | include/vptree/DiskVP.h:289-292 | net effect on a little-endian machine: the links get the children's low 32 bits, and `isLeaf` gets the fifth byte of `rchild` |
| VPLayout.StoreSmallChildren | include/vptree/DiskVP.h:289-292 | with 32-bit children the stores write exactly the two links and clear `isLeaf` |
| VPLayout.Iota | include/vptree/DiskVP.h:174-175 | after `n` appends `index` is `0 .. n-1` |
| VPBuild.UpdatedHeader | include/vptree/DiskVP.h:284-293 | the field-level effect of `updateNode` on one header |
| VPBuild.UpdatedHeaderIsByteStores | include/vptree/DiskVP.h:284-293 | the radius is written only when non-zero; with `lchild == UINT_MAX` the links stay and `isLeaf` is or-ed with `lf`; otherwise the stores' net effect |
| VPBuild.SingletonUpdateIsNoOp | src/vptree/DiskVP.cpp:30-31 | the one-record call writes nothing, so the record keeps its appended header |
| VPBuild.PivotUpdate | src/vptree/DiskVP.cpp:134 | a pivot update sets exactly the radius and both links, and clears `isLeaf` |
| VPBuild.LeftLink | src/vptree/DiskVP.cpp:31-34 | the left link is none for one record, and otherwise the position after `first` |
| VPBuild.RightLink | src/vptree/DiskVP.cpp:31-34 | the right link is none for at most two records, and otherwise the position after the middle |
| VPBuild.Logical | include/vptree/DiskVP.h:239-243 | the records in the order `index` lists them |
| VPBuild.InverseLookup | include/vptree/DiskVP.h:239-247 | the `_idx` word of an original record leads back to that record in the logical file |
| VPBuild.Swap | src/vptree/DiskVP.cpp:81 | `std::swap` of two entries; the sequence is rearranged |
| VPBuild.Splice | src/vptree/DiskVP.cpp:90-100 | a stretch of `index` replaced by a result of the same length; the rest is kept |
| VPBuild.StretchRearranged | src/vptree/DiskVP.cpp:55-61 | rearranging a stretch keeps `index` duplicate-free and in range |
| VPBuild.PartitionBall | src/vptree/DiskVP.cpp:118-133 | `nth_element`'s partition is a ball around the pivot whose radius is the distance to the median |
| VPBuild.Median | src/vptree/DiskVP.cpp:36-110 | the median a pivot step uses, or none on the paths that never assign it |
| VPBuild.RandomAlwaysBuildable | src/vptree/DiskVP.cpp:103-110 | with the random strategy and no blockade every range builds |
| VPBuild.GeometricUnbuildable | src/vptree/DiskVP.cpp:63-67 | the geometric-median strategy never assigns the median |
| VPBuild.BalancedMedian | src/vptree/DiskVP.cpp:69-72 | an assigned balanced median is the middle, and the halfway root lies before `last` |
| VPBuild.BalancedOrder | src/vptree/DiskVP.cpp:48-61 | `[first, last)` sorted by distance from `last - first` times the vector at `first` |
| VPBuild.BalancedPick | src/vptree/DiskVP.cpp:62-80 | the root and median choice of the balanced path |
| VPBuild.BalancedChoice | src/vptree/DiskVP.cpp:48-101 | the balanced pivot choice rearranges the stretch and partitions it around the median when one is assigned |
| VPBuild.BalancedRoot | src/vptree/DiskVP.cpp:70-81 | the root placed at `first` is the sorted stretch's entry at the root's offset |
| VPBuild.Within | src/vptree/DiskVP.cpp:103-104 | a draw brought into `[0, k)` |
| VPBuild.RandomChoice | src/vptree/DiskVP.cpp:102-129 | the root is drawn from `[first, last - 1]` and swapped to `first`, and the rest is partitioned |
| VPBuild.Choose | src/vptree/DiskVP.cpp:36-129 | the pivot choice keeps `index` a permutation that moves nothing outside the range |
| VPBuild.Updated | include/vptree/DiskVP.h:284-293 | `updateNode` on a state changes only the header of physical record `i` |
| VPBuild.Linking | src/vptree/DiskVP.cpp:130-138 | the pivot gets its radius and its links, and a blockade element is recorded on the balanced path |
| VPBuild.Restruct | src/vptree/DiskVP.cpp:29-146 | the whole build as a function of the state |
| VPBuild.LeafUpdateIsNoOp | src/vptree/DiskVP.cpp:30-31 | a one-record range leaves the state as it was |
| VPBuild.RestructFrame | src/vptree/DiskVP.cpp:29-146 | the build keeps ids and vectors, moves `index` entries only within `[first, last]`, leaves records outside untouched, and only appends blockade elements |
| VPBuild.RestructOutcome | src/vptree/DiskVP.cpp:36-130 | a build succeeds exactly when every pivot step gets a usable median |
| VPBuild.RestructPivot | src/vptree/DiskVP.cpp:33-134 | after a build the record at `first` has the pivot's radius and links `LeftLink` and `RightLink` |
| VPBuild.RestructLaid | src/vptree/DiskVP.cpp:134-143 | from unlinked records, a successful build links every record only forward and inside the range |
| VPBuild.RestructBall | src/vptree/DiskVP.cpp:118-143 | around the middle, the pivot's radius holds the left half inside and the right half (but the record at `last`) outside |
| VPBuild.IotaValid | include/vptree/DiskVP.h:165-176 | the appended log is a state the build works on |
| VPBuild.LaidTreeFile | include/vptree/DiskVP.h:239-243 | copying a laid-out order gives a file whose links point forward |
| Selection.SortedPairwise | src/vptree/DiskVP.cpp:55-61 | sorted link by link exactly when sorted pairwise |
| Selection.Sort | src/vptree/DiskVP.cpp:55-61 | `std::sort` gives a sorted rearrangement |
| Selection.SortedPartitioned | src/vptree/DiskVP.cpp:118-128 | a sorted sequence is partitioned at every position |
| Selection.NthElement | src/vptree/DiskVP.cpp:118-128 | `nth_element` gives a rearrangement partitioned around position `n` |
| Selection.SpliceMultiset | src/vptree/DiskVP.cpp:90-100 | rearranging a stretch rearranges the whole sequence |
| Selection.SwapMultiset | src/vptree/DiskVP.cpp:105 | a swap rearranges the sequence |
| Selection.DistinctPairwise | include/vptree/DiskVP.h:238-241 | duplicate-free exactly when no two positions hold the same value |
| VPTree.Ids | include/vptree/DiskVP.h:240-241 | the ids read in logical order |
| VPTree.WrittenInverse | include/vptree/DiskVP.h:238-241 | with distinct ids, each id's word is the position it was read at |
| VPTree.PermutationWords | include/vptree/DiskVP.h:238-247 | over a permutation with fresh ids, each original record is found at the position its word gives |
| VPTree.FreshRestruct | include/vptree/DiskVP.h:233-247 | a fresh log that builds gives a forward-linked file, ids equal to `index`, and `index` a permutation |
| VPTree.PivotingValid | src/vptree/DiskVP.cpp:36-138 | the pivot step keeps a state well formed |
| VPTree.DiskVP.constructor | include/vptree/DiskVP.h:83-96 | an empty, not-yet-writing store with the given parameters |
| VPTree.DiskVP.StartWriteToDisk | include/vptree/DiskVP.h:103-110 | the first call starts the file with the dimension word |
| VPTree.DiskVP.WriteEntryToDisk | include/vptree/DiskVP.h:165-176 | appends a header with id `idx`, radius 0, no children and not a leaf, then `d` floats; `index` gets `idx`, and `idx` grows by one |
| VPTree.DiskVP.WriteRecordToDisk | include/vptree/DiskVP.h:156-163 | appends the given header verbatim and `d` floats |
| VPTree.DiskVP.OpenSortedFile | include/vptree/DiskVP.h:112-126 | fails on a dimension mismatch; recomputes `idx`; with `actual`, fails unless the `_idx` file has `idx` words |
| VPTree.DiskVP.FinaliseFile | include/vptree/DiskVP.h:295-302 | after writing, the log is mapped; otherwise nothing changes |
| VPTree.DiskVP.GetPTR | include/vptree/DiskVP.h:304-310 | null before writing; otherwise the floats of record `i` |
| VPTree.DiskVP.GetSPTR | include/vptree/DiskVP.h:312-321 | the floats of the record `index[i]` |
| VPTree.DiskVP.GetEntryPoint | include/vptree/DiskVP.h:268-271 | finalises, then the start of record `i` |
| VPTree.DiskVP.GetShuffledEntryPoint | include/vptree/DiskVP.h:278-282 | finalises, then the start of record `index[i]` |
| VPTree.DiskVP.UpdateNode | include/vptree/DiskVP.h:284-293 | the header of record `i` becomes `UpdatedHeader`'s and nothing else changes |
| VPTree.DiskVP.RecursiveRestructTree | src/vptree/DiskVP.cpp:29-146 | the fields end up as `Restruct` computes |
| VPTree.DiskVP.Rearrange | src/vptree/DiskVP.cpp:55-129 | the pivot choice replaces `index` and nothing else |
| VPTree.DiskVP.LinkPivot | src/vptree/DiskVP.cpp:130-138 | the pivot's header is linked and its radius is the distance to the median record |
| VPTree.DiskVP.PivotStep | src/vptree/DiskVP.cpp:36-138 | the pivot choice, then the link |
| VPTree.DiskVP.SplitStep | src/vptree/DiskVP.cpp:36-143 | a range of three or more records |
| VPTree.DiskVP.HalvesStep | src/vptree/DiskVP.cpp:140-143 | `[first + 1, mid]`, then `[mid + 1, last]` |
| VPTree.DiskVP.RestructIndex | include/vptree/DiskVP.h:233-247 | builds `[0, idx-1]`; `b2` receives the records in logical order; the `_idx` words invert the order |
| VPTree.DiskVP.CopyOut | include/vptree/DiskVP.h:239-247 | every position's id word and record copy; an id past the file stops the copy |
| VPTree.DiskVP.CopyLoop | include/vptree/DiskVP.h:238-243 | the loop finishes exactly when every listed id is below the record count, leaving the clipped records in logical order and each id's logical position |
| VPTree.DiskVP.CopyRecord | include/vptree/DiskVP.h:240-242 | one pass appends the record listed at logical position `i`, clipped to the dimension, after the copies so far |
| VPTree.CopiesPrefix | include/vptree/DiskVP.h:239-243 | after `i` passes the copies are the first `i` records of the clipped logical file |
| VPTree.IdsBelowAll | include/vptree/DiskVP.h:240-241 | the loop's running bound on the ids holds exactly when each of the first `i` ids is below the count |
| VPTree.DiskVP.SeededQuery | src/vptree/DiskVP.cpp:148-151 | the id maps through the `_idx` file to that record's vector |
| SearchHeap.Push | include/vptree/DiskVP.h:367 | `priority_queue::push` keeps the heap ordered and adds exactly the item |
| SearchHeap.Top | include/vptree/DiskVP.h:373 | the top is an item of greatest distance |
| SearchHeap.Pop | include/vptree/DiskVP.h:369 | pop removes the top and keeps the heap ordered |
| SearchHeap.PushMembers | include/vptree/DiskVP.h:367 | pushing adds only the pushed item |
| SearchHeap.PopMembers | include/vptree/DiskVP.h:369 | popping only removes |
| SearchHeap.PushKeepsTop | include/vptree/DiskVP.h:367-373 | pushing an item no farther than the top leaves the same top |
| SearchHeap.PushCapped | include/vptree/DiskVP.h:367-369 | push, then pop past `k`: ascending, `min(size + 1, k)` items, all from the old heap and `x` |
| SearchHeap.PushCappedNearest | include/vptree/DiskVP.h:367-369 | no dropped item is nearer than a kept one: the heap keeps the nearest items |
| SearchHeap.PopThenPush | src/DiskVP.cpp:103-106 | a full heap loses its top, then `x` is pushed: `x` is kept and the size is `min(size + 1, k)` |
| SearchHeap.PopThenPushAgrees | src/DiskVP.cpp:103-106 | the same items as push-then-pop while the heap is not full or `x` is no farther than the top |
| SearchHeap.PopThenPushKeepsFarther | src/DiskVP.cpp:103-106 | on a full heap an `x` farther than the top is kept by pop-then-push, while push-then-pop drops it and leaves the heap as it was |
| SearchHeap.NextTau | include/vptree/DiskVP.h:372-383 | a full heap's greatest distance; otherwise `tau` as it was, or in the approximate case the smaller of `tau` and the heap's greatest distance |
| SearchHeap.SetInsert | include/vptree/DiskVP.h:419-434 | `set::emplace` under a distance-only order drops an item whose distance is present |
| SearchHeap.SetInsertMembers | include/vptree/DiskVP.h:419-434 | `emplace` keeps every distance, ends with the new one, and adds nothing but that item |
| SearchHeap.Reversed | include/vptree/DiskVP.h:410 | `std::reverse` |
| SearchHeap.ReversedAscending | include/vptree/DiskVP.h:405-411 | reversing twice is the identity, and reversing an ascending sequence makes it descending |
| SearchHeap.PopAll | include/vptree/DiskVP.h:405-409 | draining the heap gives its items from the greatest distance down |
| FloatCompare.ComparisonsExclusive | include/vptree/DiskVP.h:43-54 | for a non-negative epsilon, "approximately equal" and "definitely less" never both hold, and "definitely less" implies `<` |
| VPSearch.ExpandLighter | include/vptree/DiskVP.h:359-403 | replacing a popped position by later children makes the stack strictly lighter, so the search terminates |
| VPSearch.ChildrenLater | include/vptree/DiskVP.h:386-402 | in a laid-out file every present link points to a later record |
| VPSearch.TopKExpand | include/vptree/DiskVP.h:386-402 | each present child is pushed iff its pruning test holds; the pivot's own side is pushed first |
| VPSearch.MaxExpand | include/vptree/DiskVP.h:436-446 | nothing at a leaf; a present right child always; the left child only when `dist - radius` passes the test |
| VPSearch.TopKSearch.FromVector | src/vptree/DiskVP.cpp:153-154 | a search for the given vector |
| VPSearch.TopKSearch.FromId | src/vptree/DiskVP.cpp:148-151 | a search for the vector the `_idx` file gives |
| VPSearch.TopKSearch.Offer | include/vptree/DiskVP.h:366-384 | an admitted item makes the heap `PushCapped(heap, x, k)` and `tau` the `NextTau` of the new heap, approximate when not definitely less; otherwise nothing changes |
| VPSearch.TopKLighter | include/vptree/DiskVP.h:386-402 | the children pushed in place of the popped position are later positions inside the file, and the stack gets lighter |
| VPSearch.TopKSearch.Visit | include/vptree/DiskVP.h:359-402 | one pass of the loop: the heap stays ascending, within `k` and made of file records, is non-empty after an admission, and the children the new `tau` allows replace the popped position |
| VPSearch.TopKSearch.Run | include/vptree/DiskVP.h:355-412 | at most `k` items, ascending, each a record of the file with its distance; non-empty when the root is admitted |
| VPSearch.MaxDistanceSearch.FromVector | src/vptree/DiskVP.cpp:161-162 | a range search for the given vector |
| VPSearch.MaxDistanceSearch.FromId | src/vptree/DiskVP.cpp:156-159 | a range search for the vector the `_idx` file gives |
| VPSearch.MaxDistanceSearch.Collect | include/vptree/DiskVP.h:433-434 | only items within `maxDistance` enter the set, one per distance |
| VPSearch.MaxDistanceSearch.Run | include/vptree/DiskVP.h:424-449 | the set gains only records within `maxDistance`, keeps its distances, and holds the root's distance when it is in range |
| LegacyVP.SwapSpliceMoved | src/DiskVP.cpp:46-72 | the swap and `nth_element` move entries only within `[first, last)`, and keep `index[last]` |
| LegacyVP.SplicedBall | src/DiskVP.cpp:58-82 | the partition is a ball around the pivot whose radius is the distance to the median |
| LegacyVP.PartitionIndex | src/DiskVP.cpp:44-72 | the drawn root at `first`, the rest of `[first, last)` partitioned around the middle, and `index` still a permutation |
| LegacyVP.PivotLinked | src/DiskVP.cpp:82 | writing the pivot's header keeps the ball and the unlinked records after it |
| LegacyVP.SplitFacts | src/DiskVP.cpp:82-89 | the pivot step and both halves together build `[first, last]` |
| LegacyVP.SplitBall | src/DiskVP.cpp:86-89 | the ball facts survive the builds of both halves |
| LegacyVP.SplitLaid | src/DiskVP.cpp:82-89 | a pivot linked to laid-out halves gives a laid-out range |
| LegacyVP.FreshBuilt | include/DiskVP.h:140-146 | a built fresh log copies out as a forward-linked file whose ids are the index entries |
| LegacyVP.DiskVP.constructor | include/DiskVP.h:69 | an empty, not-yet-writing store |
| LegacyVP.DiskVP.StartWriteToDisk | include/DiskVP.h:71-80 | the first call writes the dimension word |
| LegacyVP.DiskVP.WriteEntryToDisk | include/DiskVP.h:123-135 | appends id `idx`, radius 0, no children and not a leaf; `index` gets `idx` |
| LegacyVP.DiskVP.WriteRecordToDisk | include/DiskVP.h:107-121 | appends the given header verbatim; the child remapping is not done |
| LegacyVP.DiskVP.OpenSortedFile | include/DiskVP.h:82-92 | fails only on a dimension mismatch; `idx` and the `_idx` length are not checked |
| LegacyVP.DiskVP.FinaliseFile | include/DiskVP.h:174-181 | after writing, the log is mapped |
| LegacyVP.DiskVP.GetPTR | include/DiskVP.h:183-189 | null before writing; otherwise the floats of record `i` |
| LegacyVP.DiskVP.GetSPTR | include/DiskVP.h:191-200 | the floats of record `index[i]` |
| LegacyVP.DiskVP.GetEntryPoint | include/DiskVP.h:157-160 | the start of record `i` |
| LegacyVP.DiskVP.GetShuffledEntryPoint | include/DiskVP.h:162-166 | the start of record `index[i]` |
| LegacyVP.DiskVP.UpdateNode | include/DiskVP.h:168-172 | radius and both child stores written unconditionally; the net effect of the 8-byte stores |
| LegacyVP.DiskVP.Partition | src/DiskVP.cpp:44-72 | root drawn from `[first, last - 1]` and swapped to `first`; `[first+1, last)` partitioned around `(first+last)/2`; `index[last]` kept |
| LegacyVP.DiskVP.PivotStep | src/DiskVP.cpp:44-82 | the pivot's radius is the distance to the median record, and its links are `first + 1` and `median + 1` |
| LegacyVP.DiskVP.LinkPivot | src/DiskVP.cpp:78-82 | after the partition, the pivot's header gets the radius to the median record and the links `first + 1` and `median + 1`; the ball facts carry over and the range is rearranged only within `[first, last)` |
| LegacyVP.DiskVP.RecursiveRestructTree | src/DiskVP.cpp:28-92 | one record becomes a leaf without links; a pair links `last`; longer ranges keep the ball facts; `index` moves only within the range; with the ghost flag `laid`, a range of unlinked records that fits the 32-bit links ends up laid out forward |
| LegacyVP.DiskVP.SplitStep | src/DiskVP.cpp:44-89 | the pivot step, then both halves, with the ball around the pivot |
| LegacyVP.DiskVP.BuildLog | include/DiskVP.h:140 | building a fresh log gives a forward-linked logical order whose ids are its positions |
| LegacyVP.DiskVP.RestructIndex | include/DiskVP.h:137-155 | builds, copies the records in logical order to `b2`, and writes the inverse permutation |
| LegacyVP.DiskVP.CopyOut | include/DiskVP.h:143-151 | every position's id word and record copy |
| LegacyVP.DiskVP.CopyLoop | include/DiskVP.h:143-147 | the loop finishes exactly when every listed id is below the record count, leaving the clipped records in logical order and each id's logical position |
| LegacyVP.DiskVP.CopyRecord | include/DiskVP.h:144-146 | one pass appends the record listed at logical position `i`, clipped to the dimension, after the copies so far |
| LegacyVP.DiskVP.Admit | src/DiskVP.cpp:99-118 | an admitted item makes the heap `PopThenPush(heap, x, k)` (a full heap pops before the push) and `tau` the `NextTau` of the new heap; a refused item changes nothing |
| LegacyVP.DiskVP.LookUpNearsetTo | src/DiskVP.cpp:94-140 | the heap stays ascending and at most `k`, gains only records of the file, and is non-empty once the root is admitted |
| LegacyVP.DiskVP.TopkSearchIdx | include/DiskVP.h:218-231 | at most `k` items in ascending order for the record the `_idx` file gives |
| LegacyVP.DiskVP.TopkSearch | include/DiskVP.h:233-244 | the same search for a vector, in descending (heap-pop) order |
| Transformation.Gap | include/vptree/DiskVP.h:222-226 | the difference taken larger minus smaller, so it never wraps |
| Transformation.Distance | include/vptree/DiskVP.h:219-229 | the L1 sum modulo 2^64, and exactly the L1 sum for fewer than 2^32 coordinates |
| Transformation.L1Bound | include/vptree/DiskVP.h:219-229 | the sum fits in 64 bits for fewer than 2^32 coordinates |
| Transformation.L1Symmetric | include/vptree/DiskVP.h:219-229 | the distance is symmetric |
| Transformation.L1ZeroIff | include/vptree/DiskVP.h:219-229 | the distance is 0 exactly on vectors equal on the first `d` coordinates |
| VectorHash.XorShift | include/vectorhash.h:18-20 | `(x >> 16) ^ x` keeps the high half and xors it into the low half |
| VectorHash.XorShiftInvolution | include/vectorhash.h:18-20 | the xorshift undoes itself |
| VectorHash.MulInverse | include/vectorhash.h:18-19 | multiplying by `0x45d9f3b` modulo 2^32 is undone by its inverse |
| VectorHash.MixInverse | include/vectorhash.h:18-20 | the element mix is invertible |
| VectorHash.MixInjective | include/vectorhash.h:18-20 | distinct elements mix to distinct words |
| VectorHash.FoldOrders | include/vectorhash.h:17-22 | the front-first loop and the last-element recursion agree |
| VectorHash.HashOf | include/vectorhash.h:16 | the empty vector hashes to 0 |
| VectorHash.Hash | include/vectorhash.h:12-24 | the loop computes the left-to-right fold from the length; `TransformationFunction::hash` (include/vptree/DiskVP.h:206-217) is the same |
| FAISS.IntOfSize | src/vptree/FAISSBatch.cpp:40 | `(int)row.size()` is the size when it fits in an `int` |
| FAISS.CopyCount | src/vptree/FAISSBatch.cpp:40 | the copy length is `min(d, size)`, and never more than the row or `d` |
| FAISS.Written | src/vptree/FAISSBatch.cpp:40-41 | exactly the positions `at .. at + n - 1` take the row's floats |
| FAISS.WrittenNext | src/vptree/FAISSBatch.cpp:40-41 | one more float copied is one more position written |
| FAISS.RowFits | src/vptree/FAISSBatch.cpp:41 | row `idx < nb` lies inside the `d * nb` buffer |
| FAISS.FAISSBatch.constructor | src/vptree/FAISSBatch.cpp:31-34 | a fresh buffer of `d * nb` zeros |
| FAISS.FAISSBatch.AddToBatch | src/vptree/FAISSBatch.cpp:36-43 | refused and unchanged when `idx >= nb`; otherwise exactly the first `min(d, size)` floats of row `idx` are written |

## Left out

- Memory mapping and file I/O (`mmapFile`, `create_empty_file`, `fopen`/`fwrite`/`fclose`). Files are arrays or sequences, and fresh files are zero-filled. Each `create_empty_file` succeeds in the model.
- The stxxl external-memory containers are sequences. The caller-owned datum pointers in the BK-tree queue are the datum bytes themselves.
- Floating-point arithmetic: floats are reals. The kernel `ker`, `TransformationFunction::transform`, `space_normalization_function` and the unfinished blockade min/max loop of `restruct_index` are not modelled beyond an uninterpreted kernel.
- `std::mt19937` is a function from the draw count to a natural, and a uniform draw is that value modulo the range size.
- `std::nth_element` is realised by a full sort, one of the outcomes the standard allows. Every property is proved from its partition promise.
- Output and cleanup: `printSortedFile`, `BKTreeDisk::print`, `operator<<`, destructors, `closeSortedFile`, and `FAISSBatch`'s `delete`.
- include/Similarities.h, include/vptree/Builder.h and main.cpp are not part of this model.
- VPTree.DiskVP.RestructIndex: on an empty log the source calls `recursive_restruct_tree(0, (size_t)-1)` and reads past `index`. The model returns `Fail(EmptyFile)` instead.
- VPTree.DiskVP.RestructIndex: a record id past the file would write past `indexMemory`. The model stops the copy with `Fail(IdOutOfRange)`.
- VPTree.DiskVP.RestructIndex: the `_idx` file is returned as the word sequence, not written to disk.
- VPTree.DiskVP.RestructIndex: the model requires `b2.d <= d`, which the source does not check. A larger `b2.d` makes the copy of `b2.d` floats read the next record's header, and past the mapping for the last record.
- VPSearch.TopKSearch.Run: the result's bound, order and provenance are proved, but not that it holds the `k` nearest records of the file. Pruning a subtree is sound only when `ker` obeys the triangle inequality, and the model's kernel is an uninterpreted function. The built tree's ball facts also hold only on the middle-median paths (`OutsideExcept`). Each admission is proved to keep the nearest of the heap's items and the offered one (`SearchHeap.PushCappedNearest`).
- VPSearch.TopKSearch.Run: the model requires `k >= 1`. With `k == 0` the source compares against the top of an empty heap, which is undefined behaviour.
- VPSearch.MaxDistanceSearch.Run: "every record within `maxDistance` is returned" is not stated. The `std::set` keeps one item per distance, so the source itself does not return every such record. The pruning has the same kernel and ball obstacles as `TopKSearch.Run`.
- LegacyVP.DiskVP.LookUpNearsetTo: not proved to find the `k` nearest records, for the kernel and ball reasons given for `TopKSearch.Run`. `Admit` can also keep an approximately-equal item farther than the top (`SearchHeap.PopThenPushKeepsFarther`).
- LegacyVP.DiskVP.RestructIndex: on an empty log the source calls `recursive_restruct_tree(0, idx-1)` with `idx-1` wrapped to the largest `size_t`. The model returns `Fail(EmptyFile)` instead.
- LegacyVP.DiskVP.RestructIndex: a record id past the file makes `indexMemory[ptr->id]` write out of bounds. The model stops the copy with `Fail(IdOutOfRange)`.
- LegacyVP.DiskVP.RestructIndex: the `_idx` file is returned as the word sequence, not written to disk.
- LegacyVP.DiskVP.RestructIndex: the model requires `b2.d <= d`, which the source does not check. A larger `b2.d` makes the copy of `b2.d` floats read the next record's header, and past the mapping for the last record.
- LegacyVP.DiskVP.TopkSearchIdx: not proved to return the `k` nearest records, for the kernel and ball reasons given for `TopKSearch.Run`; it runs `LookUpNearsetTo`, whose `Admit` can keep a farther item. The model requires `kk >= 1`, since with `k == 0` the source reads the top of an empty heap.
- LegacyVP.DiskVP.TopkSearch: not proved to return the `k` nearest records, for the same reasons as `TopkSearchIdx`. The model requires `kk >= 1`, for the same reason.
- VPSearch.TopKSearch.Run: requires `TreeFile(records)`, every present link pointing to a later record. The source needs only links that are in range and acyclic; on a file with a cycle it does not terminate. Such a file can arise, for instance, when a one-record range of the current builder keeps stale links copied verbatim by `WriteRecordToDisk`, since that `updateNode` call writes nothing. The builders' own output meets the requirement (`FreshRestruct`, `FreshBuilt`).
- VPSearch.MaxDistanceSearch.Run: requires `TreeFile(records)` for the same reason as `TopKSearch.Run`; the source does not terminate on a cyclic file.
- LegacyVP.DiskVP.LookUpNearsetTo: requires `TreeFile(records)` for the same reason as `TopKSearch.Run`; the source's recursion does not terminate on a cyclic file.
- VPTree.DiskVP.WriteEntryToDisk: requires a vector of at least `d` floats. The source's `fwrite` of `d` floats reads past a shorter vector.
- VPTree.DiskVP.WriteRecordToDisk: requires a vector of at least `d` floats, for the same reason as `VPTree.DiskVP.WriteEntryToDisk`.
- LegacyVP.DiskVP.WriteEntryToDisk: requires a vector of at least `d` floats, for the same reason as `VPTree.DiskVP.WriteEntryToDisk`.
- LegacyVP.DiskVP.WriteRecordToDisk: requires a vector of at least `d` floats, for the same reason as `VPTree.DiskVP.WriteEntryToDisk`.
- VPBuild.Blockade: the source's `int blockade` may be below -1. Such values are converted to `size_t` in `first+blockade<last` and `median = blockade`, which makes positions outside the range. The type admits only -1 and above.
- SearchHeap.Push: a new item goes before the items of equal distance. This fixes which of several equal-distance items `Top` and `Pop` remove, which `std::priority_queue` leaves unspecified.
- FAISS.FAISSBatch.AddToBatch: a negative `idx` is not rejected by the source and writes before the buffer. The model requires `0 <= idx`.
- FAISS.FAISSBatch.constructor: `d * nb` is computed in `int`. The model requires that it does not overflow.
- FAISS.FAISSBatch.constructor: the model requires `0 <= d` and `0 <= nb`. In the source a negative product makes `new float[d * nb]` throw `std::bad_array_new_length`, an error path the model drops, and two negatives are accepted and allocate a buffer.
- BKTree.BKTreeDisk.Add: a pending object must have a primary record (`id < n / 2`) and a datum that fits a block. The model requires both, because the source writes past the mapped files otherwise.
- BKTree.BKTreeDisk.Add: `requires used < blocks.Length` asks for a free block even on the paths that allocate none, a distance-0 match or a refusal. A full tree file is therefore outside the model on every path, although the source reaches those two outcomes without writing.
- BKTree.BKTreeDisk.FinaliseInsertion: reachability is proved down the child links only. The parent chain is not modelled: `parentOffset` holds the parent's object id, and a root keeps 0, which is also a valid id.
- BKTree.BKTreeDisk.FinaliseInsertion: the model requires room for every queued object. It does not model running out of blocks, which the source does not check.

# AK, verified

A Dafny model of the parts of AK, the base library of the browser, whose correctness rests on an invariant that the
code does not spell out. Each part is modelled in the form it has in the source, and proved against a short,
independent specification.

| part | files | specification |
|---|---|---|
| red-black tree with parent links | `RedBlackShape`, `RedBlackFixups`, `RedBlackDeficit`, `RedBlackRelink`, `RedBlackTree`, `RedBlackRuns` | a sorted list, equal keys by time of insertion |
| Robin Hood hash table, with and without insertion order | `RobinHood`, `InsertionOrder`, `HashTable` | a list of entries in order of first insertion |
| multi-word integers, Knuth's Algorithm D | `Words`, `BigInt`, `BigIntShift`, `BigIntMul`, `BigIntEstimate`, `BigIntDiv` | the integers |
| ring buffer with history copy | `CircularBuffer` | all bytes ever written, and how many of them wait |
| substring search | `MemMem` | the leftmost occurrence |
| quicksort and insertion sort | `QuickSort` | a sorted rearrangement, any strict weak order |
| binary heap | `BinaryHeap` | a multiset |
| bit streams | `BitStream` | one number; what is written is read back |
| bitmap search | `BitmapView` | the leftmost run of unset bits from a given one on |
| lexical paths | `LexicalPath` | where a path leads from every directory, part by part |
| reference counter, lazy singleton | `AtomicRefCounted`, `Singleton` | invariants over every interleaving |

`Bits` holds facts about powers of two and bitwise operations, `Common` an option type and a minimum.
`dafny verify dfyconfig.toml` verifies the project.

## How the parts are modelled

- Red-black tree: nodes are heap objects with left, right and parent links. A ghost tree and a ghost context (the path
  to a subtree, with what hangs off it) describe the heap; balance, order and links are proved on these values and
  carried back to the heap. Keys are integers; values are left out, since the tree never looks at them.
- Hash table: the fields of a bucket are kept in two arrays, one for state, hash and value, one for the list links. Both
  have one element more than there are buckets, which is the temporary bucket of an insertion. Values are entries that
  are equal when their keys are. The hash is always stored, and compared first only when equality may be slow.
- Integers: a storage is a sequence or array of words below a base `b`, which is 2^w where bits matter. Double-word
  arithmetic wraps around explicitly. Built-in carry instructions are the portable form beside them in the source.
- Ring buffer: a failed VERIFY in the middle of a copy is a result of its own, `Aborted`.
- Bit streams: the stream behind the reader is two fields, the bytes to come and an end flag; a function parameter
  decides how every read is shortened. A refill that cannot progress is a result of its own, `Stuck`; in the source it
  does not return.
- Hosts are little-endian where the source reads words from bytes.
- Threads: every atomic operation is one step, sequentially consistent. A run is a sequence of steps of any number of
  threads; a failed VERIFY sets a flag and ends the run.

Where the code and its documentation or the obvious law differ, a member says exactly when the law holds and another
shows an input for which it does not:

- `copy_from_seekback` is the byte-by-byte copy whenever it fits into the empty space. For longer requests the doubled
  distance can leave the buffer and fail a VERIFY. `CopyFromSeekback` says exactly when, `Replay` for whole runs, and
  `MoreThanFitsCanAbort` performs such a copy.
- A division whose remainder has more words than the dividend and one leaves the upper words of the remainder
  unwritten. `DivMod` says exactly when the stored remainder is right; `StaleRemainder` is a division that leaves it wrong.
- `baseline_mul` on two storages of one word each reads the words without their signs. `BaselineMul` says exactly when the
  product is right; `SignedWordsGoWrong` multiplies minus one by one. Everywhere else the signed product is right.
- `find_next_range_of_unset_bits` does not always start where it is told: an empty word is taken from its first bit, and
  a start behind all whole words is moved back to their end. `FindNextRangeOfUnsetBits` says for every start where the
  search begins, `StartHonoured` when that makes no difference, and `EarlierThanAsked` is a search where it does.
- `bitap_bitwise` does not find the empty needle at offset zero; `BitapBitwise` says what it returns. Its caller does not
  ask.
- A read of more than 57 bits may never return. `ReadBits` and `RefillBufferFromStream` say exactly when, from the bits that
  wait, the bytes ahead and the end flag; `AlwaysReturns` that 57 is the limit for all states; `StuckCall` is such a read.
- `write_bits` with a value that has bits above the count can leave such a bit in the buffer. `WriteBits` says exactly when;
  `StrayBit` is such a write.
- `ref` past the largest count wraps the counter around before its VERIFY fails. A run has such a request exactly when, at
  its end, a VERIFY has failed or a thread is bound to fail one (`EveryRun`, `OverflowShows`). Between the two, an `unref`
  of another thread can destroy an object that is still referenced; `DestroyedWhileOwned` is such a run.
- The bulk constructor of the heap records indices only for the elements it moves. `FromNodes` says so for every place and
  keeps indices that were recorded before; in a strict heap nothing moves, so there they are true afterwards exactly when
  they were before (`BuiltAtOnce`). `UnrecordedPlaces` is a heap with false indices.

## Model

| member | source | states |
|---|---|---|
| `RedBlackTree.BaseRedBlackTree.constructor` | AK/RedBlackTree.h:49-50 | a new tree is valid and empty |
| `RedBlackTree.BaseRedBlackTree.RotateLeft` | AK/RedBlackTree.h:52-77 | exactly the child, parent and root links of a left rotation change, and no colour |
| `RedBlackTree.BaseRedBlackTree.RotateRight` | AK/RedBlackTree.h:79-104 | the mirror image |
| `RedBlackTree.BaseRedBlackTree.RotateLeftAt` | AK/RedBlackTree.h:52-77 | on a tree with consistent parent links the rotation gives the rotated tree, again with consistent links, and the same key order |
| `RedBlackTree.BaseRedBlackTree.RotateRightAt` | AK/RedBlackTree.h:79-104 | the mirror image |
| `RedBlackTree.BaseRedBlackTree.Find` | AK/RedBlackTree.h:106-116 | a node with the key, or null exactly when no node has it |
| `RedBlackTree.BaseRedBlackTree.FindLargestNotAbove` | AK/RedBlackTree.h:118-132 | a node with the largest key not above the given one, or null exactly when there is none |
| `RedBlackTree.BaseRedBlackTree.FindSmallestNotBelow` | AK/RedBlackTree.h:134-149 | a node with the smallest key not below the given one, or null exactly when there is none |
| `RedBlackTree.BaseRedBlackTree.Insert` | AK/RedBlackTree.h:151-182 | keeps every invariant (black root, no red node with a red child, equal black height, parent links, sorted order, `m_size`, `m_minimum`); the new node stands behind all nodes with equal or smaller keys and nothing else moves |
| `RedBlackTree.BaseRedBlackTree.InsertFixups` | AK/RedBlackTree.h:184-224 | from one red node with a red parent to a red-black tree, with the same nodes in the same order; ends because the depth shrinks |
| `RedBlackTree.BaseRedBlackTree.FixLeftParent` | AK/RedBlackTree.h:205-220 | one round when the parent is a left child: the violation moves up two levels or is gone, order and nodes kept |
| `RedBlackTree.BaseRedBlackTree.FixRightParent` | AK/RedBlackTree.h:189-204 | the mirror image |
| `RedBlackTree.BaseRedBlackTree.Remove` | AK/RedBlackTree.h:226-304 | keeps every invariant; exactly the given node leaves the sequence |
| `RedBlackTree.BaseRedBlackTree.Relink` | AK/RedBlackTree.h:244-284 | the in-place exchange of a node with its successor, link by link, also when the successor is its right child |
| `RedBlackTree.BaseRedBlackTree.ExchangeWithSuccessor` | AK/RedBlackTree.h:244-284 | after the exchange the node has no left child, and the tree without it has the same order and balance |
| `RedBlackTree.BaseRedBlackTree.TakeOut` | AK/RedBlackTree.h:286-297 | splicing out a node with at most one child leaves a consistent tree without it |
| `RedBlackTree.BaseRedBlackTree.RemoveFixups` | AK/RedBlackTree.h:307-362 | from a subtree one black node short to a red-black tree, with the same nodes in the same order |
| `RedBlackTree.BaseRedBlackTree.FixShortLeft` | AK/RedBlackTree.h:311-334 | one round when the short side is the left: the deficit moves up, or ends at a red node; no link it follows is null |
| `RedBlackTree.BaseRedBlackTree.FixShortRight` | AK/RedBlackTree.h:335-358 | the mirror image |
| `RedBlackDeficit.ShortHasSibling` | AK/RedBlackTree.h:311-312 | a short black subtree has a sibling, so the sibling is never null |
| `RedBlackDeficit.RedSiblingRight` | AK/RedBlackTree.h:312-317 | a red sibling has a black inner child, which becomes the new, non-null sibling; the deficit and the order stay |
| `RedBlackDeficit.RedSiblingLeft` | AK/RedBlackTree.h:336-341 | the mirror image |
| `RedBlackDeficit.BlackNephewsRight` | AK/RedBlackTree.h:318-320 | painting a black sibling with black children red moves the deficit to the parent |
| `RedBlackDeficit.BlackNephewsLeft` | AK/RedBlackTree.h:342-344 | the mirror image |
| `RedBlackDeficit.NearNephewRight` | AK/RedBlackTree.h:322-327 | turning the red near child of the sibling to the far side keeps deficit and order |
| `RedBlackDeficit.NearNephewLeft` | AK/RedBlackTree.h:346-351 | the mirror image |
| `RedBlackDeficit.FarNephewRight` | AK/RedBlackTree.h:328-331 | raising a sibling with a red far child repairs the whole tree and keeps the order |
| `RedBlackDeficit.FarNephewLeft` | AK/RedBlackTree.h:352-355 | the mirror image |
| `RedBlackTree.BaseRedBlackTree.EndFromRight` | AK/RedBlackTree.h:321-333 | the case with a red nephew on the heap: both "null check?" sites find a node, and the tree is repaired |
| `RedBlackTree.BaseRedBlackTree.EndFromLeft` | AK/RedBlackTree.h:345-357 | the mirror image |
| `RedBlackTree.BaseRedBlackTree.Successor` | AK/RedBlackTree.h:364-379 | the next node in key order, or null behind the last |
| `RedBlackTree.BaseRedBlackTree.Predecessor` | AK/RedBlackTree.h:381-396 | the previous node in key order, or null before the first |
| `RedBlackTree.BaseRedBlackTree.InsertKey` | AK/RedBlackTree.h:483-500 | a new node with the key stands behind all nodes with equal or smaller keys and no other node moves; the sorted list of keys gains the key |
| `RedBlackTree.BaseRedBlackTree.RemoveKey` | AK/RedBlackTree.h:562-575 | true exactly when the key is there; then one node with the key leaves and the others keep their order, otherwise nothing changes; the sorted list of keys loses one occurrence |
| `RedBlackRuns.Replay` | AK/RedBlackTree.h:151-362 | every run of insertions and removals leaves a valid tree whose keys are those of a sorted list under the same run; its nodes are sorted by key and, among equal keys, by the operation of the run that inserted them |
| `RedBlackRuns.InsertedInOrder` | AK/RedBlackTree.h:151-182 | inserting the newest node keeps the order by key and then by time of insertion |
| `RedBlackRuns.RemovedInOrder` | AK/RedBlackTree.h:226-304 | removing any node keeps that order |
| `RedBlackShape.PlugBalanced` | AK/RedBlackTree.h:151-362 | local balance facts along the path to a subtree and in it are together the red-black property of the whole tree |
| `RedBlackShape.HeightIsLogarithmic` | AK/RedBlackTree.h:151-224 | a red-black tree of n nodes is at most 2 log2(n + 1) high |
| `HashTables.HashTable.constructor` | AK/HashTable.h:178-178 | a new table is valid and empty |
| `HashTables.HashTable.LookupWithHash` | AK/HashTable.h:658-673 | the bucket with the key, or null exactly when no entry has it; the probe loop ends because a free bucket exists |
| `RobinHood.AbsentWhenRicher` | AK/HashTable.h:745-763 | a probe that meets a bucket richer than itself proves that the key is absent, so stealing makes no duplicate |
| `RobinHood.OnTheWay` | AK/HashTable.h:675-698 | between the home of an entry and its place there is no free bucket and no richer one |
| `HashTables.HashTable.ProbeLengthIsTrue` | AK/HashTable.h:675-691 | the state byte, or the recomputation when it is saturated, gives the true distance from the home bucket |
| `RobinHood.FreeExists` | AK/HashTable.h:583-583 | below full load some bucket is free |
| `HashTables.HashTable.ProbeForWriting` | AK/HashTable.h:745-763 | stops at the entry with the key, at a free bucket, or at the first richer bucket, and then the key is absent |
| `HashTables.HashTable.UpdateForSwapped` | AK/HashTable.h:716-743 | after a swap of two buckets that may be neighbours in the list, the list runs through the same entries in the same order |
| `HashTables.HashTable.CarryStep` | AK/HashTable.h:780-816 | one round of the displacement: the carried bucket moves on or is exchanged for a richer one, and entries and order are kept |
| `HashTables.HashTable.Displace` | AK/HashTable.h:765-822 | displacing through the temporary bucket ends at a free one and keeps entries, probe invariant and list order |
| `HashTables.HashTable.LookupForWriting` | AK/HashTable.h:700-824 | an existing entry, or a reserved bucket in which the new entry keeps the probe invariant |
| `HashTables.HashTable.CommitInsertedBucket` | AK/HashTable.h:826-840 | the new entry is stored, counted, and last in the list |
| `HashTables.HashTable.WriteValue` | AK/HashTable.h:842-861 | inserts, replaces or keeps exactly as the existing-entry behaviour says; a replaced value keeps its place in the order |
| `HashTables.HashTable.TryRehash` | AK/HashTable.h:623-651 | growing keeps the entries and their insertion order, at the next power of two |
| `HashTables.HashTable.Set` | AK/HashTable.h:383-395 | the same for the public write; the buckets stay where they are iff the load stays below 70 percent, and otherwise their number becomes the least power of two not below twice the old one and 8 |
| `HashTables.HashTable.EnsureCapacity` | AK/HashTable.h:257-271 | room for n values, with entries and order kept; nothing moves iff there was room, otherwise the least power of two that gives it |
| `HashTables.HashTable.SetAll` | AK/HashTable.h:257-265 | as many writes as there is room for never reallocate |
| `HashTables.HashTable.DeleteBucket` | AK/HashTable.h:863-925 | exactly this entry leaves the table and the list; what stands before the bucket afterwards stood there or was shifted around the end |
| `HashTables.HashTable.ShiftStep` | AK/HashTable.h:900-924 | one backward shift keeps the probe invariant around the hole and the list order |
| `HashTables.HashTable.Remove` | AK/HashTable.h:488-508 | exactly the entry with the key goes, and true is returned exactly when there was one |
| `HashTables.HashTable.RemoveAllMatching` | AK/HashTable.h:517-534 | exactly the entries that do not match stay, in order, although deletions shift buckets under the index and around the end |
| `HashTables.HashTable.TakeAllMatching` | AK/HashTable.h:536-553 | every matching entry is returned once and the others stay in order |
| `HashTables.HashTable.Forward` | AK/HashTable.h:288-298 | following head and next visits the entries in order of first insertion |
| `HashTables.HashTable.Backward` | AK/HashTable.h:330-358 | following tail and previous visits them in reverse |
| `InsertionOrder.RenameLinked` | AK/HashTable.h:597-609 | exchanging two buckets of a doubly linked list, neighbours or not, exchanges their numbers in the order |
| `HashTables.Replay` | AK/HashTable.h:383-395 | every run of writes, removals, explicit growth and bulk removals refines a list of entries in order of first insertion, and the ordered table lists exactly it |
| `HashTables.ModelKept` | AK/HashTable.h:517-553 | on the reference list a bulk removal keeps exactly the entries that do not match |
| `BigInt.AddWords` | AK/BigIntBase.h:188-229 | word1 + word2 + carry = output + 2^w * carry out |
| `BigInt.SubWords` | AK/BigIntBase.h:231-272 | word1 - word2 - carry = output - 2^w * carry out |
| `BigInt.Compare` | AK/BigIntBase.h:321-366 | the sign of the difference of two signed or unsigned numbers of any sizes; zero iff equal also in inequality mode |
| `BigIntShift.ShiftLeft` | AK/BigIntBase.h:423-443 | the value times 2^shift modulo 2^(size * w), in place or not |
| `BigIntShift.ShiftRight` | AK/BigIntBase.h:445-462 | the value divided by 2^shift, in place or not; words above the operand size are untouched |
| `BigInt.Add` | AK/BigIntBase.h:464-494 | the documented integer equation for all mixes of signedness, and r = 0 iff the exact result fits; either operand may be the result |
| `BigInt.Negate` | AK/BigIntBase.h:517-528 | the negative modulo 2^(size * w), in place or not; the carry is set iff the operand was not zero |
| `BigIntMul.BaselineMul` | AK/BigIntBase.h:530-596 | for operands of any sizes and signs, the product modulo 2^(w * result size), except on two storages of one word, where this holds iff `SingleRight` |
| `BigIntMul.MulLong` | AK/BigIntBase.h:553-595 | the general path: magnitudes and a final negation, or raw words when the result is no longer than either operand, both give the signed product |
| `BigIntMul.SignedWordsGoWrong` | AK/BigIntBase.h:537-551 | minus one times one, in one word each, does not give minus one in two words |
| `BigIntMul.AddColumn` | AK/BigIntBase.h:575-592 | one column: word and double-word carry hold the exact column sum, with every double-word operation wrapping, so nothing overflows |
| `BigIntMul.CarryRoom` | AK/BigIntBase.h:575-592 | the column carry stays within the number of rows times a word |
| `BigIntMul.RowsAreProduct` | AK/BigIntBase.h:575-592 | the columns below n add up to the product modulo 2^(w n) |
| `BigIntEstimate.DivModWords` | AK/BigIntBase.h:285-295 | quotient and remainder of two words by one |
| `BigIntEstimate.EstimateQuotient` | AK/BigIntBase.h:621-639 | the estimate is the exact quotient of three leading words by two, or the largest word where the test is skipped |
| `BigIntEstimate.EstimateFits` | AK/BigIntBase.h:621-639 | the estimate is the true quotient word or one more, also where it is set to the largest word |
| `BigIntDiv.MulSub` | AK/BigIntBase.h:641-649 | the window loses qhat times the divisor, with the borrow out of its top word |
| `BigIntDiv.AddBack` | AK/BigIntBase.h:651-656 | the window gains the divisor, with the carry out of its top word |
| `BigIntDiv.DivStep` | AK/BigIntBase.h:618-659 | one quotient word: the window is reduced below the divisor, both VERIFYs hold and one add-back is enough |
| `BigIntDiv.ClzNormalizes` | AK/BigIntBase.h:608-611 | shifted by its leading zeroes, a word has its top bit set and loses nothing |
| `BigIntDiv.DivModInternal` | AK/BigIntBase.h:598-667 | dividend = quotient * divisor + remainder and remainder < divisor |
| `BigIntDiv.DivMod` | AK/UFixedBigIntDivision.h:14-78 | the same through every fast path; fails iff the divisor is zero; the stored remainder is right iff long division is not used or the words it leaves unwritten were zero; without a request for it the remainder is not touched |
| `BigIntDiv.StaleRemainder` | AK/UFixedBigIntDivision.h:72-77 | two words divided by four with a nonzero word left in the remainder: the quotient is right and the stored remainder is not |
| `CircularBuffers.CircularBuffer.CreateEmpty` | AK/CircularBuffer.cpp:19-26 | an empty queue without history |
| `CircularBuffers.CircularBuffer.Clear` | AK/CircularBuffer.cpp:92-97 | an empty queue without history |
| `CircularBuffers.CircularBuffer.NextWriteSpan` | AK/CircularBuffer.cpp:99-104 | free bytes in a row at the write position, up to the last free byte or the end of the buffer, none only when the buffer is full |
| `CircularBuffers.CircularBuffer.NextReadSpan` | AK/CircularBuffer.cpp:106-120 | bytes in a row that start the given offset behind the read position, up to the last waiting byte or the end of the buffer, none exactly when no more than the offset wait |
| `CircularBuffers.CircularBuffer.ReadSpanHolds` | AK/CircularBuffer.cpp:106-120 | that span holds the waiting bytes that follow the first ones |
| `CircularBuffers.CircularBuffer.NextSeekbackSpan` | AK/CircularBuffer.cpp:122-131 | bytes in a row that start the given distance before the write position |
| `CircularBuffers.CircularBuffer.Write` | AK/CircularBuffer.cpp:144-165 | appends as many bytes as fit; copying from the buffer itself overwrites no byte before it is copied |
| `CircularBuffers.CircularBuffer.Read` | AK/CircularBuffer.cpp:167-188 | takes the oldest bytes in order, as many as wait and as fit |
| `CircularBuffers.CircularBuffer.ReadWithSeekback` | AK/CircularBuffer.cpp:190-209 | the bytes written from the given distance back, or an error iff the distance is beyond the limit |
| `CircularBuffers.CircularBuffer.Discard` | AK/CircularBuffer.cpp:211-219 | drops the oldest bytes, or an error iff there are too few |
| `CircularBuffers.CircularBuffer.CopyFromSeekback` | AK/CircularBuffer.cpp:254-278 | appends exactly what copying byte by byte from the distance back appends; the VERIFY on the doubled distance fails iff `RunsPast` |
| `CircularBuffers.FitsIsSafe` | AK/CircularBuffer.cpp:254-278 | a copy that fits into the empty space never fails that VERIFY |
| `CircularBuffers.MoreThanFitsCanAbort` | AK/CircularBuffer.cpp:254-278 | six bytes written and read in a buffer of ten: a copy of a hundred from six back fails that VERIFY |
| `CircularBuffers.ChunkIsByteCopy` | AK/CircularBuffer.cpp:269-274 | a block from any covered multiple of the distance is what the single steps append (section 3.2.3 of RFC 1951) |
| `CircularBuffers.Replay` | AK/CircularBuffer.cpp:144-278 | every run from an empty buffer refines a queue with all bytes ever written; it is cut short exactly when some copy of the run meets `RunsPast` |
| `CircularBuffers.FittingNeverAborts` | AK/CircularBuffer.cpp:254-278 | a run whose copies all fit is never cut short |
| `MemMem.PrepareKmpPartialTable` | AK/MemMem.h:51-73 | each entry is the longest border of its prefix that a different byte follows |
| `MemMem.SearchChunks` | AK/MemMem.h:46-104 | for every split into chunks, empty ones included, the leftmost occurrence in the concatenation, or nothing iff there is none |
| `MemMem.MismatchFalls` | AK/MemMem.h:95-101 | falling back along the table skips no occurrence |
| `MemMem.NeedleMasks` | AK/MemMem.h:25-32 | bit k of the mask of a byte is zero iff the needle has that byte at k |
| `MemMem.LookupStep` | AK/MemMem.h:34-36 | bit k of the lookup word is zero iff the first k needle bytes end here |
| `MemMem.BitapBitwise` | AK/MemMem.h:19-43 | leftmost search for needles of 1 to 31 bytes; for the empty needle, which the caller keeps away, offset one |
| `MemMem.MemmemOptional` | AK/MemMem.h:106-130 | leftmost search on all inputs, whichever branch runs |
| `QuickSort.InsertionSort` | AK/InsertionSort.h:15-23 | the range is sorted and rearranged, the rest untouched |
| `QuickSort.ChoosePivots` | AK/QuickSort.h:36-51 | the pivots at the ends are in order |
| `QuickSort.Partition` | AK/QuickSort.h:53-83 | below the left pivot, between the pivots, not below the right pivot |
| `QuickSort.DualPivotQuickSort` | AK/QuickSort.h:28-105 | for any strict weak order the range is a sorted rearrangement and the rest untouched; nested calls get a smaller budget, and a budget of r is enough below 2^(r + 2) elements |
| `QuickSort.SinglePivotQuickSort` | AK/QuickSort.h:107-141 | the same for the single-pivot sort, where a budget of r nested calls is enough below 2^r elements |
| `QuickSort.Sort` | AK/QuickSort.h:153-164 | sorts a whole collection, for n > 7 elements with at most log2(n) - 1 nested calls |
| `QuickSort.SortBetween` | AK/QuickSort.h:141-151 | sorts between two iterators, for n > 0 elements with at most log2(n) + 1 nested calls |
| `QuickSort.Nesting` | AK/QuickSort.h:129-130 | the least budget that is enough, by powers of two |
| `BitStream.OutputBitStream.WriteBits` | AK/BitStream.h:379-402 | adds the low bits of the value above all bits written so far, and hands out eight bytes iff the buffer fills up, unless a bit above the count stays in the buffer, which happens iff `LeavesStray` |
| `BitStream.StrayBit` | AK/BitStream.h:379-402 | a write of three as one bit leaves a stray bit |
| `BitStream.OutputBitStream.FlushBufferToStream` | AK/BitStream.h:404-420 | moves out exactly the whole bytes in the buffer and changes no bit |
| `BitStream.OutputBitStream.AlignToByteBoundary` | AK/BitStream.h:441-447 | adds at most seven zero bits up to a whole byte |
| `BitStream.InputBitStream.RefillBufferFromStream` | AK/BitStream.h:249-272 | changes no bit that lies ahead; never returns iff what waits and the bytes that fit do not satisfy the request while the stream behind has more to give or has not said that it is at its end |
| `BitStream.InputBitStream.ReadBits` | AK/BitStream.h:205-231 | the next bits and the rest behind them; never returns under exactly the same condition, so never for up to 57 bits nor for what waits and the bytes that fit; otherwise an error iff too few bits are left and none are made up |
| `BitStream.AlwaysReturns` | AK/BitStream.h:249-272 | a request returns in every state of buffer and stream iff it is for at most 57 bits |
| `BitStream.StuckCall` | AK/BitStream.h:249-272 | after seven bits of nine bytes, a read of 58 does not return, however reads are shortened |
| `BitStream.RoundTrip` | AK/BitStream.h:205-272 | any items of up to 57 bits that are written, aligned and flushed are read back value for value, however reads are shortened |
| `BitStream.WriteAll` | AK/BitStream.h:379-447 | the bytes of a written, aligned and flushed stream are the packed items as one number |
| `BitmapView.Get` | AK/BitmapView.h:31-35 | bit index % 8 of byte index / 8 |
| `BitmapView.WordBit` | AK/BitmapView.h:210-210 | bit i of a little-endian word is bit i % 8 of its byte i / 8 |
| `BitmapView.ScanBucket` | AK/BitmapView.h:243-275 | a mixed word, scanned by counting trailing zeroes and ones, finds what a scan bit by bit finds |
| `BitmapView.FindNextRangeOfUnsetBits` | AK/BitmapView.h:202-296 | from the given bit on, or from the start of its word when that is empty, or from the end of the whole words when it is behind them: the leftmost run of at least the minimum or nothing iff there is none; its length is the maximum or ends at a set bit, at the end of the whole words, or behind those as soon as it is enough; asked for no bits behind the whole words, the given place |
| `BitmapView.StartHonoured` | AK/BitmapView.h:212-219 | the search finds what a search from the given bit finds iff nothing fits between its real start and that bit |
| `BitmapView.EarlierThanAsked` | AK/BitmapView.h:229-240 | in an empty word a search from bit ten finds bit zero |
| `BitmapView.FindFirstFit` | AK/BitmapView.h:324-332 | the leftmost run of at least n unset bits, for every n, or nothing iff there is none |
| `BinaryHeap.IntrusiveBinaryHeap.FromNodes` | AK/BinaryHeap.h:22-27 | a heap of exactly the given values; every place holds an element with its own index recorded or the element that was given there, so recorded indices stay true; a strict heap is left as it is |
| `BinaryHeap.BuiltAtOnce` | AK/BinaryHeap.h:22-27 | built from a strict heap, the indices are true iff they were |
| `BinaryHeap.UnrecordedPlaces` | AK/BinaryHeap.h:22-27 | two elements in order with unrecorded indices keep them |
| `BinaryHeap.IntrusiveBinaryHeap.Insert` | AK/BinaryHeap.h:32-44 | a heap with one value more; recorded indices stay true |
| `BinaryHeap.IntrusiveBinaryHeap.Pop` | AK/BinaryHeap.h:46-56 | removes exactly the element at i and restores heap order, although it is first lifted to the root without comparing; recorded indices stay true |
| `BinaryHeap.IntrusiveBinaryHeap.PopMin` | AK/BinaryHeap.h:58-61 | removes a least element |
| `BinaryHeap.IntrusiveBinaryHeap.PopAll` | AK/BinaryHeap.h:58-61 | repeated removal of the least element sorts |
| `BinaryHeap.IntrusiveBinaryHeap.HeapifyUp` | AK/BinaryHeap.h:91-100 | from one element too low to a heap |
| `BinaryHeap.IntrusiveBinaryHeap.HeapifyDown` | AK/BinaryHeap.h:102-114 | from one element too high to a heap |
| `BinaryHeap.LiftStep` | AK/BinaryHeap.h:48-51 | lifting without comparing disturbs only the lifted element |
| `LexicalPath.CanonicalizedPath` | AK/LexicalPath.cpp:101-145 | early return and loop both give a text without double slash, final slash or dot part that goes up only at the front, and that leads where the path leads from every directory |
| `LexicalPath.CanonicalHasForm` | AK/LexicalPath.cpp:136-144 | a canonical path is ".", "/", or has single slashes, none at its end, and canonical parts |
| `LexicalPath.FormIsFixed` | AK/LexicalPath.cpp:101-145 | exactly the texts of that form are their own canonical paths |
| `LexicalPath.OnlyCanonical` | AK/LexicalPath.cpp:101-145 | the canonical path is the only text of that form that leads where the path leads |
| `LexicalPath.AlreadyCanonical` | AK/LexicalPath.cpp:107-109 | a path without dots, double slashes and final slash is canonical |
| `LexicalPath.CanonicalIdempotent` | AK/LexicalPath.cpp:101-145 | a canonical path is its own canonical path |
| `LexicalPath.CanonicalKeepsMeaning` | AK/LexicalPath.cpp:101-145 | from every directory, a path and its canonical path lead to the same place, following parts one by one |
| `LexicalPath.CanonicalIsMeaning` | AK/LexicalPath.cpp:101-145 | two paths lead to the same place from every directory iff they have the same canonical path |
| `LexicalPath.ReduceIsReduced` | AK/LexicalPath.cpp:116-134 | canonical parts hold no dot part, and dot-dot parts only at the front of a relative path |
| `LexicalPath.RelativePath` | AK/LexicalPath.cpp:155-198 | nothing iff one of the paths is relative; otherwise joining the prefix and the result leads to the path, the law stated in AK/LexicalPathWindows.cpp:117; the result is "." iff both canonical paths are equal, and otherwise has the fewest parts of all texts that lead there, single slashes, and a final slash iff it ends by going up |
| `LexicalPath.NoShorterText` | AK/LexicalPath.cpp:181-196 | every text that leads from the prefix to the path has at least as many parts as there are steps up and down between them |
| `AtomicRefCounted.StepKeeps` | AK/AtomicRefCounted.h:26-82 | every atomic step of any thread that does not overflow the counter keeps: counter = references owned, no failed VERIFY, one thread has seen zero iff the counter is zero, and a try_ref has read zero only if it is |
| `AtomicRefCounted.EveryRun` | AK/AtomicRefCounted.h:26-82 | over every interleaving, whether or not the counter overflows: an overflow shows at the end iff there was one; without one no VERIFY has failed, the counter is the number of references owned, and when nobody owns one and nobody is on the way exactly one unref has destroyed |
| `AtomicRefCounted.RefTakes` | AK/AtomicRefCounted.h:26-31 | below the largest count, ref returns with one reference more |
| `AtomicRefCounted.TryRefTakes` | AK/AtomicRefCounted.h:33-43 | on a living object below the largest count, try_ref returns with one reference more |
| `AtomicRefCounted.TryRefRefuses` | AK/AtomicRefCounted.h:33-43 | on a dead object try_ref returns and changes nothing |
| `AtomicRefCounted.RefusedAtZero` | AK/AtomicRefCounted.h:33-43 | on every run, a try_ref is refused only when the counter is zero and nobody owns a reference |
| `AtomicRefCounted.UnrefGives` | AK/AtomicRefCounted.h:57-82 | unref returns with one reference less, and with the last one destroys once |
| `AtomicRefCounted.FinishesAlone` | AK/AtomicRefCounted.h:26-82 | from every state that meets the invariant, a call left alone returns within four steps with what it should, unless it has read the largest count |
| `AtomicRefCounted.ExchangeFailsForAReason` | AK/AtomicRefCounted.h:36-42 | an exchange fails only if another thread changed the counter after it was read |
| `AtomicRefCounted.ZeroIsFinal` | AK/AtomicRefCounted.h:33-43 | once zero, always zero: no try_ref succeeds |
| `AtomicRefCounted.OverflowIsCaught` | AK/AtomicRefCounted.h:26-43 | a request past the largest count fails a VERIFY or leaves a thread that is bound to fail one |
| `AtomicRefCounted.OverflowShows` | AK/AtomicRefCounted.h:26-43 | from any state that meets the invariant, a run has such a request iff its end shows it |
| `AtomicRefCounted.DestroyedWhileOwned` | AK/AtomicRefCounted.h:26-82 | a run from a new object that destroys it while more references are owned than the counter holds, before any VERIFY fails |
| `Singleton.StepKeeps` | AK/Singleton.h:41-71 | every atomic step moves the variable only from null to 0x1 to the instance and keeps one creator at most |
| `Singleton.EveryRun` | AK/Singleton.h:41-71 | over every interleaving the initialiser runs at most once, every creating call that has returned has returned that same non-null instance, and both VERIFYs hold |
| `Singleton.CallFindsInstance` | AK/Singleton.h:44-70 | once the instance is there, a call loads and returns it |
| `Singleton.FirstCallCreates` | AK/Singleton.h:44-54 | the first creating call creates, stores and returns an instance |
| `Singleton.PeekFindsNothing` | AK/Singleton.h:44-70 | before that, a call that may not create returns null |
| `Singleton.ReturnsInstance` | AK/Singleton.h:44-70 | from every state that meets the invariant with the instance stored, every call returns it within three own steps, unless it may not create and has read null |
| `Singleton.EveryCallCanReturn` | AK/Singleton.h:41-71 | from every state that meets the invariant, every call can return, and a creating call then returns the instance |
| `Singleton.WaitIsAnswered` | AK/Singleton.h:57-64 | while a call waits, some thread is creating the instance or it is there |

## Left out

- Allocation failure, placement new, moves, destructors and `will_be_destroyed`: values are plain data and allocation succeeds.
- `HashTable::ensure` with a callback: lookups while an insertion is half done.
- Iterators of the tree and the table, `clear_with_capacity`, `take_first` and `take_last`: easy members.
- BigIntMul.BaselineMul: operand lengths are at most the word base, which every length within `max_big_int_length` is; a product of two signed words beyond the signed double word, which has no meaning in the source, wraps around.
- `increment`, `compute_bitwise` and the operators of `UFixedBigInt`: easy members over the operations above.
- BitStream.OutputBitStream.WriteBits: at most as many bits as the type of the value has, because beyond that the source shifts by more than the width of the type.
- BitStream.InputBitStream.ReadBits: fewer than 64 bits, because a shift of a 64-bit word by 64 has no meaning in the source.
- The big-endian bit streams, and errors of the streams behind the bit streams.
- CircularBuffers.CircularBuffer.Discard: at least one byte of capacity when the request is met, because the source takes a remainder by the capacity.
- CircularBuffers.CircularBuffer.ReadWithSeekback: at least one byte of capacity when bytes are wanted and the distance is within the limit, for the same reason.
- `create_initialized`, `offset_of`, the stream functions and the searchable buffer.
- MemMem.SearchChunks: the table entries are unbounded integers, where the source has `int`.
- QuickSort.DualPivotQuickSort: indices are unbounded integers, where the source has `int`; the comparison has no side effects.
- `count_in_range`, `find_one_anywhere`, `find_longest_range_of_unset_bits` and `find_best_fit`.
- `BinaryHeap`, the wrapper with keys and values around the intrusive heap.
- `dirname`, `basename`, `is_child_of` and the Windows paths.
- Memory orders weaker than sequential consistency; `allow_create` as a run-time flag stands for two instances of a template.

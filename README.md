# Transactional sets and the RSTM runtime, in Dafny

This project models the sequential behaviour of a collection of
transactional-memory data structures and runtime pieces, and proves what
they promise.  It covers three groups.

**Translink transactional sets.**  The linked list (`TransLinkList`) and
the skip list (`TransSkipList`) run a batch of FIND / INSERT / DELETE
operations as one transaction.  A transaction claims each key's node by
installing its own node descriptor.  A thread that meets an unfinished
transaction helps it to completion first.  A transaction met again on the
thread's help stack is aborted.  Whether a key is in the set is read off
the node's descriptor and its transaction's status (`IsKeyExist`), so a
commit or an abort is one status change.  The shared rules, and a
reference semantics that applies a transaction's operations to a set, are
in `Translink`.  The map's stand-alone helpers (help stack, presence
rules, pointer tag bits, `POW`, `getMAINPOS`, `HASH_KEY`) are in
`TransMap`.  The model runs one thread at a time: a compare-and-swap is a
comparison followed by a write.  Other threads show up only as the
unfinished descriptors they leave behind, which a caller may set up.

**Boosting.**  `Lockfree` is Harris's sorted list with its sentinels.
`BoostList` and `BoostMap` wrap a base set or map with abstract key locks
and an undo log.  An abort replays the log newest first and restores the
state before the transaction; a commit drops the log.

**RSTM runtime.**
- The redo log: `WriteSetEntry`, `WriteSetIndex` and `WriteSet`, an
  insertion-ordered list with a versioned, linearly probed hash index.
- `MiniVector`, the undo log (`UndoLog`), value-based validation
  (`ValueList`) and read-after-write merging (`RedoRaw`).
- The 1024-bit `BitFilter`, and in `Algs` the reader records, the abort
  histogram, the backoff bound and the per-thread counters.
- The ITM shim's address and mask arithmetic (`ItmUtilities`) and its
  chunked block copies (`BlockOperations`), over a byte memory with
  little-endian 8-byte words (`Word`).
- The benchmark containers: the sorted list (`BenchList`), the doubly
  linked list (`BenchDList`) and the red-black tree (`RBTrees`,
  `BenchTree`).
- The adaptivity policies and triggers (`Policies`, `StaticPolicies`,
  `Profiling`) and the epoch-based reclamation test (`Wbmm`).
- The mesh benchmark's points (`MeshPoint`).

Code that updates objects in place is modelled as classes with
`modifies` frames and loops with invariants.  The help stack, the write
set's arrays, the mini vector, the bit filter, the reader record and the
benchmark containers are examples.  Code that only computes is modelled
as functions and lemmas.  The red-black tree keeps its nodes' parent
pointers implicit.  The tree is a value, and insert and remove work on
the path from the root to the current node (`RBTrees.Plug`).  Every group
of pointer writes the source makes at one level becomes one rewrite of
that path.

Unsigned integer widths are explicit where the source relies on them:
32- and 64-bit unsigned counters and sums wrap, 64-bit words are
sequences of bits or bytes, and shifts are truncated.  Signed C `int`
arithmetic, whose overflow C leaves undefined, is unbounded here; the
members this affects are named under "Left out".

Two behaviours are proved as they are written, though they may surprise.
First, every operation of a translink transaction is checked against the
set as it was before the transaction: its own uncommitted INSERT reads as
absent.  So `[INSERT 5, FIND 5]` on an empty set aborts, and
`[DELETE 5, FIND 5]` on `{5}` commits (`Translink.InsertThenFindAborts`,
`Translink.DeleteThenFindKeepsKey`).  Second, the commit trigger's
schedule (`Profiling.ScheduleFromOne`) wraps to 0 after 2^32 and then
stays there (`Profiling.NextTriggerWrapsToZero`).

## Model

| member | source | states |
|---|---|---|
| Word.ShiftDownBytes | src/rstm/rstm-dev/libitm2stm/Utilities.h:67 | `mask >> 8*n` on a little-endian word: byte k takes byte k+n, and the top n bytes become zero |
| Word.ShiftUpBytes | src/rstm/rstm-dev/libitm2stm/Utilities.h:68 | `mask << 8*n`: byte k takes byte k-n, and the bottom n bytes become zero |
| Word.MaskedEqual | src/rstm/rstm-dev/include/stm/UndoLog.hpp:83-108 | under a byte mask, two words are equal after masking iff they agree on every selected byte |
| ItmUtilities.OffsetOf | src/rstm/rstm-dev/libitm2stm/Utilities.h:23-28 | the offset is below the word size, and the address minus it is word-aligned |
| ItmUtilities.BaseOf | src/rstm/rstm-dev/libitm2stm/Utilities.h:36-41 | the base is aligned, base + offset_of is the address, and the base lies within one word below it |
| ItmUtilities.AddBytes | src/rstm/rstm-dev/libitm2stm/Utilities.h:43-53 | pointer addition wraps modulo 2^64 and is exact when it does not wrap |
| ItmUtilities.MakeMaskAsWritten | src/rstm/rstm-dev/libitm2stm/Utilities.h:63-70 | the mask as written is a byte mask selecting bytes i .. i+j-1, cut at the top of the word, rather than i .. j-1 |
| ItmUtilities.MakeMaskAsWrittenOverreaches | src/rstm/rstm-dev/libitm2stm/Utilities.h:63-70 | make_mask(2, 4) as written also selects bytes 4 and 5; the corrected mask does not |
| ItmUtilities.MakeMask | src/rstm/rstm-dev/libitm2stm/Utilities.h:55-70 | the documented [i, j) mask: a byte mask that selects byte b iff i <= b < j |
| ItmUtilities.MakeMaskAgreement | src/rstm/rstm-dev/libitm2stm/Utilities.h:63-70 | the written and the intended masks agree iff i == 0 or j is the word size |
| ItmUtilities.FullWordMask | src/rstm/rstm-dev/libitm2stm/Utilities.h:63-70 | make_mask(0, 8) is all ones, the mask of a whole-word access |
| UndoLog.MaskedStore | src/rstm/rstm-dev/include/stm/UndoLog.hpp:100-135 | a masked store changes exactly the bytes of the word whose mask byte is 0xFF, to the stored value's bytes |
| UndoLog.FullMaskStoresWord | src/rstm/rstm-dev/include/stm/UndoLog.hpp:103-106 | with an all-ones mask the whole word is stored |
| UndoLog.ZeroMaskStoresNothing | src/rstm/rstm-dev/include/stm/UndoLog.hpp:109-110 | with a zero mask memory is unchanged |
| UndoLog.DoMaskedWrite | src/rstm/rstm-dev/include/stm/UndoLog.hpp:100-135 | the fast paths and the byte loop together leave memory equal to the masked store, byte by byte |
| UndoLog.WordUndo | src/rstm/rstm-dev/include/stm/UndoLog.hpp:49 | undoing a word entry writes back exactly its logged word and nothing else |
| UndoLog.WordFilterMeansContained | src/rstm/rstm-dev/include/stm/UndoLog.hpp:64-67 | the intended word filter holds iff every byte of the logged word lies in [lower, upper) |
| UndoLog.WordFilterAsWrittenMissesLastWord | src/rstm/rstm-dev/include/stm/UndoLog.hpp:64-67 | `addr + 1 < upper` rejects the word ending exactly at upper, which lies inside the range |
| UndoLog.FilterMask | src/rstm/build/libstm/types.cpp:268-272 | the slow filter's loop clears the mask byte of every byte inside the range and keeps the others |
| UndoLog.FilterSlow | src/rstm/build/libstm/types.cpp:259-276 | the entry keeps its address and value, and is filtered iff every byte it still logs lies inside the range |
| UndoLog.ByteFilter | src/rstm/rstm-dev/include/stm/UndoLog.hpp:143-149 | an entry that does not meet the range is never filtered; a filtered entry logs only bytes inside the range |
| UndoLog.FullMaskByteFilterIsWordFilter | src/rstm/rstm-dev/include/stm/UndoLog.hpp:64-67 | with a full mask the byte filter decides like the intended word filter |
| UndoLog.UndoAll | src/rstm/build/libstm/types.cpp:184-188 | replaying the log newest first preserves the memory size |
| UndoLog.FirstLogged | src/rstm/build/libstm/types.cpp:184-188 | the oldest entry that logged a byte: it selects the byte and no earlier entry does |
| UndoLog.UndoRestoresOldest | src/rstm/build/libstm/types.cpp:184-188 | after undo every logged byte holds the value of the oldest entry that logged it (its value before the transaction), and unlogged bytes are untouched |
| UndoLog.FirstLoggedPrefix | src/rstm/build/libstm/types.cpp:184-188 | the oldest logging entry of a log is that of its prefix, or else its last entry |
| UndoLog.Undo | src/rstm/build/libstm/types.cpp:184-188 | the loop from end() - 1 down to begin() leaves memory equal to replaying the log newest first |
| BlockOperations.Load | src/rstm/rstm-dev/libitm2stm/BlockOperations.cpp:25-28 | the transactional read returns the eight bytes of memory at the aligned base |
| BlockOperations.ReadSubword | src/rstm/rstm-dev/libitm2stm/BlockOperations.cpp:18-37 | returns j - i; the target receives bytes [i, j) of the word at base, and no other target byte changes |
| BlockOperations.WriteSubword | src/rstm/rstm-dev/libitm2stm/BlockOperations.cpp:39-61 | returns j - i; bytes [base+i, base+j) receive the source bytes and every other byte of memory is unchanged |
| BlockOperations.SubwordWriteWithAsWrittenMaskClobbers | src/rstm/rstm-dev/libitm2stm/BlockOperations.cpp:46-57 | with make_mask as written, a two-byte write at offset 2 overwrites byte 4 with the staging word's zero |
| BlockOperations.Handled | src/rstm/rstm-dev/libitm2stm/BlockOperations.cpp:97-127 | the bytes handled leave an unaligned tail shorter than a word, are everything when the request fits in one word, and are never zero for a non-empty request |
| BlockOperations.ReadWords | src/rstm/rstm-dev/libitm2stm/BlockOperations.cpp:115-124 | the word loop reads `rest / 8` whole aligned words into the target, returns the 8 bytes per word it counted, and touches no other target byte |
| BlockOperations.BlockRead | src/rstm/rstm-dev/libitm2stm/BlockOperations.cpp:78-128 | returns the handled byte count; the target's first `read` bytes equal memory from `source`, and the rest of the target is unchanged |
| BlockOperations.WriteWords | src/rstm/rstm-dev/libitm2stm/BlockOperations.cpp:180-190 | the word loop stores `rest / 8` whole words of the source at the aligned base, returns the 8 bytes per word it counted, and changes no other byte |
| BlockOperations.BlockWrite | src/rstm/rstm-dev/libitm2stm/BlockOperations.cpp:144-194 | returns the handled byte count; exactly those target bytes take the source bytes |
| BlockOperations.FromAsWritten | src/rstm/rstm-dev/libitm2stm/BlockOperations.cpp:204-207 | the `{{c}}` initialiser sets byte 0 to c and the other seven bytes to zero |
| BlockOperations.Splat | src/rstm/rstm-dev/libitm2stm/BlockOperations.cpp:196-237 | the staging word a memset needs: every byte is c |
| BlockOperations.SetIndex | src/rstm/rstm-dev/libitm2stm/BlockOperations.cpp:209-234 | the byte of the staging word stored at each target address is a valid byte index |
| BlockOperations.SetWords | src/rstm/rstm-dev/libitm2stm/BlockOperations.cpp:225-230 | the word loop stores the staging word at each aligned word and changes nothing else |
| BlockOperations.SetAligned | src/rstm/rstm-dev/libitm2stm/BlockOperations.cpp:225-236 | whole words and then the sub-word tail set every byte of [base, base + rest) to the staging byte of its offset in the word and leave all other bytes unchanged |
| BlockOperations.BlockSetFrom | src/rstm/rstm-dev/libitm2stm/BlockOperations.cpp:196-237 | prefix, words and tail together set every byte of [target, target + length) from the staging word and leave all other bytes unchanged |
| BlockOperations.BlockSetAsWritten | src/rstm/rstm-dev/libitm2stm/BlockOperations.cpp:196-237 | block_set with the `{{c}}` staging word, as written |
| BlockOperations.BlockSetAsWrittenLosesBytes | src/rstm/rstm-dev/libitm2stm/BlockOperations.cpp:204-207 | an aligned block_set of c = 1 stores 0, not 1, at byte 1 |
| BlockOperations.BlockSet | src/rstm/rstm-dev/libitm2stm/BlockOperations.cpp:196-237 | with every staging byte c, block_set has memset semantics: the range holds c and nothing else changes |
| RedoRaw.WordRawCheck | src/rstm/rstm-dev/libstm/algs/RedoRAWUtils.hpp:31-33 | the word-logging check answers iff the write set found the address, and then with the logged word |
| RedoRaw.WordReadAfterWrite | src/rstm/rstm-dev/libstm/algs/RedoRAWUtils.hpp:31-33 | after a word v is written to an address, the word-logging check of a read there answers v |
| RedoRaw.ByteReadAfterWordWrite | src/rstm/rstm-dev/libstm/algs/RedoRAWUtils.hpp:61-68 | after a full word v is written to an address, the byte-logging check of a read of any bytes there answers v |
| RedoRaw.ByteRawCheck | src/rstm/rstm-dev/libstm/algs/RedoRAWUtils.hpp:65-68 | the byte-logging check answers iff the address was found and the requested mask is a subset of the logged one, and then with the logged word |
| RedoRaw.SubsetTestMeansCovers | src/rstm/rstm-dev/libstm/algs/RedoRAWUtils.hpp:61-67 | for byte masks, `(pmask & log.mask) == pmask` holds iff every requested byte is logged |
| RedoRaw.RawCleanup | src/rstm/rstm-dev/libstm/algs/RedoRAWUtils.hpp:91-98 | without a hit the value read is kept; with a hit each logged byte comes from the log and every other byte from memory |
| RedoRaw.FullLogMaskCleanup | src/rstm/rstm-dev/libstm/algs/RedoRAWUtils.hpp:91-98 | with a fully logged word the cleanup yields the logged word whatever was read |
| RedoRaw.RawCheckAgreesWithCleanup | src/rstm/rstm-dev/libstm/algs/RedoRAWUtils.hpp:54-98 | when the fast check answers, every requested byte of its answer is the byte the cleanup path would produce |
| RedoRaw.CleanupIdempotent | src/rstm/rstm-dev/libstm/algs/RedoRAWUtils.hpp:91-98 | merging the same log entry twice is the same as merging it once |
| ValueList.WordIsValidMeansBytes | src/rstm/build/include/stm/ValueList.hpp:54-56 | `*addr == val` holds iff every byte of the word is unchanged |
| ValueList.ByteIsValid | src/rstm/build/include/stm/ValueList.hpp:103-105 | for a byte mask, the entry is valid iff every selected byte of memory still equals the logged byte |
| ValueList.FullMaskByteIsWord | src/rstm/build/include/stm/ValueList.hpp:54-105 | with a full mask the byte entry is valid exactly when the word entry is |
| ValueList.ZeroMaskAlwaysValid | src/rstm/build/include/stm/ValueList.hpp:103-105 | an entry with an empty mask is always valid |
| MiniVector.MiniVector.Elements | src/rstm/rstm-dev/include/stm/MiniVector.hpp:78-85 | begin() .. end() are the first size() array slots, in insertion order |
| MiniVector.MiniVector.Size | src/rstm/rstm-dev/include/stm/MiniVector.hpp:76 | size() is the number of elements between begin() and end() |
| MiniVector.MiniVector.constructor | src/rstm/rstm-dev/include/stm/MiniVector.hpp:42-47 | a fresh vector is empty, with the requested capacity |
| MiniVector.MiniVector.Reset | src/rstm/rstm-dev/include/stm/MiniVector.hpp:52 | reset empties the vector and keeps its capacity and storage |
| MiniVector.MiniVector.Insert | src/rstm/rstm-dev/include/stm/MiniVector.hpp:55-73 | the element is appended; the capacity doubles into fresh storage exactly when the insert fills the array |
| MiniVector.MiniVector.Expand | src/rstm/build/libstm/types.cpp:41-50 | capacity doubles into fresh storage holding the same first size() elements |
| WriteSetEntry.WordUpdate | src/rstm/rstm-dev/include/stm/WriteSet.hpp:58 | a second word write to the same address keeps the address and takes the new value |
| WriteSetEntry.ByteUpdate | src/rstm/rstm-dev/include/stm/WriteSet.hpp:145-161 | the coalesced entry keeps its address; its mask is the union of the masks; its value takes the incoming bytes where the incoming mask selects and the old bytes elsewhere |
| WriteSetEntry.MaskUnion | src/rstm/rstm-dev/include/stm/WriteSet.hpp:160 | `mask \| rhs.mask` of two byte masks is a byte mask selecting the bytes of either |
| WriteSetEntry.ByteUpdateCoalesces | src/rstm/rstm-dev/include/stm/WriteSet.hpp:136-161 | after coalescing, a byte is logged iff either write logged it; it holds the later write's value where that write selected it, else the earlier one's |
| WriteSetEntry.FullMaskUpdateReplaces | src/rstm/rstm-dev/include/stm/WriteSet.hpp:148-151 | a full-mask update replaces value and mask outright |
| WriteSetEntry.FilterCatchesOverlap | src/rstm/rstm-dev/include/stm/WriteSet.hpp:175-178 | the filter catches every word that shares a byte with [lower, upper); the only disjoint word it also catches is the one ending at lower |
| WriteSetEntry.WordWriteback | src/rstm/rstm-dev/include/stm/WriteSet.hpp:78 | `*addr = val` stores the word at its address and nothing else |
| WriteSetEntry.ByteWriteback | src/rstm/rstm-dev/include/stm/WriteSet.hpp:189-204 | byte writeback stores exactly the selected bytes of the entry |
| WriteSetEntry.WordRollback | src/rstm/rstm-dev/include/stm/WriteSet.hpp:90-96 | word rollback writes the entry back iff its word lies inside [lower, upper), and otherwise changes nothing |
| WriteSetEntry.WordRollbackStaysInRange | src/rstm/rstm-dev/include/stm/WriteSet.hpp:90-96 | any byte word rollback changes lies inside [lower, upper) |
| WriteSetEntry.StoreSelected | src/rstm/rstm-dev/include/stm/WriteSet.hpp:224-229 | the odd-intersection loop keeps the memory size |
| WriteSetEntry.ByteRollbackAsWritten | src/rstm/rstm-dev/include/stm/WriteSet.hpp:212-230 | byte rollback as written, with `\|\|` in the byte test, keeps the memory size |
| WriteSetEntry.ByteRollbackAsWrittenLeaks | src/rstm/rstm-dev/include/stm/WriteSet.hpp:224-229 | a full-mask entry at 0 rolled back into [4, 100) stores byte 0, which lies outside the range |
| WriteSetEntry.ByteRollback | src/rstm/rstm-dev/include/stm/WriteSet.hpp:206-230 | the corrected byte rollback (`&&`) stores a byte iff the entry selects it and it lies inside [lower, upper) |
| WriteSetEntry.ByteRollbackIsClippedWriteback | src/rstm/rstm-dev/include/stm/WriteSet.hpp:212-230 | the corrected rollback equals writeback inside the range and leaves memory unchanged outside it |
| WriteSetIndex.HashProduct | src/rstm/rstm-dev/include/stm/WriteSet.hpp:279-281 | `(key * s) & 0xFFFFFFFF` is below 2^32 |
| WriteSetIndex.Hash | src/rstm/rstm-dev/include/stm/WriteSet.hpp:277-282 | the hash after `>> shift` always names a slot of an index of length 2^(32 - shift) |
| WriteSetIndex.Probe | src/rstm/rstm-dev/include/stm/WriteSet.hpp:314-318 | each step of the linear probe `h = (h + 1) % ilength` names a slot |
| WriteSetIndex.ProbeReaches | src/rstm/rstm-dev/include/stm/WriteSet.hpp:314-318 | the probe from any key reaches every slot within ilength steps |
| WriteSetIndex.FreeSlotExists | src/rstm/rstm-dev/include/stm/WriteSet.hpp:407-446 | with fewer entries than slots some slot is not live, so insert's probe ends |
| WriteSetIndex.ProbeMiss | src/rstm/rstm-dev/include/stm/WriteSet.hpp:310-353 | a probe that meets only other addresses before a free slot proves the address is not logged |
| WriteSetIndex.ProbeHit | src/rstm/rstm-dev/include/stm/WriteSet.hpp:314-343 | a live slot holding the address names the list entry for that address |
| WriteSetIndex.AddAt | src/rstm/rstm-dev/include/stm/WriteSet.hpp:427-435 | claiming the free slot the probe stopped at, and appending the entry, keeps the index consistent with the list |
| WriteSetIndex.UpdateKeepsIndexed | src/rstm/rstm-dev/include/stm/WriteSet.hpp:422 | coalescing into an entry keeps its address, so the index stays consistent |
| WriteSetIndex.EmptyIndexed | src/rstm/rstm-dev/include/stm/WriteSet.hpp:454-463 | an index with no slot at the current version consistently indexes the empty list |
| WriteSet.FindSpec | src/rstm/rstm-dev/include/stm/WriteSet.hpp:310-353 | find hits iff an entry for the address shares a byte with the requested mask; a hit returns that entry's value and mask, and a miss returns the request with its mask cleared |
| WriteSet.InsertSpec | src/rstm/rstm-dev/include/stm/WriteSet.hpp:407-436 | insert keeps addresses distinct; a logged address is coalesced in place with ByteUpdate and the length stays the same; a new address is appended at the end; every other entry is unchanged |
| WriteSet.InsertNew | src/rstm/rstm-dev/include/stm/WriteSet.hpp:427-435 | inserting an address not in the set appends the entry: size grows by exactly one |
| WriteSet.InsertExisting | src/rstm/rstm-dev/include/stm/WriteSet.hpp:414-423 | inserting a logged address updates only its entry; size is unchanged |
| WriteSet.FindAfterInsert | src/rstm/rstm-dev/include/stm/WriteSet.hpp:310-353 | read after write: after insert(log), find at that address hits and returns log's byte wherever both log and the request select it |
| WriteSet.FullWriteThenFind | src/rstm/rstm-dev/include/stm/WriteSet.hpp:310-353 | after inserting a full-word write of v, any find at that address returns v with a full mask |
| WriteSet.InsertLeavesOthers | src/rstm/rstm-dev/include/stm/WriteSet.hpp:407-446 | inserting at one address leaves the result of find at every other address unchanged |
| WriteSet.WritebackAll | src/rstm/rstm-dev/include/stm/WriteSet.hpp:381-401 | performing the logged writes in list order keeps the memory size |
| WriteSet.WritebackAllBytes | src/rstm/rstm-dev/include/stm/WriteSet.hpp:381-401 | after writeback, each byte an entry selects holds that entry's value and every other byte is unchanged, so the writeback order does not matter |
| WriteSet.InitialIndexLength | src/rstm/build/libstm/types.cpp:79-89 | the constructor's sizing loop ends with ilength == 2^(32 - shift) and 3 * capacity <= ilength < 6 * capacity |
| WriteSet.IndexLengthAsWrittenOverflows | src/rstm/build/libstm/types.cpp:69-76 | as written, `1 << (32 - shift)` on a 32-bit int at shift 1 sign-extends to 2^64 - 2^31 instead of 2^31 |
| WriteSet.WriteSet.Size | src/rstm/rstm-dev/include/stm/WriteSet.hpp:449 | size() is the number of distinct logged addresses |
| WriteSet.WriteSet.Locate | src/rstm/rstm-dev/include/stm/WriteSet.hpp:314-318 | the probe loop stops at the first slot on the linear probe sequence that is free or holds the address, and every slot it skipped is live with another address |
| WriteSet.WriteSet.Find | src/rstm/rstm-dev/include/stm/WriteSet.hpp:310-353 | find over the index returns exactly FindSpec of the logged entries |
| WriteSet.WriteSet.Coalesce | src/rstm/rstm-dev/include/stm/WriteSet.hpp:414-423 | the coalescing branch of insert leaves the set equal to InsertSpec and keeps the index valid |
| WriteSet.AppendSound | src/rstm/rstm-dev/include/stm/WriteSet.hpp:427-435 | appending an aligned entry for an address the probe did not find, at the free slot the probe stopped at, is InsertSpec's append and keeps slot versions bounded, entries aligned and the index exact |
| WriteSet.EmptySound | src/rstm/rstm-dev/include/stm/WriteSet.hpp:454-463 | an index whose slots all carry an older version is a sound index of the empty list |
| WriteSet.WriteSet.Append | src/rstm/rstm-dev/include/stm/WriteSet.hpp:427-435 | the appending branch stores the entry at lsize, claims the free slot with the current version and increments lsize |
| WriteSet.WriteSet.Insert | src/rstm/rstm-dev/include/stm/WriteSet.hpp:407-446 | insert leaves the logged entries equal to InsertSpec of the old ones and keeps list, index and version consistent |
| WriteSet.WriteSet.Grow | src/rstm/rstm-dev/include/stm/WriteSet.hpp:437-445 | the growth steps keep the entries and leave the set valid: room in the list and an index less than a third full |
| WriteSet.WriteSet.GrowList | src/rstm/rstm-dev/include/stm/WriteSet.hpp:438-439 | a full list is resized, after which lsize < capacity and the entries are unchanged |
| WriteSet.WriteSet.GrowIndex | src/rstm/rstm-dev/include/stm/WriteSet.hpp:444-445 | an index at least a third full is rebuilt, with the entries unchanged |
| WriteSet.WriteSet.DoubleIndexLength | src/rstm/build/libstm/types.cpp:69-76 | doubleIndexLength decrements shift and sets ilength to 2^(32 - shift), twice the old length, changing nothing else |
| WriteSet.WriteSet.Rebuild | src/rstm/build/libstm/types.cpp:99-119 | rebuild allocates an index of twice the length and re-indexes every list entry, so every find gives the same result |
| WriteSet.WriteSet.Reinsert | src/rstm/build/libstm/types.cpp:107-118 | one step of rebuild: entry i is indexed at the first free slot of its probe sequence, keeping the index consistent with entries 0..i |
| WriteSet.WriteSet.Resize | src/rstm/build/libstm/types.cpp:122-129 | resize doubles capacity and keeps the first lsize entries |
| WriteSet.WriteSet.Reset | src/rstm/rstm-dev/include/stm/WriteSet.hpp:454-463 | reset empties the set, so size() is 0 and every find misses; the version increments, or restarts at 1 through reset_internal when it wraps to 0 |
| WriteSet.WriteSet.ResetInternal | src/rstm/build/libstm/types.cpp:132-136 | reset_internal zeroes every index slot and sets the version to 1 |
| WriteSet.WriteSet.Writeback | src/rstm/rstm-dev/include/stm/WriteSet.hpp:381-401 | writeback leaves memory equal to WritebackAll of the entries |
| WriteSet.WriteSet.constructor | src/rstm/build/libstm/types.cpp:79-89 | the constructor gives an empty set at version 1 with 3 * capacity <= ilength < 6 * capacity |
| BitFilter.Hash | src/rstm/rstm-dev/include/stm/BitFilter.hpp:56-61 | `(addr >> 3) % BITS` is below BITS |
| BitFilter.Block | src/rstm/rstm-dev/include/stm/BitFilter.hpp:73 | the filter word `index / WORD_SIZE` is one of the filter's words |
| BitFilter.Offset | src/rstm/rstm-dev/include/stm/BitFilter.hpp:74 | the bit `index % WORD_SIZE` is a bit of that word |
| BitFilter.PositionsDistinct | src/rstm/rstm-dev/include/stm/BitFilter.hpp:72-75 | distinct hash indices name distinct (word, bit) positions |
| BitFilter.OverlapSymmetric | src/rstm/rstm-dev/include/stm/BitFilter.hpp:147-173 | intersect is symmetric |
| BitFilter.OverlapIsSharedBit | src/rstm/rstm-dev/include/stm/BitFilter.hpp:166-172 | intersect is true iff some (word, bit) position is set in both filters |
| BitFilter.BitFilter.constructor | src/rstm/rstm-dev/include/stm/BitFilter.hpp:65-66 | the constructor clears every bit |
| BitFilter.BitFilter.Add | src/rstm/rstm-dev/include/stm/BitFilter.hpp:70-76 | after add(a), lookup(a) is true, and the only bit that changes is a's |
| BitFilter.BitFilter.Lookup | src/rstm/rstm-dev/include/stm/BitFilter.hpp:94-103 | lookup tests exactly the bit of the key's hash index |
| BitFilter.BitFilter.UnionWith | src/rstm/rstm-dev/include/stm/BitFilter.hpp:106-116 | after unionwith(r) each word is the OR of the two old words, so a bit is set iff it was set in either filter |
| BitFilter.BitFilter.Clear | src/rstm/rstm-dev/include/stm/BitFilter.hpp:118-131 | after clear every word is zero and no bit is set, so lookup is false for every address |
| BitFilter.BitFilter.FastCopy | src/rstm/rstm-dev/include/stm/BitFilter.hpp:134-144 | after fastcopy this filter's words equal those of the source |
| BitFilter.BitFilter.Intersect | src/rstm/rstm-dev/include/stm/BitFilter.hpp:146-173 | the loop answers true iff some pair of words shares a bit |
| BitFilter.BitAsWritten | src/rstm/rstm-dev/include/stm/BitFilter.hpp:75 | `1u << offset` equals the intended bit for offsets below 32 |
| BitFilter.BitAsWrittenAliases | src/rstm/rstm-dev/include/stm/BitFilter.hpp:72-75 | as written, address 256 sets the same bit as address 0 although their offsets are 32 and 0; no offset of 32 or more selects its own bit |
| Algs.OrecOf | src/rstm/rstm-dev/libstm/algs/algs.hpp:144-148 | get_orec, get_bytelock and get_bitlock name a stripe below NUM_STRIPES |
| Algs.NanorecOf | src/rstm/rstm-dev/libstm/algs/algs.hpp:154-158 | get_nanorec names a slot below RING_ELEMENTS |
| Algs.RrecOf | src/rstm/rstm-dev/libstm/algs/algs.hpp:164-168 | get_rrec names a record below RREC_COUNT |
| Algs.SameWordSameEntries | src/rstm/rstm-dev/libstm/algs/algs.hpp:144-168 | all bytes of one aligned word map to the same orec, nanorec and rrec |
| Algs.OrecsCollide | src/rstm/rstm-dev/libstm/algs/algs.hpp:144-148 | two addresses 8 * NUM_STRIPES apart share an orec |
| Algs.Rrec.constructor | src/rstm/rstm-dev/include/stm/metadata.hpp:128-133 | a fresh reader record has no bit set |
| Algs.Rrec.SetBit | src/rstm/rstm-dev/libstm/algs/algs.hpp:392-404 | setbit makes the slot a reader and leaves every other slot unchanged |
| Algs.Rrec.UnsetBit | src/rstm/rstm-dev/libstm/algs/algs.hpp:416-434 | unsetbit clears only that slot's bit |
| Algs.Rrec.SetIf | src/rstm/rstm-dev/libstm/algs/algs.hpp:437-456 | setif answers false if the slot was already set; otherwise it sets the bit and answers true; no other slot changes |
| Algs.Rrec.OrWith | src/rstm/rstm-dev/libstm/algs/algs.hpp:459-465 | after operator\|= a slot is set iff it was set in either record, even when both records are the same |
| Algs.BucketOf | src/rstm/rstm-dev/libstm/algs/algs.hpp:468-479 | aborts below 17 pick bucket aborts, anything larger the overflow bucket 17 |
| Algs.ToxicHistogram.constructor | src/rstm/rstm-dev/include/stm/metadata.hpp:220-224 | the histogram starts with every bucket, max and both hourglass counts at zero |
| Algs.ToxicHistogram.OnCommit | src/rstm/rstm-dev/libstm/algs/algs.hpp:468-479 | onCommit increments bucket[aborts] for aborts < 17, otherwise bucket[17] with max = max(max, aborts); nothing else changes |
| Algs.BackoffBits | src/rstm/rstm-dev/libstm/algs/algs.hpp:220-222 | the backoff exponent is consec_aborts + BACKOFF_MIN - 1, capped at BACKOFF_MAX and never above it |
| Algs.BackoffBitsMonotone | src/rstm/rstm-dev/libstm/algs/algs.hpp:220-222 | the exponent does not shrink as the run of aborts grows |
| Algs.BackoffDelay | src/rstm/rstm-dev/libstm/algs/algs.hpp:225-226 | the masked random delay is below 2^bits |
| Algs.TxStats.constructor | src/rstm/rstm-dev/libstm/txthread.cpp:65-71 | a thread starts with zero commits, aborts, read-only commits and consecutive aborts |
| Algs.TxStats.PreRollback | src/rstm/rstm-dev/libstm/algs/algs.hpp:293-297 | PreRollback increments num_aborts and consec_aborts |
| Algs.TxStats.OnReadWriteCommit | src/rstm/rstm-dev/libstm/algs/algs.hpp:253-260 | a read-write commit records consec_aborts in the histogram, resets it to 0 and increments num_commits |
| Algs.TxStats.OnReadOnlyCommit | src/rstm/rstm-dev/libstm/algs/algs.hpp:262-269 | a read-only commit does the same and increments num_ro |
| Algs.TxStats.OnCGLCommit | src/rstm/rstm-dev/libstm/algs/algs.hpp:271-276 | a commit under the global lock increments num_commits only |
| Algs.TxStats.OnReadOnlyCGLCommit | src/rstm/rstm-dev/libstm/algs/algs.hpp:278-283 | a read-only commit under the global lock increments num_ro only |
| Policies.TruncDiv | src/rstm/rstm-dev/libstm/policies/policies.hpp:175-180 | C's `/=` on int truncates toward zero: Euclidean division for a non-negative dividend, the negated quotient of the magnitude otherwise |
| Policies.SumTime | src/rstm/rstm-dev/libstm/policies/policies.hpp:171 | txn_time is summed in a uint64_t, so the sum stays below 2^64 |
| Policies.AverageOfCopies | src/rstm/rstm-dev/libstm/policies/policies.hpp:159-181 | the average of identical profiles is that profile with timecounter cleared, except that txn_time is the wrapped uint64_t sum divided by the count; it is the profile's own txn_time when that sum does not wrap |
| Policies.DynProf.View | src/rstm/rstm-dev/libstm/policies/policies.hpp:92-101 | the view of a profile carries its counters and both times |
| Policies.DynProf.constructor | src/rstm/rstm-dev/libstm/policies/policies.hpp:112-116 | a new profile is all zero |
| Policies.DynProf.Clear | src/rstm/rstm-dev/libstm/policies/policies.hpp:148-153 | clear zeroes every counter, txn_time and timecounter |
| Policies.DynProf.CopyFrom | src/rstm/rstm-dev/libstm/policies/policies.hpp:121-132 | operator= copies the five counters and txn_time and keeps timecounter; copying a profile onto itself changes nothing |
| Policies.DynProf.Accumulate | src/rstm/rstm-dev/libstm/policies/policies.hpp:165-172 | one step of doavg's loop adds each counted field of list[i] into dest, txn_time modulo 2^64 |
| Policies.Sums | src/rstm/rstm-dev/libstm/policies/policies.hpp:162-172 | the running sums start from a cleared profile, so timecounter is 0 |
| Policies.DoAvg | src/rstm/rstm-dev/libstm/policies/policies.hpp:159-181 | doavg leaves dest equal to the field-wise truncating average of the first num profiles (txn_time averaged from its wrapped uint64_t sum), with timecounter 0 |
| Policies.NontxnTotal | src/rstm/rstm-dev/libstm/policies/policies.hpp:289-291 | the non-transactional time is summed in a uint64_t |
| Policies.CommitTotal | src/rstm/rstm-dev/libstm/policies/policies.hpp:288-293 | one plus the commits and read-only commits of every thread, summed in a uint32_t |
| Policies.CommitTotalExact | src/rstm/rstm-dev/libstm/policies/policies.hpp:288-293 | without wrap-around that total is exactly one more than the commits |
| Policies.Divisor | src/rstm/rstm-dev/libstm/policies/policies.hpp:295 | `commits += !commits` turns a wrapped total of 0 into 1, so the divisor is never zero |
| Policies.QuotientBelowTop | src/rstm/rstm-dev/libstm/policies/policies.hpp:296 | nontxn_time / commits reaches 2^64 - 1 iff the total is 2^64 - 1 and the divisor is 1 |
| Policies.NontxTimeAsWritten | src/rstm/rstm-dev/libstm/policies/policies.hpp:296-297 | `1 + (nontxn_time / commits)` in unsigned long long is below 2^64, is 0 iff the total is 2^64 - 1 and the divisor 1, and is otherwise one plus the quotient |
| Policies.NontxTimeAsWrittenCanBeZero | src/rstm/rstm-dev/libstm/policies/policies.hpp:285-297 | one thread with 2^64 - 1 units of non-transactional time and no commits makes the estimate as written 0 |
| Policies.NontxTime | src/rstm/rstm-dev/libstm/policies/policies.hpp:296-297 | the intended estimate is 1 + nontxn_time / commits held at 2^64 - 1: never zero, below 2^64, at most one plus the total time, equal to the value as written whenever that is not 0 |
| Policies.GetNontxTime | src/rstm/rstm-dev/libstm/policies/policies.hpp:285-298 | get_nontxtime sums in the source's widths and returns NontxTime of the thread counters |
| Policies.SumThreads | src/rstm/rstm-dev/libstm/policies/policies.hpp:288-294 | the accumulation loop computes CommitTotal and NontxnTotal |
| StaticPolicies.PolER | src/rstm/rstm-dev/libstm/policies/static.cpp:36-44 | pol_ER always names an algorithm |
| StaticPolicies.PolE | src/rstm/rstm-dev/libstm/policies/static.cpp:50-60 | pol_E always names an algorithm |
| StaticPolicies.LeaveOrecFair | src/rstm/rstm-dev/libstm/policies/static.cpp:76-83 | OrecFair is kept iff consec_aborts / KARMA_FACTOR < 16, otherwise NOrec follows |
| StaticPolicies.PolR | src/rstm/rstm-dev/libstm/policies/static.cpp:66-84 | pol_R always names an algorithm |
| StaticPolicies.PolX | src/rstm/rstm-dev/libstm/policies/static.cpp:90-109 | pol_X always names an algorithm |
| StaticPolicies.PolEFollowsChain | src/rstm/rstm-dev/libstm/policies/static.cpp:50-60 | pol_E moves CGL→TML→TMLLazy→RingSW→OrecELA→NOrec→NOrecPrio, and every other algorithm to NOrecPrio |
| StaticPolicies.PolERFollowsChain | src/rstm/rstm-dev/libstm/policies/static.cpp:36-44 | pol_ER moves TMLLazy→RingSW→OrecELA→NOrec→NOrecPrio, and every other algorithm to NOrecPrio |
| StaticPolicies.PolRFollowsChain | src/rstm/rstm-dev/libstm/policies/static.cpp:66-84 | pol_R moves TMLLazy→OrecEager→OrecLazy→OrecFair, keeps OrecFair while consec_aborts < 16 * KARMA_FACTOR and then moves it to NOrec, and sends every other algorithm to NOrecPrio |
| StaticPolicies.PolXFollowsChain | src/rstm/rstm-dev/libstm/policies/static.cpp:90-109 | pol_X moves CGL→OrecEager→OrecLazy→OrecFair, keeps OrecFair while consec_aborts < 16 * KARMA_FACTOR and then moves it to NOrec, and sends every other algorithm to NOrecPrio |
| StaticPolicies.RankE | src/rstm/rstm-dev/libstm/policies/static.cpp:50-60 | the distance along pol_E's chain to NOrecPrio is at most 6 and is 0 only at NOrecPrio |
| StaticPolicies.PolEProgress | src/rstm/rstm-dev/libstm/policies/static.cpp:50-60 | each pol_E decision away from NOrecPrio brings the algorithm one step closer to it |
| StaticPolicies.PolESettles | src/rstm/rstm-dev/libstm/policies/static.cpp:50-60 | repeated pol_E decisions reach NOrecPrio within RankE steps and stay there |
| StaticPolicies.OrecFairExit | src/rstm/rstm-dev/libstm/policies/static.cpp:66-109 | pol_R and pol_X choose NOrec exactly when the current algorithm is OrecFair and consec_aborts >= 16 * KARMA_FACTOR |
| StaticPolicies.RAndXShareTheirTail | src/rstm/rstm-dev/libstm/policies/static.cpp:66-109 | pol_R and pol_X agree on every algorithm except their starting points TMLLazy and CGL |
| StaticPolicies.Decide | src/rstm/rstm-dev/libstm/policies/static.cpp:36-109 | a decider names an algorithm; Single has none and keeps the current one |
| StaticPolicies.InitPolStatic | src/rstm/rstm-dev/libstm/policies/static.cpp:118-130 | init_pol_static registers Single with -1 thresholds and no decider, and E, ER, X and R at CGL/TMLLazy with thresholds 16 and 2048 |
| StaticPolicies.StartModesAdvance | src/rstm/rstm-dev/libstm/policies/static.cpp:122-129 | each registered policy's start mode is one its own decider moves away from |
| Profiling.AsUnsigned | src/rstm/rstm-dev/libstm/profiling.hpp:75 | `(unsigned)` of an int threshold keeps non-negative values and wraps negative ones to 2^31 or above |
| Profiling.OnCommitLockFires | src/rstm/rstm-dev/libstm/profiling.hpp:68-79 | onCommitLock adapts only under a policy with a decider and only after a begin-time wait above the wait threshold |
| Profiling.NegativeWaitThreshNeverFires | src/rstm/rstm-dev/libstm/profiling.hpp:75 | the threshold -1 becomes 2^32 - 1 unsigned, so onCommitLock never fires under it |
| Profiling.NextTrigger | src/rstm/rstm-dev/libstm/profiling.hpp:150-155 | the next trigger commit number stays a 32-bit unsigned value |
| Profiling.NextTriggerGrows | src/rstm/rstm-dev/libstm/profiling.hpp:150-155 | below 65536 the number is multiplied by 16, below 524288 it grows by 65536, otherwise by 524288; it strictly increases until the addition wraps |
| Profiling.IterNext | src/rstm/rstm-dev/libstm/profiling.hpp:150-155 | successive updates stay 32-bit |
| Profiling.ScheduleFromOne | src/rstm/rstm-dev/libstm/profiling.cpp:106 | from the initial value 1 the trigger number is 65536 after four updates and 524288 after eleven |
| Profiling.NextTriggerWrapsToZero | src/rstm/rstm-dev/libstm/profiling.hpp:154-155 | at 2^32 - 524288 the unsigned addition wraps to exactly 0, and 0 stays 0 |
| Profiling.Triggers.constructor | src/rstm/rstm-dev/libstm/profiling.cpp:106 | `next` starts at 1 |
| Profiling.Triggers.OnCommitSTM | src/rstm/rstm-dev/libstm/profiling.hpp:133-165 | onCommitSTM fires iff the policy has a decider and commit profiling, the thread is 2 and its unsigned commit count equals next; firing advances next and clears abort_switch; otherwise nothing changes |
| Profiling.Triggers.OnAbort | src/rstm/rstm-dev/libstm/profiling.hpp:91-103 | onAbort fires iff the policy has a decider and consec_aborts exceeds the unsigned abort threshold, and then sets abort_switch |
| Profiling.AbortThresholdSixteen | src/rstm/rstm-dev/libstm/profiling.hpp:98 | under threshold 16 onAbort fires from the 17th consecutive abort on, and never before |
| Wbmm.IsStrictlyOlder | src/rstm/rstm-dev/libstm/WBMMPolicy.cpp:17-24 | is_strictly_older is false exactly when some thread below old_len has an odd counter in the newer stamp that is not above the older one |
| Wbmm.FirstReclaimable | src/rstm/rstm-dev/libstm/WBMMPolicy.cpp:46-53 | the search stops at the first node the stamp strictly dominates; no earlier node is dominated |
| Wbmm.PoolsAppend | src/rstm/rstm-dev/libstm/WBMMPolicy.cpp:61-70 | the blocks freed from two runs of nodes are those of the first followed by those of the second |
| Wbmm.SplitKeepsEveryBlock | src/rstm/rstm-dev/libstm/WBMMPolicy.cpp:56-70 | splitting the limbo list at the reclaim point neither loses nor duplicates a block: kept blocks followed by freed blocks are all blocks |
| Wbmm.WBMMPolicy.constructor | src/rstm/rstm-dev/include/stm/WBMMPolicy.hpp:117-118 | a new policy has an empty prelimbo and an empty limbo list |
| Wbmm.WBMMPolicy.HandleFullPrelimbo | src/rstm/rstm-dev/libstm/WBMMPolicy.cpp:30-73 | handle_full_prelimbo stamps the full prelimbo and pushes it; it keeps exactly the older nodes before the first reclaimable one, frees the blocks of the rest in order, and starts a fresh prelimbo |
| Wbmm.WBMMPolicy.SchedForReclaim | src/rstm/rstm-dev/include/stm/WBMMPolicy.hpp:91-100 | schedForReclaim appends the block to the prelimbo; when the pool fills, the prelimbo, stamped with the first threadcount counters, becomes the head of the limbo list followed by the nodes before the first reclaimable one, the blocks of that node and all after it are freed in order, and a fresh prelimbo takes its place |
| Wbmm.FindReclaimable | src/rstm/rstm-dev/libstm/WBMMPolicy.cpp:46-53 | the walk over the older nodes stops at FirstReclaimable |
| Wbmm.FreeAll | src/rstm/rstm-dev/libstm/WBMMPolicy.cpp:61-70 | the freeing loop frees exactly the blocks of every detached node, in list order |
| Wbmm.QuiescentThreadsDoNotBlock | src/rstm/rstm-dev/libstm/WBMMPolicy.cpp:17-24 | a thread that is outside a transaction in the newer stamp, or has advanced, never blocks reclamation |
| MeshPoint.Bits | src/rstm/rstm-dev/mesh/point.hpp:43 | an int coordinate as its 32-bit two's complement pattern |
| MeshPoint.Xor | src/rstm/rstm-dev/mesh/point.hpp:48 | the exclusive or of n-bit values is an n-bit value |
| MeshPoint.XorSymmetric | src/rstm/rstm-dev/mesh/point.hpp:48 | `^` is symmetric |
| MeshPoint.XorSelf | src/rstm/rstm-dev/mesh/point.hpp:48 | `x ^ x` is 0 |
| MeshPoint.Hash | src/rstm/rstm-dev/mesh/point.hpp:46-49 | hash is `x ^ y` sign-extended to a 64-bit size_t |
| MeshPoint.HashSymmetric | src/rstm/rstm-dev/mesh/point.hpp:46-49 | the hash ignores the order of the coordinates and is 0 on the diagonal |
| MeshPoint.LessIsStrictTotalOrder | src/rstm/rstm-dev/mesh/point.hpp:51-68 | operator< is irreflexive, transitive, asymmetric and total, and its equality is operator== |
| MeshPoint.Bucket | src/rstm/rstm-dev/mesh/point.hpp:153-156 | bucket is one of the 2 * num_workers buckets for every point in the coordinate range |
| MeshPoint.BucketDoesNotOverflow | src/rstm/rstm-dev/mesh/point.hpp:25-28 | with coordinates below 2^24 in magnitude and at most 32 workers, bucket's product fits in an int |
| MeshPoint.BucketMonotone | src/rstm/rstm-dev/mesh/point.hpp:153-156 | a point further right never falls in an earlier bucket |
| MeshPoint.BucketEnds | src/rstm/rstm-dev/mesh/point.hpp:153-156 | min_coord falls in bucket 0, and max_coord in the last bucket when the range is at least that wide |
| MeshPoint.Stripe | src/rstm/rstm-dev/mesh/point.hpp:157-159 | stripe is bucket / 2, one of the workers |
| MeshPoint.ClosestSeam | src/rstm/rstm-dev/mesh/point.hpp:160-165 | closest_seam names one of the num_workers - 1 seams |
| MeshPoint.SeamServesNeighbours | src/rstm/rstm-dev/mesh/point.hpp:139-146 | for a point whose bucket is b, closest_seam's seam s has b = 2s+1 or 2s+2, except that bucket 0 goes to seam 0 and bucket 2n-1 to seam n-2 |
| Translink.IsKeyExistCases | src/translink/list/translist.cc:387-393 | IsKeyExist: a FIND's node is always present, an INSERT's iff its transaction committed, a DELETE's iff it did not; only commitment matters |
| Translink.ViewAtPosition | src/translink/list/translist.cc:395-418 | the node LocatePred stops at holds the key exactly when the key has a node in the list |
| Translink.ViewInsert | src/translink/list/translist.cc:186-198 | splicing a new node between pred and curr keeps the list sorted and adds exactly its key to the node map |
| Translink.ViewUpdate | src/translink/list/translist.cc:233-241 | swinging one node's descriptor changes only that key's entry of the node map |
| Translink.KeySetUpdate | src/translink/list/translist.cc:233-241 | claiming one node moves only its key in or out of the logical set |
| Translink.KeySetSameCommits | src/translink/list/translist.cc:387-393 | two status maps that agree on which transactions committed give the same logical set |
| Translink.EvolvesTransitive | src/translink/list/translist.cc:98-158 | the allowed state changes (statuses only leave ACTIVE, nodes only gain keys or change descriptor) compose, and the active transactions only shrink |
| Translink.FinishingStrictlyShrinks | src/translink/list/translist.cc:147-157 | finishing an active transaction leaves strictly fewer active ones |
| Translink.PushShrinksMeasure | src/translink/list/translist.cc:104-119 | pushing an active transaction that is not on the help stack strictly shrinks the set of active transactions not on the stack, which bounds the helping recursion |
| Translink.FinishingShrinksMeasure | src/translink/list/translist.cc:98-158 | while the help stack stays the same, finishing transactions never grows that measure |
| Translink.ClaimResultCode | src/translink/list/translist.cc:205-245 | a claim of a node not already claimed by this very operation returns OK exactly when the key's presence is the wanted one and the transaction is still active, and then the node carries this operation |
| Translink.ProgressStart | src/translink/list/translist.cc:113-121 | before its first operation an unhindered transaction has changed nothing |
| Translink.QuietStep | src/translink/list/translist.cc:121-143 | one operation of an unhindered transaction is never skipped, succeeds exactly when it succeeds against the starting set, and keeps the open and committed readings of the set |
| Translink.QuietOutcome | src/translink/list/translist.cc:121-143 | unhindered, an operation returns OK iff it succeeds against the starting set, and then claims its key's node |
| Translink.QuietSets | src/translink/list/translist.cc:121-143 | after one unhindered operation the set read with the transaction open is still the starting set, and read as committed it has this operation applied |
| Translink.FailingPrefix | src/translink/list/translist.cc:121-157 | a transaction with a failing operation fails as a whole |
| Translink.Step | src/translink/list/translist.cc:160-368 | a successful operation leaves its key absent after DELETE and present otherwise, and every other key as it was |
| Translink.ApplySnoc | src/translink/list/translist.cc:121-143 | applying operations one more at a time agrees with applying them all |
| Translink.SerialAgrees | src/translink/list/translist.cc:121-157 | when no two operations share a key, checking every operation against the starting set agrees with serial execution, in outcome and in the resulting set |
| Translink.DeleteThenFindKeepsKey | src/translink/list/translist.cc:387-393 | with a repeated key the two part: DELETE then FIND of a present key commits and leaves the key present, while serially the FIND would fail |
| Translink.InsertThenFindAborts | src/translink/list/translist.cc:387-393 | INSERT then FIND of an absent key aborts, while serially it commits |
| TransLinkList.KeySetFresh | src/translink/list/translist.cc:47-53 | a descriptor nobody has used does not change how the existing nodes read |
| TransLinkList.TransList.constructor | src/translink/list/translist.cc:20-27 | a new list holds only the two sentinels, so the set is empty |
| TransLinkList.TransList.AllocateDesc | src/translink/list/translist.cc:47-53 | AllocateDesc returns a fresh ACTIVE descriptor of the given operations, and the set reads as before |
| TransLinkList.TransList.LocatePred | src/translink/list/translist.cc:395-418 | LocatePred stops at the first node whose key is not below the target; that node holds the key iff the key has a node |
| TransLinkList.TransList.ExecuteOps | src/translink/list/translist.cc:55-75 | ExecuteOps ends with the transaction finished and returns true iff it committed; unhindered, it commits iff every operation succeeds against the starting set, and the set is then the starting set with the operations applied, otherwise unchanged |
| TransLinkList.TransList.HelpOps | src/translink/list/translist.cc:98-158 | HelpOps does nothing to a finished transaction, aborts one already on the help stack, and otherwise runs it to COMMITTED or ABORTED; either something finishes or nothing changes |
| TransLinkList.TransList.HelpRun | src/translink/list/translist.cc:113-157 | helping an active transaction not on the stack pushes it, runs its operations, pops it and finishes it |
| TransLinkList.TransList.HelpBody | src/translink/list/translist.cc:121-157 | once pushed, the transaction's operations run, the stack is popped, and the transaction finishes |
| TransLinkList.TransList.RunOps | src/translink/list/translist.cc:121-143 | the loop runs operations in index order only while the transaction is ACTIVE, no operation has failed and opid < size; unhindered, it keeps the open and committed readings of the set |
| TransLinkList.TransList.RunStep | src/translink/list/translist.cc:122-142 | one pass of the loop keeps the state evolving from the loop's start and never grows the helping measure |
| TransLinkList.TransList.RunOp | src/translink/list/translist.cc:122-140 | an operation dispatches on its type to Insert, Delete or Find |
| TransLinkList.TransList.HelpOpsFinish | src/translink/list/translist.cc:145-157 | after popping the stack the status becomes COMMITTED if no operation failed and ABORTED otherwise, each only from ACTIVE |
| TransLinkList.TransList.FinishPendingTxn | src/translink/list/translist.cc:374-381 | FinishPendingTxn never helps the caller's own transaction, does nothing for a finished one, and otherwise helps past the claiming operation |
| TransLinkList.TransList.ClaimExisting | src/translink/list/translist.cc:204-245 | for a key with a node: help its owner, then try to claim it; a retry happens only after some transaction finished |
| TransLinkList.TransList.TryClaim | src/translink/list/translist.cc:217-245 | the same operation already recorded is a SKIP; the claim fails unless the presence is the wanted one and the transaction is ACTIVE; otherwise the node's descriptor becomes this operation |
| TransLinkList.TransList.Splice | src/translink/list/translist.cc:185-198 | the successful compare-and-swap of Insert puts the new node between pred and curr, adding its key to the node map |
| TransLinkList.TransList.Insert | src/translink/list/translist.cc:160-248 | Insert over a logically present key fails; over an absent node it claims the node; a key without a node gets a new node if the transaction is ACTIVE; on OK the key's node carries this operation |
| TransLinkList.TransList.ClaimPresent | src/translink/list/translist.cc:250-368 | Delete and Find fail when no node holds the key, and otherwise claim the node when it reads as present |
| TransMap.HelpStack.Contents | src/translink/map/transmap.h:117-118 | the stack holds exactly index transactions |
| TransMap.HelpStack.constructor | src/translink/map/transmap.h:92-118 | a new stack is empty |
| TransMap.HelpStack.Init | src/translink/map/transmap.h:93 | Init empties the stack |
| TransMap.HelpStack.Push | src/translink/map/transmap.h:95-99 | Push requires index < 255 and appends the transaction |
| TransMap.HelpStack.Pop | src/translink/map/transmap.h:101-105 | Pop requires index > 0 and drops the innermost transaction |
| TransMap.HelpStack.Contain | src/translink/map/transmap.h:107-115 | Contain is true iff the transaction is in helps[0..index) |
| TransMap.IsKeyExistCases | src/translink/map/transmap.h:2041-2060 | MAP_FIND and MAP_UPDATE always read as present, MAP_INSERT iff committed, MAP_DELETE iff not committed |
| TransMap.IsKeyExistIgnoresAbort | src/translink/map/transmap.h:2041-2060 | an active and an aborted transaction leave the key the same; only a commit matters |
| TransMap.UnsavedIsCommittedLiveUpdate | src/translink/map/transmap.h:2062-2080 | IsUnsavedUpdate holds iff the operation is a live update (MAP_UPDATE, or MAP_FIND with a non-zero value), its transaction committed and its value differs from the stored one; the key is then present |
| TransMap.GetValue | src/translink/map/transmap.h:306-308 | GetValue is the value the claiming operation carries |
| TransMap.UnsavedValueDiffers | src/translink/map/transmap.h:2072-2080 | an unsaved update carries a value different from the stored one, non-zero unless it is a MAP_UPDATE |
| TransMap.MarkSpine | src/translink/map/transmap.h:277-282 | mark_spine keeps null as null and otherwise sets bit 0, keeping the address and the data mark |
| TransMap.UnmarkSpine | src/translink/map/transmap.h:283-288 | unmark_spine clears both tag bits and keeps the address |
| TransMap.UnmarkData | src/translink/map/transmap.h:291-293 | unmark_data clears bit 1 only |
| TransMap.MarkData | src/translink/map/transmap.h:294 | mark_data sets bit 1 only |
| TransMap.PtrDecomposes | src/translink/map/transmap.h:271-295 | a pointer is determined by its address, isSpine (bit 0) and isMarkedData (bit 1) |
| TransMap.TagRoundTrips | src/translink/map/transmap.h:277-295 | on an untagged pointer marking then unmarking is the identity, and unmark_spine also strips a data mark on a spine |
| TransMap.MarkDataNode | src/translink/map/transmap.h:297-302 | mark_data_node sets the data mark of slot pos and changes no other slot |
| TransMap.Pow | src/translink/map/transmap.h:331-342 | POW(p) is 2^p for p <= 30 and fits in an int |
| TransMap.HashKey | src/translink/map/transmap.h:224-259 | with toHash == 5 HASH_KEY is the key itself |
| TransMap.HashKeyInjective | src/translink/map/transmap.h:256-258 | so the hash is one-to-one |
| TransMap.MainSize | src/translink/map/transmap.h:153-154 | MAIN_SIZE is 2^MAIN_POW |
| TransMap.MainPos | src/translink/map/transmap.h:304 | getMAINPOS masks with MAIN_SIZE - 1, which for a power of two is the hash modulo MAIN_SIZE, a valid bucket |
| TransSkipList.CallerToInternal | src/translink/skiplist/transskip.h:33 | internal keys are the caller's plus two |
| TransSkipList.KeyTranslation | src/translink/skiplist/transskip.h:33-34 | INTERNAL_TO_CALLER_KEY undoes CALLER_TO_INTERNAL_KEY, and the translation keeps the order and equality of keys |
| TransSkipList.Code | src/translink/skiplist/transskip.cc:834 | a boolean result true stands for OK and false for FAIL |
| TransSkipList.TrailingOnesBound | src/translink/skiplist/transskip.cc:149-150 | the level loop counts at most as many bits as the mask keeps |
| TransSkipList.GetLevel | src/translink/skiplist/transskip.cc:145-152 | get_level returns 1 plus the trailing ones of bits 4..22 of the random word, a value in 1..NUM_LEVELS |
| TransSkipList.SkipKeySetFresh | src/translink/skiplist/transskip.h:74-84 | a descriptor nobody has used does not change how the existing nodes read |
| TransSkipList.TransSkip.constructor | src/translink/skiplist/transskip.cc:331-363 | transskip_alloc gives a list of the two sentinels, so the set is empty |
| TransSkipList.TransSkip.AllocateDesc | src/translink/skiplist/transskip.h:74-84 | a fresh LIVE descriptor of the given operations leaves the set as it was |
| TransSkipList.TransSkip.SearchPredecessors | src/translink/skiplist/transskip.cc:237-269 | on the bottom level the search stops at the first node whose internal key is not below the target; it holds the key iff the key has a node |
| TransSkipList.TransSkip.ExecuteOps | src/translink/skiplist/transskip.cc:909-916 | execute_ops as written returns what help_ops returns: true for a transaction another thread already finished, aborted or not; unhindered, a live transaction commits iff every operation succeeds against the starting set |
| TransSkipList.TransSkip.ExecuteOpsChecked | src/translink/skiplist/transskip.cc:909-916 | the corrected execute_ops returns true iff the transaction committed, with the same atomicity |
| TransSkipList.TransSkip.HelpOps | src/translink/skiplist/transskip.cc:814-906 | help_ops aborts a transaction already on the help stack and returns false; otherwise it runs it to COMMITTED on success or ABORTED on failure, each only from LIVE |
| TransSkipList.TransSkip.HelpRun | src/translink/skiplist/transskip.cc:832-905 | helping a transaction not on the stack pushes it, runs it and finishes it; a finished one is reported as success and left alone |
| TransSkipList.TransSkip.HelpBody | src/translink/skiplist/transskip.cc:834-905 | once pushed, the operations run, the stack is popped and the transaction finishes |
| TransSkipList.TransSkip.RunOps | src/translink/skiplist/transskip.cc:834-856 | the loop runs operations while the transaction is LIVE, the last one succeeded and opid < size |
| TransSkipList.TransSkip.RunStep | src/translink/skiplist/transskip.cc:836-855 | one pass keeps the state evolving from the loop's start and never grows the helping measure |
| TransSkipList.TransSkip.RunOp | src/translink/skiplist/transskip.cc:838-853 | an operation dispatches on its type to insert, delete or find |
| TransSkipList.TransSkip.HelpOpsFinish | src/translink/skiplist/transskip.cc:858-905 | after popping, the status becomes COMMITTED on success and ABORTED on failure, each only from LIVE |
| TransSkipList.TransSkip.FinishPendingTxn | src/translink/skiplist/transskip.cc:106-120 | FinishPendingTxn never helps its own transaction and helps others only while LIVE, past the claiming operation |
| TransSkipList.TransSkip.ClaimExisting | src/translink/skiplist/transskip.cc:386-443 | for a key with a node: help its owner, then try to claim it; a retry happens only after some transaction finished |
| TransSkipList.TransSkip.TryClaim | src/translink/skiplist/transskip.cc:405-443 | the same operation repeated returns true at once; a key whose presence is not the wanted one, or a transaction no longer LIVE, fails; otherwise the node's descriptor becomes this operation |
| TransSkipList.TransSkip.LinkNode | src/translink/skiplist/transskip.cc:455-485 | linking a new node at the bottom level keeps the list sorted and adds its key to the node map |
| TransSkipList.TransSkip.Insert | src/translink/skiplist/transskip.cc:365-540 | transskip_insert returns false when the key logically exists, true for the same operation repeated, and otherwise claims or creates the key's node |
| TransSkipList.TransSkip.ClaimPresent | src/translink/skiplist/transskip.cc:541-778 | transskip_delete and transskip_find fail when no node holds the key and otherwise claim it when it reads as present |
| Lockfree.NodeKey | src/boosting/list/lockfreelist.cc:84-93 | position 0 is the head with key 0 and position \|keys\| + 1 the tail with key 0xffffffff |
| Lockfree.Locate | src/boosting/list/lockfreelist.cc:29-75 | LocatePred stops at the first node after the head whose key is not below the target, the tail if none is; every node before it is below the target |
| Lockfree.LocateFinds | src/boosting/list/lockfreelist.cc:29-81 | in an increasing list, the key is in the list iff LocatePred stops on a node holding it |
| Lockfree.InsertAsWritten | src/boosting/list/lockfreelist.cc:127-167 | Insert as written refuses a key exactly when Find as written reports it |
| Lockfree.DeleteAsWritten | src/boosting/list/lockfreelist.cc:172-196 | Delete as written succeeds exactly when Find as written reports the key |
| Lockfree.TailKeyAsWritten | src/boosting/list/lockfreelist.cc:78-81 | as written, the tail key 0xffffffff, never inserted, is reported found, refused by Insert and "deleted" by Delete |
| Lockfree.SpliceKeeps | src/boosting/list/lockfreelist.cc:127-167 | linking a node between LocatePred's two nodes keeps the list increasing and adds just that key |
| Lockfree.SpliceAt | src/boosting/list/lockfreelist.cc:127-167 | where each key of the list after a splice comes from |
| Lockfree.UnlinkKeeps | src/boosting/list/lockfreelist.cc:172-196 | unlinking the found node keeps the list increasing and removes just its key |
| Lockfree.LockfreeList.constructor | src/boosting/list/lockfreelist.cc:84-99 | a new list has the head linked straight to the tail and holds no key |
| Lockfree.LockfreeList.LocatePred | src/boosting/list/lockfreelist.cc:29-75 | the walk returns Locate's position, with the node before it as left |
| Lockfree.LockfreeList.Find | src/boosting/list/lockfreelist.cc:78-81 | Find is true iff the key is in the list (the tail excluded) |
| Lockfree.LockfreeList.Size | src/boosting/list/lockfreelist.cc:115-123 | Size counts the nodes strictly between head and tail |
| Lockfree.LockfreeList.Insert | src/boosting/list/lockfreelist.cc:127-167 | Insert returns false iff the key is already present; afterwards the key is present and nothing else changed |
| Lockfree.LockfreeList.Delete | src/boosting/list/lockfreelist.cc:172-196 | Delete returns false iff the key is absent; afterwards the key is absent and nothing else changed |
| BoostList.ReplayStep | src/boosting/list/boostinglist.h:94-101 | replaying a logged INSERT adds the key, a logged DELETE removes it |
| BoostList.LogInverse | src/boosting/list/boostinglist.h:44-74 | logging the inverse of a change keeps the log able to restore the starting set |
| BoostList.InversesUndo | src/boosting/list/boostinglist.h:44-74 | an insert that added a key is undone by deleting it, and a delete that removed one by inserting it, each succeeding |
| BoostList.UndoLast | src/boosting/list/boostinglist.h:84-104 | replaying a log newest first is replaying its last entry, then the rest |
| BoostList.Perform | src/boosting/list/boostinglist.h:44-79 | an operation logs exactly one entry when it changed the set and none otherwise, never touching earlier entries |
| BoostList.RunUndone | src/boosting/list/boostinglist.h:44-108 | whatever a transaction did, replaying its log newest first succeeds at every step and restores the starting set |
| BoostList.BoostingList.constructor | src/boosting/list/boostinglist.h:32-36 | a new boosted list is empty with an empty log |
| BoostList.BoostingList.Init | src/boosting/list/boostinglist.h:32-36 | Init starts an empty log from the current set |
| BoostList.BoostingList.Insert | src/boosting/list/boostinglist.h:44-58 | Insert succeeds iff the key is locked and absent; a success adds the key and logs a DELETE, a failure changes neither set nor log |
| BoostList.BoostingList.Delete | src/boosting/list/boostinglist.h:60-74 | Delete succeeds iff the key is locked and present; a success removes the key and logs an INSERT, a failure changes neither |
| BoostList.BoostingList.Find | src/boosting/list/boostinglist.h:76-79 | Find is true iff the key is locked and present, and logs nothing |
| BoostList.BoostingList.OnAbort | src/boosting/list/boostinglist.h:81-108 | OnAbort replays the log newest first, every step succeeding, restores the set the transaction started from, and empties the log |
| BoostList.BoostingList.OnCommit | src/boosting/list/boostinglist.h:110-114 | OnCommit empties the log and keeps the set |
| BoostMap.PutIfAbsent | src/boosting/map/boostingmap.cc:36 | putIfAbsent succeeds iff the key is absent, and then maps it to the value |
| BoostMap.Get | src/boosting/map/boostingmap.cc:53 | get returns the key's value, or 0 when absent |
| BoostMap.Remove | src/boosting/map/boostingmap.cc:55 | remove succeeds iff the key is present, and removes it |
| BoostMap.PutUpdate | src/boosting/map/boostingmap.cc:85 | putUpdate succeeds iff the two values are equal or the key holds the expected value, and then stores the new value |
| BoostMap.Replay | src/boosting/map/boostingmap.cc:109-117 | a logged FIND is never replayed successfully and changes nothing |
| BoostMap.LogInverse | src/boosting/map/boostingmap.cc:29-95 | logging an entry whose replay undoes the last change keeps the log able to restore the starting table |
| BoostMap.UpdateEntryAsWritten | src/boosting/map/boostingmap.cc:92 | as written, the UPDATE entry puts the new value in val and the expected one in expected, per the constructor at src/boosting/map/boostingmap.h:19 |
| BoostMap.UpdateEntry | src/boosting/map/boostingmap.cc:89-92 | the corrected entry swaps the two, so replay expects the new value and puts back the old one |
| BoostMap.UpdateUndoAsWritten | src/boosting/map/boostingmap.cc:92 | replaying the entry as written after an update that changed the value fails and leaves the new value in place |
| BoostMap.UpdateUndoRestores | src/boosting/map/boostingmap.cc:89-92 | replaying the swapped entry after any successful update succeeds and restores the table |
| BoostMap.BoostingMap.constructor | src/boosting/map/boostingmap.cc:5-6 | a new map is empty with all counters at zero |
| BoostMap.BoostingMap.Init | src/boosting/map/boostingmap.cc:19-22 | Init starts an empty log from the current table |
| BoostMap.BoostingMap.Insert | src/boosting/map/boostingmap.cc:29-44 | Insert returns LOCK_FAIL without the lock, OP_FAIL if the key is present, else OK; only OK adds the key and logs a DELETE |
| BoostMap.BoostingMap.Delete | src/boosting/map/boostingmap.cc:46-62 | Delete returns LOCK_FAIL, OP_FAIL if absent, else OK; OK removes the key and logs an INSERT carrying the value read before removal |
| BoostMap.BoostingMap.Find | src/boosting/map/boostingmap.cc:64-77 | Find returns LOCK_FAIL, OP_FAIL when get reads 0, else OK, and never writes to the log |
| BoostMap.BoostingMap.Update | src/boosting/map/boostingmap.cc:79-95 | Update returns LOCK_FAIL, OP_FAIL unless putUpdate succeeds, else OK, storing the new value and logging an entry whose replay restores the old one |
| BoostMap.BoostingMap.OnAbort | src/boosting/map/boostingmap.cc:97-124 | OnAbort counts a fake abort iff the return code was LOCK_FAIL, counts the abort, replays in reverse with every step succeeding, restores the starting table and clears the log |
| BoostMap.BoostingMap.OnCommit | src/boosting/map/boostingmap.cc:126-131 | OnCommit increments the commit counter, clears the log and keeps the table |
| BenchList.SaneSorted | src/rstm/rstm-dev/bench/List.hpp:76-89 | comparing neighbours from the sentinel on is the same as the list being sorted with every value above the sentinel's -1 |
| BenchList.FirstAtLeast | src/rstm/rstm-dev/bench/List.hpp:111-120 | the traversal stops at the first value not below v, every earlier value being below it |
| BenchList.InsertedAt | src/rstm/rstm-dev/bench/List.hpp:122-131 | when the traversal stops on a larger value, insert splices v in just before it |
| BenchList.StopsOnMember | src/rstm/rstm-dev/bench/List.hpp:136-150 | in a sorted list the traversal stops on v exactly when v is present |
| BenchList.SpliceSane | src/rstm/rstm-dev/bench/List.hpp:122-131 | splicing v between the values below and above it keeps the list sane and adds just v |
| BenchList.DropSane | src/rstm/rstm-dev/bench/List.hpp:184-197 | unlinking one node of a sorted list keeps it sane and removes just its value |
| BenchList.InsertedSane | src/rstm/rstm-dev/bench/List.hpp:109-132 | insert keeps a sane list sane, adds exactly v, and grows by one node when v was absent |
| BenchList.RemovedSane | src/rstm/rstm-dev/bench/List.hpp:179-201 | remove keeps a sane list sane and takes out exactly v, leaving every other value |
| BenchList.List.constructor | src/rstm/rstm-dev/bench/List.hpp:74 | a new list is just the sentinel |
| BenchList.List.IsSane | src/rstm/rstm-dev/bench/List.hpp:77-89 | isSane is true iff every value is above the one before it, starting from the sentinel |
| BenchList.List.ExtendedSanityCheck | src/rstm/rstm-dev/bench/List.hpp:93-104 | extendedSanityCheck is true iff the list is sane and the verifier holds for every value |
| BenchList.List.Traverse | src/rstm/rstm-dev/bench/List.hpp:112-120 | the shared traversal stops at FirstAtLeast |
| BenchList.List.Insert | src/rstm/rstm-dev/bench/List.hpp:109-132 | insert links v in before the stopping point unless that node holds v |
| BenchList.List.Lookup | src/rstm/rstm-dev/bench/List.hpp:136-150 | lookup is true iff the traversal stops on v, which in a sane list is iff v is in the list |
| BenchList.List.Remove | src/rstm/rstm-dev/bench/List.hpp:179-201 | remove unlinks the node holding v if the traversal stops on one, and otherwise changes nothing |
| BenchList.List.FindMax | src/rstm/rstm-dev/bench/List.hpp:154-163 | findmax is the last value, or the sentinel's -1 in an empty list; in a sane list it is the largest value |
| BenchList.List.FindMin | src/rstm/rstm-dev/bench/List.hpp:167-175 | findmin is the first value, or -1 in an empty list; in a sane list it is the smallest value |
| BenchList.List.Overwrite | src/rstm/rstm-dev/bench/List.hpp:205-217 | overwrite writes values back unchanged, so the list is the same |
| BenchList.FirstAtLeastAt | src/rstm/rstm-dev/bench/List.hpp:115-120 | any position with every earlier value below v and a value not below v there is the stopping point |
| BenchDList.KeysOf | src/rstm/rstm-dev/bench/DList.hpp:77-82 | the values after the head end with the tail's INT_MAX |
| BenchDList.LinkIn | src/rstm/rstm-dev/bench/DList.hpp:150-161 | insert's four pointer writes, around a new node, keep the list linked both ways |
| BenchDList.KeysIn | src/rstm/rstm-dev/bench/DList.hpp:150-161 | the values after the link step are the old ones with v spliced in at the stopping point |
| BenchDList.Unlink | src/rstm/rstm-dev/bench/DList.hpp:193-197 | remove's two pointer writes keep the list linked both ways and drop the value at the stopping point |
| BenchDList.KeysOut | src/rstm/rstm-dev/bench/DList.hpp:193-197 | the values after the unlink step are the old ones with that one value dropped |
| BenchDList.DList.Keys | src/rstm/rstm-dev/bench/DList.hpp:77-82 | a list's values end with the tail's INT_MAX |
| BenchDList.DList.constructor | src/rstm/rstm-dev/bench/DList.hpp:78-82 | a new list is head and tail pointing at each other, holding only INT_MAX, and sane |
| BenchDList.DList.IsSane | src/rstm/rstm-dev/bench/DList.hpp:85-130 | on a well-linked list, isSane is true iff the values after the head strictly increase from -1 |
| BenchDList.DList.Traverse | src/rstm/rstm-dev/bench/DList.hpp:138-147 | the walk stops at the first node not below v, at FirstAtLeast of the values |
| BenchDList.DList.Insert | src/rstm/rstm-dev/bench/DList.hpp:135-163 | insert changes the values exactly as List's insert does, keeping the list well linked |
| BenchDList.DList.LinkBetween | src/rstm/rstm-dev/bench/DList.hpp:150-161 | the link step puts a node holding v between the nodes at the stopping point |
| BenchDList.DList.Lookup | src/rstm/rstm-dev/bench/DList.hpp:167-181 | lookup is true iff the walk stops on v; in a sane list iff v is a value, the tail's INT_MAX included |
| BenchDList.DList.Remove | src/rstm/rstm-dev/bench/DList.hpp:185-212 | remove changes the values exactly as List's remove does, keeping the list well linked |
| BenchDList.DList.UnlinkAt | src/rstm/rstm-dev/bench/DList.hpp:193-200 | the unlink step links the nodes on either side of the stopping point to each other |
| RBTrees.BlackHeight | src/rstm/rstm-dev/bench/Tree.hpp:434-446 | blackHeight is a count of black nodes or the -1 that marks disagreeing paths, never less |
| RBTrees.RedMono | src/rstm/rstm-dev/bench/Tree.hpp:448-457 | a red-red violation found under a black parent is found under any parent, and one under any parent is found under a red one |
| RBTrees.NotRedOk | src/rstm/rstm-dev/bench/Tree.hpp:448-457 | for a node that is not red the parent's colour does not matter to redViolation |
| RBTrees.BlackenOk | src/rstm/rstm-dev/bench/Tree.hpp:204-210 | blackening a node without a violation (the root at the end of insert and remove) leaves none, whatever its parent |
| RBTrees.InOrderOrdered | src/rstm/rstm-dev/bench/Tree.hpp:471-481 | inOrder with bounds is true iff the tree is a search tree whose values all lie within the bounds |
| RBTrees.SaneOrdered | src/rstm/rstm-dev/bench/Tree.hpp:486-501 | isSane is true iff the tree is empty or has a black root, equal black heights, no red node under a red one, and is a search tree of ints |
| RBTrees.HeightBound | src/rstm/rstm-dev/bench/Tree.hpp:434-457 | with equal black heights and no red violation, the height is at most twice the black height, plus one for a red root |
| RBTrees.SaneHeight | src/rstm/rstm-dev/bench/Tree.hpp:486-501 | a tree passing isSane is at most twice as tall as its black height |
| RBTrees.InorderFacts | src/rstm/rstm-dev/bench/Tree.hpp:471-481 | the values read left to right are the tree's values, and they increase iff the tree is a search tree |
| RBTrees.SameInorder | src/rstm/rstm-dev/bench/Tree.hpp:183-200 | replacing a subtree by one with the same in-order values, as a rotation or recolouring does, keeps the whole tree's values and its order |
| RBTrees.ElementsPlug | src/rstm/rstm-dev/bench/Tree.hpp:26-28 | a tree rebuilt from a node and its path to the root (the parent pointers) holds the node's values and those on and beside the path |
| RBTrees.OrderedPlug | src/rstm/rstm-dev/bench/Tree.hpp:26-28 | that rebuilt tree is a search tree iff the node's subtree is, its values lie on the right side of every ancestor, and the path is ordered |
| RBTrees.HeightPlug | src/rstm/rstm-dev/bench/Tree.hpp:434-446 | blackHeight of the rebuilt tree is computed from the node's up the path |
| RBTrees.RedPlug | src/rstm/rstm-dev/bench/Tree.hpp:448-457 | redViolation of the rebuilt tree is a violation on the path or one in the node's subtree under its parent's colour |
| RBTrees.SameShapeChecks | src/rstm/rstm-dev/bench/Tree.hpp:245 | copying a value into a node on the path changes none of the colour or black-height checks |
| BenchTree.Descend | src/rstm/rstm-dev/bench/Tree.hpp:219-226 | the walk down stops at the node holding v or at the empty child where v belongs, with v on the search side of every ancestor |
| BenchTree.OffPath | src/rstm/rstm-dev/bench/Tree.hpp:221-226 | a value on the search side of every ancestor is not an ancestor's value nor in a subtree beside the path |
| BenchTree.DescendFinds | src/rstm/rstm-dev/bench/Tree.hpp:72-84 | in a search tree, v is present iff the walk stops at a node |
| BenchTree.RecolorLocal | src/rstm/rstm-dev/bench/Tree.hpp:142-151 | with a red aunt, recolouring parent, aunt and grandparent keeps the values in order and the black height, and leaves a red grandparent with no violation below |
| BenchTree.ZigZagL | src/rstm/rstm-dev/bench/Tree.hpp:153-200 | the double rotation with the new node right of a left parent keeps the values in order and the black height |
| BenchTree.ZigZagR | src/rstm/rstm-dev/bench/Tree.hpp:153-200 | the mirror double rotation keeps the values in order and the black height |
| BenchTree.RotateLocal | src/rstm/rstm-dev/bench/Tree.hpp:153-200 | with a black aunt, the rotations keep the values in order and the black height and leave a black top with no violation below |
| BenchTree.RotateStraight | src/rstm/rstm-dev/bench/Tree.hpp:180-200 | the single rotation at the grandparent, new node and parent on the same side, keeps values, order and black height and leaves no violation |
| BenchTree.RotateBent | src/rstm/rstm-dev/bench/Tree.hpp:153-200 | the double rotation, new node and parent on opposite sides, keeps values, order and black height and leaves no violation |
| BenchTree.LeafRises | src/rstm/rstm-dev/bench/Tree.hpp:111-122 | a red leaf holding v where the walk stopped gives a search tree of the old values plus v, balanced, whose only possible violation is the new node under a red parent |
| BenchTree.StopSettles | src/rstm/rstm-dev/bench/Tree.hpp:125-132 | when the node reaches the root or its child, or its parent is black, every check but the root's colour holds |
| BenchTree.Grandparent | src/rstm/rstm-dev/bench/Tree.hpp:133-140 | with a red parent the grandparent exists and is black, and rewriting its subtree keeps the rest of the tree valid |
| BenchTree.RecolorRises | src/rstm/rstm-dev/bench/Tree.hpp:142-151 | the recolouring case moves the possible violation up two levels and keeps values, order and balance |
| BenchTree.RotateSettles | src/rstm/rstm-dev/bench/Tree.hpp:153-201 | the rotation case leaves every check but the root's colour holding, with the same values |
| BenchTree.BlackenSettled | src/rstm/rstm-dev/bench/Tree.hpp:204-210 | blackening the root of a tree passing every other check keeps those checks |
| BenchTree.InsertFixup | src/rstm/rstm-dev/bench/Tree.hpp:124-210 | insert's rebalancing ends with a black root, equal black heights, no red violation and the same values in search order |
| BenchTree.Leftmost | src/rstm/rstm-dev/bench/Tree.hpp:240-243 | the walk down the left edge of the right subtree ends at a node with no left child |
| BenchTree.LeftPathAbove | src/rstm/rstm-dev/bench/Tree.hpp:240-243 | below a path that only goes left, every value on and beside the path is larger |
| BenchTree.LeftmostLeast | src/rstm/rstm-dev/bench/Tree.hpp:240-245 | the leftmost node of a search tree holds its least value |
| BenchTree.RemoveBelow | src/rstm/rstm-dev/bench/Tree.hpp:249-260 | replacing a subtree by an ordered one holding its values minus v removes exactly v from a search tree |
| BenchTree.SpliceOut | src/rstm/rstm-dev/bench/Tree.hpp:249-260 | putting a node's only child in its place keeps a search tree and removes exactly that node's value |
| BenchTree.CopyLocal | src/rstm/rstm-dev/bench/Tree.hpp:236-247 | copying the right subtree's least value into a two-child node and splicing that value's node out keeps a search tree without the node's old value |
| BenchTree.CopyLeftmost | src/rstm/rstm-dev/bench/Tree.hpp:236-260 | the copy and the splice together remove exactly v from the whole tree and keep it a search tree |
| BenchTree.LeftmostPlace | src/rstm/rstm-dev/bench/Tree.hpp:240-246 | the leftmost node's path in the tree before the copy is the path remove uses after it |
| BenchTree.ExtractSinks | src/rstm/rstm-dev/bench/Tree.hpp:262-270 | after the splice, a black node with a red child makes the child black and stops the loop; otherwise the loop starts at the splice with its place one black short |
| BenchTree.Sibling | src/rstm/rstm-dev/bench/Tree.hpp:278-279 | with curr black and below a parent, its sibling is a node one black higher than curr's subtree |
| BenchTree.PromoteLocal | src/rstm/rstm-dev/bench/Tree.hpp:283-311 | rotating a red sibling above the parent keeps the values in order |
| BenchTree.PromoteKeeps | src/rstm/rstm-dev/bench/Tree.hpp:283-311 | the red-sibling rotation keeps the loop's invariant, leaving curr a black sibling |
| BenchTree.FarLocal | src/rstm/rstm-dev/bench/Tree.hpp:313-348 | with a red far nephew the rotation at the parent keeps the values in order and restores the missing black |
| BenchTree.FarSettles | src/rstm/rstm-dev/bench/Tree.hpp:313-348 | the far-nephew case leaves a tree with a black root, balanced, with no violation and the same values in order |
| BenchTree.TurnLocal | src/rstm/rstm-dev/bench/Tree.hpp:350-384 | with only the near nephew red, rotating it above the sibling keeps the sibling's values in order and its black height |
| BenchTree.NearTurns | src/rstm/rstm-dev/bench/Tree.hpp:350-384 | that rotation keeps the loop's invariant and makes the far nephew red |
| BenchTree.NearSettles | src/rstm/rstm-dev/bench/Tree.hpp:350-411 | the near-nephew case leaves a tree with a black root, balanced, with no violation and the same values in order |
| BenchTree.MoveUpSinks | src/rstm/rstm-dev/bench/Tree.hpp:412-423 | with both nephews black, reddening the sibling and moving curr to the parent keeps the loop's invariant one level up |
| BenchTree.SinkStops | src/rstm/rstm-dev/bench/Tree.hpp:274-277 | when curr is red or the root, blackening it leaves a settled tree with a black root |
| BenchTree.RemoveFixup | src/rstm/rstm-dev/bench/Tree.hpp:272-428 | remove's rebalancing ends with a black root, equal black heights, no red violation and the same values in search order |
| BenchTree.SettledSane | src/rstm/rstm-dev/bench/Tree.hpp:486-501 | a tree of ints passing every check with a black root passes isSane |
| BenchTree.RBTree.constructor | src/rstm/rstm-dev/bench/Tree.hpp:484 | a new tree is empty and sane |
| BenchTree.RBTree.Lookup | src/rstm/rstm-dev/bench/Tree.hpp:72-84 | lookup finds only values in the tree, and in a sane tree finds v iff it is present |
| BenchTree.RBTree.Insert | src/rstm/rstm-dev/bench/Tree.hpp:95-211 | insert keeps the tree sane and adds exactly v; a present v leaves the tree untouched |
| BenchTree.RBTree.Remove | src/rstm/rstm-dev/bench/Tree.hpp:214-431 | remove keeps the tree sane and takes out exactly v; an absent v leaves the tree untouched |
| BenchTree.RBTree.Modify | src/rstm/rstm-dev/bench/Tree.hpp:86-92 | modify removes v if present and inserts it otherwise, keeping the tree sane |

## Left out

- Concurrency: interleavings of other threads, compare-and-swap failures and retry loops, memory fences and atomics. Each operation runs as one thread would run it alone.
- Translink physical deletion and marked nodes: the source never marks nodes, because its MarkForDeletion calls are commented out, so the IS_MARKED branches are not modelled.
- The translink lists' diagnostic counters of commits, aborts and fake aborts are not modelled; they only feed output.
- The upper levels of the skip list (the towers built from get_level) are not modelled. They only shortcut the search, and the set lives on the bottom level. get_level itself is modelled, with its random word as a parameter.
- The descriptor and node pools: allocation is a fresh identifier.
- translink/map/transmap.cc is not part of this model. From transmap.h only the help stack, the presence rules, the tag helpers, POW, getMAINPOS and HASH_KEY are modelled.
- TransMap.HashKey: only the identity hash that toHash == 5 selects is modelled; the bit-shuffling variants 1 to 4 are not.
- The wait-free hash table behind the boosted map (boosting/map/nbmap.cc) is a map with its four operations (putIfAbsent, get, remove, putUpdate) as they behave without interference.
- Key locks of the boosted list and map depend on other threads and on timeouts, so whether a lock is obtained is a parameter.
- BenchDList: increment_forward, increment_backward, increment_forward_pattern, increment_backward_pattern and increment_chunk (DList.hpp:214-333) are not modelled. They are contention workloads outside the set interface, and the pattern and chunk variants do not preserve isSane.
- BenchDList.DList.Remove: requires v < INT_MAX. For INT_MAX the walk stops on the tail, and the source writes through its NULL next pointer.
- BenchDList.DList.IsSane: its link checks are stated for well-linked lists only, where they always pass. A list whose prev and next pointers disagree is not represented.
- BenchList: nodes and pointers are not modelled; the list is the sequence of its values.
- BenchTree.RBTree.Insert: parent pointers, child IDs (validParents) and the sentinel node are implicit in the tree value, so isSane's validParents check is not modelled.
- BenchTree.RBTree.Remove: the same holds for remove; freeing the spliced node is not modelled.
- RBTrees.InOrderOrdered: inOrder's `v - 1` and `v + 1` are unbounded here. In C they overflow for INT_MIN and INT_MAX, which only matters for trees holding those two values.
- Transactional barriers (TM_READ, TM_WRITE, TM_ALLOC, TM_FREE) are plain reads, writes, allocation and nothing.
- BitFilter: the SSE paths are not modelled; only the word-at-a-time path is.
- WriteSet writeback under stack protection (STM_PROTECT_STACK) is not modelled.
- Exceptions, thread-local storage and the global thread table: the values they supply are parameters.
- Random numbers (backoff delays, skip-list levels) and clocks (tick counts in the profiles) are parameters.
- Printing: the histogram and profile dumps.
- Profiling: what happens after a trigger fires (trigger_common: collecting profiles and switching algorithm) is not modelled; each hook answers whether it would call it.
- StaticPolicies: the policies' name strings are not modelled.
- Policies.DoAvg: the five C `int` counter sums are unbounded. In C their overflow is undefined behaviour, not a wrap, so the model gives no value for it. txn_time wraps modulo 2^64 as its uint64_t does.
- TransLinkList.TransList.ExecuteOps: requires every key strictly between 0 and 0xffffffff. For key 0 LocatePred stops on the head sentinel (translist.cc:24), and for 0xffffffff on the tail sentinel (translist.cc:23). Both sentinels have a NULL nodeDesc, which FinishPendingTxn (translist.cc:374-379) dereferences.
- TransLinkList.TransList.helpStack and TransSkipList.TransSkip.helpStack are unbounded sequences. The source's HelpStack holds 255 entries and asserts `index < 255` on push (transskip.cc:49); a nesting that deep is not modelled.
- Wbmm: freeing memory is modelled as returning the freed blocks in the order the source frees them. Other threads' transaction counters are a parameter.
- MeshPoint: the point's first_edge field and the mesh geometry on doubles are not modelled.

## Findings

| source | as written | input that shows it | evidently intended | confidence | as-written member | corrected member |
|---|---|---|---|---|---|---|
| src/rstm/rstm-dev/libitm2stm/Utilities.h:63-70 | make_mask keeps the low j bytes and then shifts them up by i, selecting bytes i .. i+j-1 | make_mask(2, 4) also selects bytes 4 and 5 | the [i, j) mask its comment documents | not executed | ItmUtilities.MakeMaskAsWrittenOverreaches | ItmUtilities.MakeMask |
| src/rstm/rstm-dev/libitm2stm/BlockOperations.cpp:204-207 | the staging word `{{c}}` sets byte 0 to c and zeroes the other seven bytes | an aligned block_set of c = 1 over 8 bytes stores 0 at byte 1 | every staging byte equal to c (memset semantics) | not executed | BlockOperations.BlockSetAsWrittenLosesBytes | BlockOperations.BlockSet |
| src/rstm/rstm-dev/include/stm/UndoLog.hpp:64-67 | the word filter tests `addr + 1 < upper` on word pointers | the word at 0 filtered against [0, 8) is rejected, although its 8 bytes fill the range | the word lies entirely in [lower, upper) | not executed | UndoLog.WordFilterAsWrittenMissesLastWord | UndoLog.WordFilterMeansContained |
| src/rstm/rstm-dev/include/stm/WriteSet.hpp:224-229 | the byte rollback's test joins its two range bounds with `\|\|` | a full-mask entry at 0 rolled back into [4, 100) writes byte 0, outside the range | `&&`: only bytes inside [lower, upper) are written | not executed | WriteSetEntry.ByteRollbackAsWrittenLeaks | WriteSetEntry.ByteRollbackIsClippedWriteback |
| src/rstm/build/libstm/types.cpp:69-76 | `1 << (32 - shift)` is a shift of a 32-bit int stored in a size_t | doubling a 2^30-slot index (shift 2 to 1) gives 2^64 - 2^31 | ilength = 2^(32 - shift) | not executed | WriteSet.IndexLengthAsWrittenOverflows | WriteSet.WriteSet.DoubleIndexLength |
| src/rstm/rstm-dev/include/stm/BitFilter.hpp:72-75 | `1u << offset` is a 32-bit shift, but offset ranges over 0 .. 63 for 64-bit words | address 256 (offset 32) sets the same bit as address 0 on x86-64 | `(uintptr_t)1 << offset`, one bit per offset | not executed | BitFilter.BitAsWrittenAliases | BitFilter.BitFilter.Add |
| src/rstm/rstm-dev/libstm/policies/policies.hpp:296 | `1 + (nontxn_time / commits)` is computed in unsigned long long | one thread with total_nontxn_time 2^64 - 1 and no commits: the quotient is 2^64 - 1 and the estimate wraps to 0 | an estimate that is never zero, like the `commits += !commits` guard on the divisor | not executed | Policies.NontxTimeAsWrittenCanBeZero | Policies.NontxTime |
| src/translink/skiplist/transskip.cc:909-916 | execute_ops returns what help_ops returns, and help_ops returns true for a descriptor that is no longer live | a transaction another thread has already aborted is reported as committed | true iff the final status is committed, as the list's ExecuteOps does | not executed | TransSkipList.TransSkip.ExecuteOps | TransSkipList.TransSkip.ExecuteOpsChecked |
| src/boosting/list/lockfreelist.cc:78-81 | Find compares the key of the node LocatePred stops at, which may be the tail sentinel holding 0xffffffff | Find(0xffffffff) on an empty list is true, and Insert refuses that key | the tail excluded, so 0xffffffff is an ordinary absent key | not executed | Lockfree.TailKeyAsWritten | Lockfree.LockfreeList.Find |
| src/boosting/map/boostingmap.cc:92 | the UPDATE undo entry is built as Operation(UPDATE, key, val, expected) with the constructor's argument order (boostingmap.h:19) | after Update(k, 1, 2) succeeds, the abort's replay expects 1, fails and leaves 2 | the entry swaps the values, so replay turns the new value back into the old one | not executed | BoostMap.UpdateUndoAsWritten | BoostMap.UpdateUndoRestores |

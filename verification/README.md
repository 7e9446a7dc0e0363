# CIDL: a model of its trace, its matcher and its comparers

CIDL remembers, page by page, which bytes of memory were copied out of which mapped file. When a
buffer is written it compares the buffer with those files and counts the bytes that are
duplicates. This project models the parts of CIDL that decide what is counted, and proves that
they fit together. No byte is counted twice, and every counted byte equals the byte of memory it is
compared with; that this is a byte of the mapped file has a condition of its own, which is proved to be
exact. Which records a write compares, and what it does not find, is described without any scan, and the
description has one solution. A buffer that one `ts_memcpy` has filled and one `ts_fwrite` writes unchanged counts in full, and so
does one that a run of `ts_read` calls has filled, each under a condition that is proved to be exact. For
`ts_memcpy` calls side by side the count is given, for two of them wherever they lie, for any number of them
on pages whose other records lie in front, also after `ts_memcpy_traced` has moved them together. Where bytes are lost, or counted that are in no file, there
is an input that shows it.

`dafny verify dfyconfig.toml` checks everything.

How the files build on each other:

- `Memory`, `Avx2`: byte memory; the AVX2 comparer label by label (vector compares, masks, wrap-around
  arithmetic, size classes, overlapping tails, the aligned 128-byte loop) and the byte loop, both
  against the first differing byte.
- `Bst`, `FileMaps`, `BaseIndex`: `tsearch`, `tfind` and `tdelete` with any comparator whose sign goes
  once from plus over zero to minus along the listing; the two trees of mapped files; the interval index
  of the BASE_VERSION build as a class.
- `Ledger`, `Pools`, `Arenas`, `Chain`, `Trace`: the default trace index on the heap. `Pools.Pool` is a
  growing free list, `Arenas.RecArrPool` the one of record arrays by address, `Chain.RecTreeNode` one
  page with its tail queue of 38-record blocks, `Trace.Index` the whole index. A ghost ledger says which
  page holds which pointer, so that conservation is one predicate for all four pools.
- `TraceSpec`, `TracedSpec`, `MatchSpec`, `ReadSpec`: what the index, `ts_memcpy_traced`, `ts_fwrite` and
  `ts_read` mean, as functions on pages, with the theorems about whole runs. `MovedRecords` says which
  records a page has after `ts_memcpy_traced`, by address and field; `WriteExact` which comparisons a write
  makes and what it does not find, by records and pages.
- `Cidl`: the class whose methods are `ts_mmap`, `ts_memcpy`, `ts_read`, `ts_memcpy_traced` and
  `ts_fwrite`; each is proved to do to index, memory and counters what the specification says.
- `EndToEnd`, `MoveToEnd`, `Seams`, `SeamRuns`, `MovedRuns`, `ReadRuns`: copy in, move, write out; copies side
  by side, written where they are or moved together; a run of reads. `FileHits` asks whether what is counted is in the file. `Limits` has the inputs on which
  bytes are lost or wrongly counted.
- `Scenarios`, `MoveScenarios`, `ReadScenarios`: the same as methods that call the operations of `Cidl` on the
  heap one after the other, from `init` on and for any number of mappings, copies and writes.
- `Addr`, `Paging`: 4096-byte pages for the index; `init` and the macros of `addr.h` for every page size.

Findings:

- The AVX2 comparer reports a difference between equal ranges of 2 or 3 bytes whose second byte is not
  zero, because that byte stays in bits 8-15 of the result (contract of `Avx2.MemcmpAvx2`). A write then
  counts one byte less, unless a record on the next page makes up for it (`EndToEnd.CopyThenWrite`).
- `ts_memcpy` looks for its source with a closed range. A mapping that starts where the range ends can be
  found instead of the one that holds it. The recorded offset wraps around and back, so the copy counts all
  the same, except when the length does not exceed that mapping's own offset. The copy is safe for every
  shape of the tree of mappings exactly when there is no such neighbour (`EndToEnd.EveryTreeCounts`,
  `Limits.AdjacentMappingLosesCopy`).
- A comparison goes on to the end of the buffer and never looks at the end of the mapping. When the memory
  behind the mapping goes on like the buffer, bytes are counted that are in no file (`FileHits.StaysInFile`,
  `FileHits.CoveredCountsFiles`, `Limits.CountsBehindFile`).
- Nor does a comparison stop where a copy ends. When the first file goes on like the second copy for a
  while, but not to the end, the second copy is never looked at (`Seams.TwoCopies`,
  `Limits.SeamLosesBytes`).
- A page that starts before the place the comparisons have reached is skipped (awn.c:959). So a second copy
  on a later page than the first is never looked at unless it starts where its page does, even when the
  first comparison ends exactly at the seam (`Seams.TwoCopies`, `Limits.LaterPageLosesCopy`).
- `ts_read` makes a record also when it delivers nothing. A read after such a read starts the page over,
  and the bytes already there no longer count in full (`ReadRuns.ReadRunThenWrite`,
  `Limits.EmptyReadsLoseBytes`).
- `ts_read` with the cursor behind the end of the mapping copies all bytes asked for, from behind it, because
  what is left is unsigned (`ReadSpec.ReadStaysInside`).
- `ts_memcpy_traced` of the BASE_VERSION build never ends when a range with a record in it is moved onto
  itself (`BaseIndex.SelfMoveNeverEnds`); it ends for every other pair of addresses, overlapping ones
  included.
- Page offsets are kept in a `short`, so addresses survive the round trip exactly for pages of at most
  32768 bytes (`Paging.RoundTripIff`).

## Model

| member | source | states |
|---|---|---|
| `Avx2.MaskFindsFirstUnequal` | memcmp-avx2-addr.S:154-166 | For up to 32 lanes: mask less full mask, with 32-bit wrap-around, is zero exactly when all lanes are equal, and otherwise its trailing-zero count is the index of the first unequal lane. |
| `Avx2.CompareVec` | memcmp-avx2-addr.S:71-77 | A load of up to 32 bytes compared lane by lane; upper lanes of an eight-byte load compare equal; the distance it returns decides the loaded bytes. |
| `Avx2.FirstVec` | memcmp-avx2-addr.S:154-166 | The first-difference exit stores the address of the first unequal byte. |
| `Avx2.LastVec` | memcmp-avx2-addr.S:141-153 | 32 to 64 bytes, the first 32 of them equal: the overlapping load of the last 32 decides the range. |
| `Avx2.Last4xVec` | memcmp-avx2-addr.S:448-483 | 65 to 127 bytes: two loads from the front and two from the back decide the range. |
| `Avx2.TestFourVec` | memcmp-avx2-addr.S:88-131 | Four vectors combined, and the four exits that find the one with the first difference. |
| `Avx2.More8xVec` | memcmp-avx2-addr.S:384-447 | Over 256 bytes: after the alignment of one pointer by a negative offset, the 128-byte loop and the overlapping last step decide the whole range and store its first differing address. |
| `Avx2.Between16And31` | memcmp-avx2-addr.S:365-383 | Two overlapping 16-byte loads decide 16 to 31 bytes. |
| `Avx2.Between8And15` | memcmp-avx2-addr.S:347-364 | Two overlapping 8-byte loads, with 16 lanes each, decide 8 to 15 bytes. |
| `Avx2.Between4And7` | memcmp-avx2-addr.S:169-264 | Two overlapping big-endian loads decide whether, and two-byte steps where, the first difference is. |
| `Avx2.Between2And3` | memcmp-avx2-addr.S:266-318 | Zero exactly when the bytes are equal and byte 1 is zero; otherwise the address of the first difference, or of the last byte when there is none. |
| `Avx2.MemcmpAvx2` | memcmp-avx2-addr.S:64-535 | Zero exactly for equal ranges and otherwise the first differing address, if and only if there is no false alarm: length 2 or 3, equal bytes, byte 1 not zero. A false alarm points at the last byte. |
| `Avx2.MemcmpBytes` | awn.c:69-81 | The byte loop returns zero exactly for equal ranges and otherwise the first differing address, at every length. |
| `Bst.TFindComplete` | awn.c:260-284 | A search with a comparator that descends along the listing succeeds exactly when some element compares zero, whatever comparator built the tree. |
| `Bst.TDeleteRemovesFound` | awn.c:266-269 | Deleting with the comparator of a find removes the very element the find returned and nothing else. |
| `Bst.TSearchInserts` | awn.c:313 | Insertion puts the key between the elements it is greater than and those it is smaller than. |
| `Bst.TSearchKeeps` | awn.c:465-466 | Insertion of a key that the search finds leaves the tree as it is. |
| `BaseIndex.OverlapFindComplete` | tree.c:226-236 | Over disjoint ranges, `overlapRec` finds a record exactly when one intersects the query, and what it finds does. |
| `BaseIndex.BegBiggerFindComplete` | tree.c:204-215 | `overlapRecBegBigger` finds a record exactly when one starts in the closed query range, and what it finds does. |
| `BaseIndex.Index.DeleteRec` | awn.c:231-290 | Ends with exactly the records removed that intersect the range; the others stay disjoint and in order. |
| `BaseIndex.Index.InsertRec` | awn.c:294-317 | Always really inserts: afterwards the index holds the new record and the old ones that do not intersect it, disjoint; and the address map is updated exactly: the new range maps to the new file bytes, any other address loses its byte if its record was in the way and keeps it otherwise. |
| `BaseIndex.InsertUpdatesMap` | awn.c:294-317 | The same update, for any two disjoint listings of which one holds the new record and the records of the other that do not intersect it. |
| `BaseIndex.MapsFunctional` | awn.c:256-258 | An address never has two file bytes. |
| `BaseIndex.LookupIsMap` | awn.c:256-258 | Over disjoint records, looking an address up finds a file byte exactly when some record maps it there. |
| `BaseIndex.Index.MemcpyTraced` | awn.c:1257-1291 | Ends for every pair of distinct addresses; the outcome is exactly that of moving records of the source range one after the other, each present when its turn comes, until none starts there. With the destination away from the source, only old records are moved, and every one that starts in the range is moved or met by a copy; every address that a copy no later one meets has been made for leads to the file byte that the address it was copied from led to; and the whole address map is known. |
| `BaseIndex.Index.MoveOne` | awn.c:1261-1285 | One round, wherever the destination is: the address map afterwards has the copy's file bytes, and has lost the record moved and those that share an address with the copy. |
| `BaseIndex.FarMoveMaps` | awn.c:1261-1285 | The address map after a move to a destination away from the source: the copies that last lead to their file bytes, the old records that last to theirs, no other address leads anywhere. |
| `BaseIndex.RecordsAfterMove` | awn.c:1261-1285 | The records after such a move, by fields: a copy starts as far behind the destination as its record behind the source and is as long as the distance from the source to the end of the record or of the range. |
| `BaseIndex.IntersectsIs` | tree.c:226-236 | Two ranges intersect exactly when they have an address in common. |
| `BaseIndex.FarRoundTakesOne` | awn.c:1257-1288 | With the destination away from the source range, every round leaves strictly fewer records that start there. |
| `BaseIndex.FarMove` | awn.c:1261-1285 | Then every record of the outcome is old or the copy of an old one from the range, and every old record survives that is neither in the range nor met by the destination. |
| `BaseIndex.FarMoveExactly` | awn.c:1261-1285 | The outcome is known exactly: the old records that were neither moved nor met by a copy, and the copies that no later copy has met. |
| `BaseIndex.SelfMoveNeverEnds` | awn.c:1257-1288 | A range moved onto itself holds a record after every round if it held one before, so the loop never ends. |
| `Pools.Pool.constructor` | mem.c:5-150 | A pool starts with all pointers of its arena free, distinct, and on nobody's account. |
| `Pools.Pool.Grow` | mem.h:218-248 | Growth loses no free pointer, adds those of the new arena, doubles the size; free plus outstanding is the size, and the bytes counted are size times element plus pointer. |
| `Pools.Pool.Allocate` | mem.h:249-254 | The pointer handed out was outstanding to nobody; it is on the account of the page it is for. |
| `Pools.Pool.Withdraw` | mem.c:176-187 | The table has room for every pointer that is really outstanding, which is what the assertions check; the account shrinks by it. |
| `Arenas.FillFirst` | mem.c:122-125 | The fill loop of `initMemory` writes the addresses of the 38-record blocks of its arena, in order. |
| `Arenas.FillGrown` | mem.h:244-247 | So does the fill loop of the growth branch, which adds a block to the pointer before. |
| `Arenas.BlocksNeverOverlap` | mem.h:218-254 | Two blocks of memory ranges that malloc has kept apart have no byte in common, in one arena or in two. |
| `Arenas.RecArrPool.Grow` | mem.h:218-248 | After any growth, the pointers of the pool are exactly the blocks of all its arenas. |
| `Arenas.RecArrPool.Allocate` | mem.h:249-254 | A block that is handed out has no byte in common with any that is outstanding. |
| `Arenas.RecArrPool.Withdraw` | mem.c:183-187 | A block comes back; which blocks there are does not change. |
| `Arenas.RecArrPool.NoOverlap` | mem.h:218-254 | After any allocations, withdrawals and growth, an outstanding block has no byte in common with any other outstanding or free one. |
| `Chain.RecTreeNode.Append` | awn.c:95-108 | A record goes behind the others of its page while the head block has room. |
| `Chain.RecTreeNode.PushBlock` | awn.c:109-134 | With the head block full, the record starts a new head block; the links of the queue hold in both directions. |
| `Chain.RecTreeNode.NotLarger` | awn.c:176-179 | The test on the last slot says whether the address that arrives is not larger than the last record of the page. |
| `Trace.DropAllButOldest` | awn.c:183-190 | The deletion loop gives every block but the oldest back to the pools. |
| `Trace.Index.AddTreeNode` | tree.c:325-394 | A page nobody had, with one empty block; each of its four objects is on no other page. |
| `Trace.Index.WriteRec` | awn.c:89-137 | The page of the record has it appended, every other page is untouched, and the index stays sound. |
| `Trace.Index.InsertRec` | awn.c:142-227 | Refines append-or-reset on the map from pages to records: the last record of the page is the one that arrived, alone or behind the others as its offset is not larger or larger than the last; all other pages keep their blocks, slots and records; a tree node is drawn exactly for a new page; soundness of chains, pools and accounts is kept. |
| `Trace.Index.constructor` | mem.c:5-150 | The empty index is sound and traces nothing; its pools have the element sizes and numbers of `initMemory`. |
| `Trace.Index.NodesConserved` | mem.h:129-163 | Outstanding tree nodes and list heads are exactly those of the traced pages. |
| `Trace.Index.BlocksConserved` | mem.h:177-254 | Outstanding block entries and record arrays are exactly those in the chains, so no block is both free and reachable. |
| `Trace.Index.CountsConserved` | mem.h:129-254 | In numbers: as many nodes and heads are outstanding as pages are traced, as many entries and arrays as the chains have blocks together, and what is free is in no chain. |
| `Trace.Index.BlocksOfPage` | awn.c:95-134 | A page has as many blocks as its records fill, at least one and never more than 108. |
| `TraceSpec.InsertAllKeepsWellFormed` | awn.c:179-201 | After every run, every page is strictly ascending and inside its page. |
| `TraceSpec.PageStaysSmall` | common.h:81 | However long the run, a page holds at most 4096 records, in at most 108 blocks of 38. |
| `TraceSpec.RunKeepsLongestAscendingSuffix` | awn.c:179-201 | From the empty index, every run leaves on each page the longest strictly ascending suffix of what arrived there. |
| `TraceSpec.AscendingRunAppends` | awn.c:179-201 | A run of ascending addresses leaves each page with all its records behind what the first of them let survive. |
| `Cidl.Library.MovePage` | awn.c:1063-1218 | One source page: its first record to copy is found, the page is cut off there if it is the first, and the records are inserted at their new addresses from slots that the cut leaves in place. |
| `Cidl.Library.MemcpyTraced` | awn.c:1048-1242 | The default `ts_memcpy_traced` copies the bytes and does to the trace what the specification says; told without it, which records every page has afterwards, by address, file offset, name and descriptor. |
| `TracedSpec.CopiesAre` | awn.c:1137-1200 | The insertions are the shifted copies of exactly the records at or behind the source address on the source pages. |
| `TracedSpec.CopiesAscend` | awn.c:1137-1200 | Their addresses ascend strictly, so none resets an earlier one. |
| `TracedSpec.LandedExactly` | awn.c:1137-1200 | What lands on a page is, in ascending order, exactly the shifted records whose new address is on it; only destination pages get any. |
| `MovedRecords.LandsWhereMoved` | awn.c:1137-1200 | A record lands on a page if and only if a source record at or behind the source address has it as its new address, and has the same file offset, file name and descriptor. |
| `MovedRecords.PageAfterMove` | awn.c:1063-1218 | Every page afterwards, record by record: what is moved there, and of its own records those in front of the source on the first source page, all or none on a destination page, all elsewhere; in ascending order. |
| `TracedSpec.TracedCopy` | awn.c:1063-1218 | Every page afterwards: the first source page keeps the records before the source address, a destination page has the shifted records behind the survivors, all others are unchanged. |
| `Cidl.Library.Compare` | awn.c:545-567 | With either comparer, the bytes counted are the common prefix, less the last byte on a false alarm, and diffPos goes to the end of what is counted. |
| `Cidl.Library.CmpWrite` | awn.c:524-574 | Counts what the comparer lets it count, moves diffPos to the end of it, and touches no counter when the file is not mapped. |
| `Cidl.Library.MatchBlock` | awn.c:975-999 | The filter before the buffer, the skip below diffPos and the break behind the tail leave out only records that would not be compared, because pages ascend. |
| `Cidl.Library.MatchPage` | awn.c:964-1001 | The walk over the blocks from the oldest compares the records of the page in order. |
| `Cidl.Library.Fwrite` | awn.c:951-1036 | The four counters change by what the scan of pages in order computes; the index is unchanged. |
| `MatchSpec.FwriteSound` | awn.c:984-999 | Over every trace a run can leave: the ranges counted are disjoint, ascending and inside the buffer, every counted byte equals the byte of memory its record leads to, and one write adds at most its length. |
| `WriteExact.WriteExactly` | awn.c:951-1001 | Over every trace a run can leave, the hits of a write are the one ascending sequence of comparisons of usable records up to the tail in which a usable record of the buffer is compared if and only if no hit in front of it reaches beyond it and none in front of its page reaches into the page. |
| `WriteExact.NotFoundExactly` | awn.c:952-1033 | Below 2^31 bytes, the not-found count is the sum, over the untraced pages of the range that no hit in front of them reaches into, of the bytes up to the tail, at most a page each. |
| `WriteExact.NotFoundInInt` | awn.c:952-1033 | The same for any length, with the bytes up to the tail in an `int`: 2^31 bytes and more become negative and make the count smaller. |
| `WriteExact.UnusablePlayNoPart` | awn.c:541-547 | A record whose file is not mapped from its offset on changes neither the hits nor the not-found count, wherever it is and whatever was compared in front of it. |
| `FileHits.StaysInFile` | awn.c:537-567 | A comparison stays in the mapping if and only if the rest of the buffer is no longer than what is left of it, or the buffer differs from the mapping before its end or from the byte right behind, or that byte is the last and a false alarm leaves it out. |
| `FileHits.HitsInFiles` | awn.c:537-567 | The same for every hit of every write, over every trace a run can leave. |
| `FileHits.CoveredCountsFiles` | awn.c:984-999 | When, for every usable record in the buffer, the mapping from its file offset on is as long as the rest of the buffer, every counted byte is a byte of a mapped file, at the offset the record says. |
| `FileHits.CopyCountsItsFile` | awn.c:1369-1389 | In a copy out of the mapping found, written as it is, whatever is counted is counted for its record and comes from this mapping. |
| `EndToEnd.NotFoundBounded` | awn.c:952-1033 | One write adds at most its length plus the buffer's offset in its page to the not-found count, and exactly that when no page of the range is traced. |
| `FileMaps.SearchComplete` | tree.c:275-285 | A search by range finds a mapping exactly when one touches the closed range, and what it finds does. |
| `FileMaps.EveryTreeFindsInside` | tree.c:275-285 | The search finds the mapping that the range is in, for every shape of the tree, if and only if no other mapping touches the closed range. |
| `FileMaps.FindNameExact` | tree.c:256-265 | With distinct names, a name finds exactly its mapping. |
| `FileMaps.MapKeepsDisjoint` | awn.c:465 | A mapping that meets no other is entered, and the tree of starts stays disjoint. |
| `FileMaps.MapKeepsNames` | awn.c:466 | Names stay distinct and in order; a second mapping of a name leaves the first in place. |
| `FileMaps.MapRegisters` | awn.c:464-466 | A mapping that meets no other and has a new name is in both trees afterwards, with all that were there. |
| `Cidl.Library.Mmap` | awn.c:431-470 | The new mapping goes into the open-file slot and both trees; when it meets no other and its name is new, all mappings are registered under their address and their name afterwards, if they were before. |
| `Cidl.Library.Memcpy` | awn.c:1300-1431 | Copies the bytes and inserts the record of the mapping found for the source; inserts nothing when none is found. |
| `Cidl.Library.Read` | awn.c:1562-1605 | Memory, cursor and trace change as the specification of one read says; no result when the name is not mapped. |
| `ReadSpec.ReadOne` | awn.c:1581-1604 | One read inside the mapping copies the bytes at the cursor and moves it behind them; it delivers less than was asked for only at the end of the mapping. |
| `ReadSpec.ReadStaysInside` | awn.c:1586-1592 | A read stays inside the mapping if and only if the cursor is in it; with the cursor behind the end, all bytes asked for are copied from behind it. |
| `ReadSpec.ReadsDeliverPrefix` | awn.c:1581-1604 | Any run of reads delivers a prefix of the mapped content from the cursor, without gap or repetition; the cursor never passes the mapping. |
| `ReadSpec.ReadsRecordCursor` | awn.c:1498-1516 | When the open-file slot holds the mapping, the run inserts one record per read, each with the cursor before that read as file offset. |
| `EndToEnd.RecordPointsBack` | awn.c:1369-1389 | A copy's record, read through the mapping that has its name, is used exactly when that mapping's offset does not exceed the recorded one, and then leads back to its source exactly when the two mappings agree modulo 2^64. |
| `MoveToEnd.RecordAtBufCounts` | awn.c:957-999 | A record at the start of the buffer whose bytes are equal accounts for the whole write, wherever in its page it is, if and only if there is no false alarm that a record at the last byte does not make up for. |
| `EndToEnd.CopyThenWrite` | awn.c:537-567 | From any trace, a copy out of a mapping and a write of exactly these bytes adds exactly n, if and only if the record is usable and the comparer raises no false alarm that the next page does not make up for; also when the name belongs to another mapping of the same file. |
| `EndToEnd.TreeCounts` | awn.c:1369-1389 | The same from the search on: all n count if and only if the mapping that is found does not clash, and there is no such alarm. |
| `EndToEnd.EveryTreeCounts` | awn.c:1369-1389 | Whatever the shape of the tree of mappings, all n count, if and only if no mapping starts where the source ends with an offset of n or more, and there is no such alarm. |
| `EndToEnd.WholeCopyCounts` | awn.c:1300-1431 | So without such a neighbour all n count with the byte loop for every n, and with the AVX2 comparer for every n other than 2 and 3. |
| `EndToEnd.ReadThenWriteCounts` | awn.c:1562-1605 | What one `ts_read` has delivered counts in full when it is written. |
| `ReadRuns.RunKeepsFirst` | awn.c:179-201 | After insertions at ascending addresses, repetitions allowed, the record at the first of them is still there if and only if no later address on its page was repeated. |
| `ReadRuns.BufferSame` | awn.c:1581-1604 | After a run of reads into one buffer, the buffer equals the mapped content from the first cursor on. |
| `ReadRuns.ReadRunThenWrite` | awn.c:1562-1605 | What a run of reads has delivered into one buffer counts in full in one write, if and only if no read follows an empty one after the cursor has moved while the buffer is still on its first page, and there is no false alarm that a record at the last byte does not make up for. |
| `Seams.TwoCopies` | awn.c:957-999 | Two copies side by side, with the pages behind that of the second untraced, in one write: the first record counts as far as its file goes on like the buffer; the second only when that is the seam, and then only on the page of the first or at the start of a page. All bytes count if and only if the first reaches the end, or it ends at the seam, the second is looked at and raises no alarm; otherwise the count is what the first reaches, or all but the last byte. |
| `SeamRuns.RunOfCopies` | awn.c:957-999 | Any number of records at ascending addresses in a buffer, with gaps between them, some of no use, the buffer starting in front of the first and ending anywhere: the count of one write is what looking from one to the next adds up to. |
| `SeamRuns.AllCopiesCount` | awn.c:957-999 | All bytes of copies side by side count when every comparison ends where its copy ends and every copy starts on the page of the one before or at the start of a page. |
| `MovedRuns.RunIsMoved` | awn.c:1137-1200 | What `ts_memcpy_traced` inserts for a run of records is that run with every address moved by the same distance and every file offset, name and descriptor kept. |
| `MovedRuns.MovedRunCounts` | awn.c:1048-1242 | Any number of records moved together and written from their new place: the count is what looking from one to the next adds up to there. |
| `MovedRuns.MovedRunAllCounts` | awn.c:1048-1242 | All bytes of copies side by side that are moved together count, under the condition of `SeamRuns.AllCopiesCount` at the new place. |
| `MoveToEnd.MovedCopyCounts` | awn.c:1048-1242 | Bytes copied in, moved by `ts_memcpy_traced` and written from their new place count in full, for every tree of mappings without a clash, if and only if there is no such alarm. |
| `Scenarios.CopyWrite` | awn.c:1300-1431 | On the heap, after `ts_memcpy` and `ts_fwrite` of the same bytes: the same-size counter has grown by exactly n, with the byte loop for every n and with the AVX2 comparer for every n other than 2 and 3; memory, trace, trees and pools are as the two calls leave them. |
| `Scenarios.CopyWriteItems` | awn.c:857 | The same for a write of any number of items of any size: the length is their product. |
| `Scenarios.CopyWriteAll` | awn.c:951-1036 | For any run of copies, each written out, the counter grows by the sum of their lengths. |
| `Scenarios.MapCopyWrite` | awn.c:431-470 | The same from `init` and any number of `ts_mmap` calls on. |
| `Scenarios.CopyMoveWrite` | awn.c:1048-1242 | The same with `ts_memcpy_traced` of the copy in between. |
| `MoveScenarios.CopiesMoveWrite` | awn.c:1048-1242 | The same for any number of copies side by side, out of any mappings, moved together: each is compared at its new place with its own source, as far as the looking from copy to copy comes, and all bytes count when every comparison ends where its copy ends and every copy starts on the page of the one before or at the start of a page. |
| `ReadScenarios.MapReadWrite` | awn.c:1562-1605 | On the heap, after `ts_mmap` of a file, any number of further `ts_mmap` calls on other descriptors below 1024, `ts_read` from anywhere in it and `ts_fwrite`: the bytes read are those asked for or those left, the trace has one more record, for this file at the cursor, and the same-size counter has grown by exactly the bytes read. |
| `ReadScenarios.OwnSlot` | common.h:56 | Two descriptors below 1024 have the same open-file slot exactly when they are one. |
| `Limits.AdjacentMappingLosesCopy` | awn.c:1369-1389 | Two adjacent mappings and a copy out of one of them that is not counted in full. |
| `Limits.FalseAlarmLosesByte` | memcmp-avx2-addr.S:266-318 | Two equal bytes of which the AVX2 comparer counts one. |
| `Limits.SeamLosesBytes` | awn.c:990-999 | Four bytes copied from two files of which two count. |
| `Limits.LaterPageLosesCopy` | awn.c:959 | Two copies of 5000 bytes side by side of which the first counts. |
| `Limits.CountsBehindFile` | awn.c:537-567 | A hundred bytes that count, of which 99 are behind the end of the mapping. |
| `Limits.EmptyReadsLoseBytes` | awn.c:1498-1516 | A file of 16 bytes read three times, after which the write does not count in full. |
| `Paging.Globals.Init` | awn.c:392-402 | For every page size, the shift is the bit length of the page size less one, and the masks match it. |
| `Paging.ShiftOfPowerOfTwo` | awn.c:395-400 | For a power of two the shift is its exponent. |
| `Paging.RoundTripIff` | addr.h:6-19 | Page number and offset give every address back, exactly for pages of at most 32768 bytes. |
| `Paging.PartsOfAddress` | addr.h:6-19 | An address made from a page number and an offset has just these. |
| `Paging.PagesOf4096` | addr.h:6-19 | For 4096-byte pages these are the page functions that the index works with. |

## Left out

- Trace.Index.InsertRec: like Trace.Index.AddTreeNode, requires that a new page leaves the pool of tree nodes above its reclaim threshold; the reclaim of old nodes (tree.c:407-534) is not modelled, because its compaction does not advance the pointers it returns.
- Trace.Index.AddTreeNode: requires a pool of tree nodes above the reclaim threshold, for the same reason.
- Cidl.Library.MemcpyTraced: requires source pages of one block, of which the first is not empty, and no page that is both source and destination; the walk over further blocks uses the count of the newest block for all of them (awn.c:1087-1088), and an empty first page makes the code read before its array.
- Cidl.Library.MovePage: one source page, under the same conditions.
- TracedSpec.CopiesAscend: for copies with no page on both sides, where nothing that is still to be copied can be reset.
- TracedSpec.LandedExactly: for the same copies.
- TracedSpec.TracedCopy: for the same copies.
- Scenarios.CopyMoveWrite: for the same copies, from pages of one block.
- Seams.TwoCopies: for untraced pages behind that of the second copy; older records there could add to the count.
- SeamRuns.RunOfCopies: for pages whose other records lie in front of the buffer; WriteExact.WriteExactly has no such condition.
- SeamRuns.AllCopiesCount: for the same pages.
- MovedRuns.MovedRunCounts: for the same pages at both places, and moves with no page on both sides.
- MovedRuns.RunIsMoved: for the same moves.
- MovedRuns.MovedRunAllCounts: for the same pages and moves.
- MovedRecords.LandsWhereMoved: for moves with no page on both sides.
- MovedRecords.PageAfterMove: for the same moves.
- MoveScenarios.CopiesMoveWrite: for the same pages and moves, from pages of one block.
- BaseIndex.FarMoveMaps: for a destination away from the source; for a nearer one the outcome is given round by round by BaseIndex.Index.MoveOne and BaseIndex.Index.MemcpyTraced.
- BaseIndex.RecordsAfterMove: for the same destinations.
- ReadScenarios.MapReadWrite: the descriptor's cursor is given, since open and lseek are left out.
- Cidl.Library.Read: the name stored for the descriptor is a parameter, and the requirement that buffer and mapping do not overlap is memcpy's own.
- The red-black balancing of the C library: results are stated on in-order listings, and the page tree of `Trace.Index`, keyed by page number, is a map.
- The cache lastRec: writeRec gets page and node as parameters instead of through it.
- Page size other than 4096 in the index, wrap-around of page addresses at the top of the 64-bit range, and overflow of the statistics counters, which are unbounded here.
- The `int` index of the byte loop (awn.c:72), which ends at 2^31 bytes.
- Reads outside what is compared: the leading filter tests the slot behind the last record before its index (awn.c:984-988), and the results of `memcmp_avx2_asm` beyond zero or non-zero.
- Pools.Pool.constructor: the arena is a sequence of distinct pointers; that the pointers which stride through an arena are distinct and their blocks apart is proved for the record arrays in Arenas. Allocation never fails.
- Pools.Pool.Grow: the same for the new arena.
- The `fd` field as a short, the `usedTime` of mappings, and the conditions under which `ts_mmap` does not track a mapping (awn.c:446-449).
- munmap, close, open, lseek and the write calls themselves; the agreement of the two trees of mappings after unmapping is therefore not a claim.
- do_ts_write (awn.c:588-675) and the matcher of the BASE_VERSION build (awn.c:698-790).
- ts_realloc, ts_free, timers, statistics output, debugging, protection keys, threads and the mutex.
- The PATCH, USE_FMAP_CACHE, REC_INSERT_TEST, TS_MEMCPY_CMPWRITE and DELETE_TREENODE=0 variants.

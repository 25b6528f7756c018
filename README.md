# HeapPage: a verified model of a slotted heap page

This project models the slotted heap page of a small relational storage
manager. The page is the `HeapPage` class in `src/heappage.cpp` and
`include/heappage.h`. It is written in Dafny 4.11, and every contract below
is proved by the Dafny verifier.

A heap page has a header and a data area of `HEAPPAGE_DATA_SIZE` bytes:

- The header holds `numOfSlots`, `freePtr`, `freeSpace`, `pid`, `nextPage`
  and `prevPage`.
- The slot directory grows forward from byte 0 of the data area. It has one
  `{offset, length}` descriptor per slot.
- Variable-length records are packed backward from the end of the data
  area.
- A descriptor whose length is `INVALID_SLOT` (-1) is a tombstone. The
  lowest tombstone's slot number is reused by the next insertion.
- `freePtr` is the last free byte below the records.
- `freeSpace` counts every byte not used by the directory or by a live
  record, including holes left by deletions.
- When the contiguous gap between the directory and `freePtr` is too small,
  `CompressPage` moves all records back against the end of the page.

The model has five modules:

- `SlotDirectory` (`slot_directory.dfy`): the constants of the header, status
  codes, record ids, descriptors, counting live slots, and the "next live" /
  "next tombstone" searches that iteration and insertion use.
- `OffsetOrder` (`offset_order.dfy`): the order in which compaction visits the
  slots, namely (slot index, offset) pairs sorted by descending offset.
- `PageLayout` (`page_layout.dfy`): the layout invariant `WellFormed`, which
  says:
  - records lie in the data area, above the directory and at or above
    `freePtr + 1`;
  - records are pairwise disjoint and have positive length.

  It also holds the sums of live record lengths and `RecordMap`, which gives
  the records a page holds by slot number. It specifies compaction as a
  function of the old directory: every live record ends up at
  `HEAPPAGE_DATA_SIZE` minus the bytes of the records at or above its old
  offset.
- `Compaction` (`compaction.dfy`): the loop invariant of `CompressPage` and
  the lemmas that carry it across one step.
- `HeapPages` (`heappage.dfy`): the class `HeapPage`. It has one field per
  header field, the directory as a `seq<Slot>` and the data area as an
  `array<bv8>`. The source's methods are methods here, with three
  exceptions: `GetSlotAtIndex` disappears because the directory is a
  sequence, the inline `SlotIsEmpty` of `include/heappage.h` is the predicate
  `SlotDirectory.SlotIsEmpty`, and `MergeSort`/`Merge` are left out (see
  below). Each method's contract relates the new state to the old one through
  `Valid()` and `Records()`.
  `Valid()` states the layout invariant and the `freeSpace` bookkeeping:
  `freeSpace == HEAPPAGE_DATA_SIZE - 4 * numOfSlots - (live bytes)`.

The main properties proved:

- Insertion and deletion keep the layout invariant and the free-space
  account.
- `InsertRecord` adds exactly the new record at the lowest tombstone, or at a
  new slot, and every other slot number keeps its record's bytes (a
  compaction may move them).
- `DeleteRecord` removes exactly the named record.
- Compaction keeps every record's bytes and their relative order, and leaves
  them packed against the end of the page. Compacting a packed page changes
  nothing.
- A record read back after insertion equals the bytes inserted.
- `FirstRecord`/`NextRecord` visit every live slot exactly once, in ascending
  order. They visit as many slots as `GetNumOfRecords` reports.
- `AvailableSpace` plus the live bytes plus the directory (with one more
  descriptor when no tombstone is free) adds up to the data area.

Where the code departs from what its comments and sibling methods suggest,
the model follows the code:

- Deleting the record that borders the free space does not move `freePtr`.
  The adjustment at `src/heappage.cpp:265` compares against `SmallestOffset()`
  after the slot was already removed or tombstoned. The deleted offset can no
  longer be the smallest live offset (`PageLayout.DeletedOffsetIsNotSmallest`),
  so `freePtr` is unchanged; this is proved.
- Status codes are the source's `OK`, `DONE` and `FAIL`. "Not enough space" is
  `DONE`, and a bad record id or a short buffer is `FAIL`.
- `ReturnRecord` rejects a tombstoned slot (`src/heappage.cpp:366`), and
  `NextRecord`, `GetRecord` and `ReturnRecord` reject negative slot numbers
  (`:319`, `:340`, `:364`). `GetRecord` misses the first check and
  `DeleteRecord` the second (see Findings). Each corrected method adds the
  missing check, and the as-written guard is modelled next to it.

## Model

| member | source | states |
|---|---|---|
| HeapPages.HeapPage.constructor | include/heappage.h:11 | the data area is HEAPPAGE_DATA_SIZE = MAX_SPACE minus the header of three page ids and four shorts |
| HeapPages.HeapPage.Init | src/heappage.cpp:16-24 | an initialised page is valid and empty: no slots, freePtr at the last byte, the whole data area free, no next/previous page, AvailableSpace = data size - 4 |
| HeapPages.HeapPage.SetNextPage | src/heappage.cpp:34-37 | the next-page link becomes the given page and nothing else changes |
| HeapPages.HeapPage.SetPrevPage | src/heappage.cpp:47-50 | the previous-page link becomes the given page and nothing else changes |
| HeapPages.HeapPage.GetNextPage | src/heappage.cpp:60-63 | returns the next-page link |
| HeapPages.HeapPage.GetPrevPage | src/heappage.cpp:73-76 | returns the previous-page link |
| HeapPages.HeapPage.PageNo | src/heappage.cpp:86-89 | returns the page's own id |
| HeapPages.HeapPage.FillSlot | include/heappage.h:43-46 | descriptor `index` becomes {offset, length}; it is live exactly when the length is not INVALID_SLOT |
| HeapPages.HeapPage.SetSlotEmpty | include/heappage.h:49-51 | descriptor `index` becomes a tombstone and keeps its offset |
| HeapPages.HeapPage.GetContiguousFreeSpaceSize | src/heappage.cpp:110-112 | the gap between the directory and freePtr is never negative and never exceeds freeSpace |
| HeapPages.HeapPage.CopyBytes | src/heappage.cpp:153 | memcpy into the data area: the target range holds the given bytes and every other byte is unchanged |
| HeapPages.HeapPage.AppendNewSlot | src/heappage.cpp:122-128 | a descriptor is appended iff the contiguous space holds one; the page stays valid, freeSpace drops by 4 and the records are unchanged |
| HeapPages.HeapPage.SortedIndexAndOffset | src/heappage.cpp:140-145 | returns every (slot, offset) pair exactly once, by descending offset |
| HeapPages.HeapPage.VisitSlot | src/heappage.cpp:148-157 | one iteration of the compaction loop (skip a tombstone, move a live record) keeps the compaction loop invariant |
| HeapPages.HeapPage.MoveRecord | src/heappage.cpp:151-156 | the record's bytes are copied to the bytes ending at the old free pointer, its descriptor points there with the same length, every other descriptor and byte is kept, and freePtr moves down by the record's length |
| HeapPages.HeapPage.MoveRecords | src/heappage.cpp:146-158 | after the loop every live record sits at its compacted offset with its bytes kept, freePtr is just below the packed records, bytes below freePtr are untouched, and a packed page is left unchanged |
| HeapPages.HeapPage.CompressPage | src/heappage.cpp:138-160 | compaction keeps the page valid and every record's bytes, packs the records against the end, makes all free space contiguous, and changes nothing on a packed page |
| HeapPages.HeapPage.GetEmptySlot | src/heappage.cpp:170-180 | returns the lowest tombstone, found iff one exists, and numOfSlots otherwise |
| HeapPages.HeapPage.EnsureContiguous | src/heappage.cpp:197-200 | afterwards the contiguous space is at least `need`; the page is compacted (closed form, packed) exactly when it was short, and left untouched otherwise; records and slot lengths never change |
| HeapPages.HeapPage.SlotForRecord | src/heappage.cpp:194-207 | InsertRecord's slot choice: the lowest tombstone, else a new descriptor; afterwards the record fits contiguously, the records are unchanged, and freeSpace equals the old AvailableSpace; when the contiguous space already held the record (and a new descriptor if needed), freePtr, the data and every old descriptor are unchanged |
| HeapPages.HeapPage.ReserveRecord | src/heappage.cpp:208-210 | the tombstone gets the len bytes just below freePtr; freePtr and freeSpace drop by len and the page stays valid |
| HeapPages.HeapPage.PlaceRecord | src/heappage.cpp:208-213 | descriptor `index` becomes (old freePtr + 1 - len, len) and freePtr drops by len, so the record lands just below freePtr; exactly that record is added at `index` and every other record is unchanged |
| HeapPages.HeapPage.InsertRecord | src/heappage.cpp:190-219 | FAIL iff length <= 0; DONE iff AvailableSpace < length, with the page unchanged; OK otherwise, with the record stored under the lowest tombstone or a new slot, its descriptor pointing just above the new freePtr (never into a reused tombstone's old space), every other record unchanged, and freeSpace = old AvailableSpace - length; without compaction (enough contiguous space) freePtr drops by length and every other descriptor is unchanged |
| HeapPages.HeapPage.InsertThenRead | src/heappage.cpp:190-219 | round trip: a record inserted into a page with room for it is read back by GetRecord as exactly the bytes inserted |
| HeapPages.HeapPage.HasNoOtherValidSlot | src/heappage.cpp:229-235 | true iff every slot other than slotNo is a tombstone |
| HeapPages.HeapPage.DeleteRecord | src/heappage.cpp:245-268 | OK iff rid names a live record of this page, and then exactly that record is removed; FAIL leaves the page unchanged; freeSpace regains the record and any freed descriptor; the last record resets the page; otherwise freePtr is unchanged and the slot is truncated (last slot) or tombstoned |
| HeapPages.HeapPage.RemoveRecord | src/heappage.cpp:250-265 | removing a live record removes exactly that record, resets the page when it was the only one, and otherwise keeps freePtr |
| HeapPages.HeapPage.ResetPage | src/heappage.cpp:250-254 | deleting the sole live record empties the directory and the page, with freeSpace back to the whole data area |
| HeapPages.HeapPage.RemoveFromDirectory | src/heappage.cpp:256-265 | deleting one of several records drops the last descriptor or tombstones the slot, removes only that record, and leaves freePtr unchanged (the adjustment at line 265 never fires) |
| HeapPages.HeapPage.DropLastSlot | src/heappage.cpp:256-259 | deleting the last descriptor shrinks the directory by one and frees its 4 bytes and the record |
| HeapPages.HeapPage.EraseSlot | src/heappage.cpp:261-263 | deleting any other descriptor tombstones it and frees the record's bytes |
| HeapPages.HeapPage.SmallestOffset | src/heappage.cpp:278-287 | returns the minimum offset of the live records, or the data size when there is none |
| HeapPages.HeapPage.FirstRecord | src/heappage.cpp:297-307 | OK with the lowest live slot if there is one, DONE otherwise |
| HeapPages.HeapPage.NextRecord | src/heappage.cpp:317-328 | FAIL iff curRid is not a slot of this page; otherwise OK with the next live slot after it, or DONE |
| HeapPages.HeapPage.GetRecord | src/heappage.cpp:338-352 | corrected: OK iff rid names a live record and the buffer holds it, and then returns exactly that record's bytes and length; FAIL keeps the caller's length |
| HeapPages.HeapPage.ReturnRecord | src/heappage.cpp:362-372 | OK iff rid names a live record, and then the returned offset and length are that record's own descriptor, so the range is the record's bytes in place |
| HeapPages.HeapPage.GetNumOfRecords | src/heappage.cpp:411-418 | the count equals the number of live slots and the number of records the page holds |
| HeapPages.HeapPage.RecordKeysAreLiveIndices | src/heappage.cpp:297-328 | the slot numbers that hold a record are exactly the live descriptors the traversal visits |
| HeapPages.HeapPage.RecordCountIsCountLive | src/heappage.cpp:411-418 | the records the page holds are as many as its live slots |
| HeapPages.HeapPage.IsEmpty | src/heappage.cpp:395-401 | true iff every slot is a tombstone, iff the live count is 0, iff the page holds no record |
| HeapPages.HeapPage.AvailableSpace | src/heappage.cpp:382-385 | the space reported plus the live bytes plus the directory (one more descriptor unless a tombstone is free) is exactly the data area |
| HeapPages.GetRecordAsWritten | src/heappage.cpp:338-352 | GetRecord's guards as written: FAIL only for a wrong page, a slot out of range, or a short buffer |
| HeapPages.GetRecordAsWrittenReadsTombstone | src/heappage.cpp:344-345 | on a tombstone, the as-written guards of GetRecord pass and hand memcpy length -1, although the slot holds no record |
| HeapPages.GetRecordAsWrittenOnLiveSlots | src/heappage.cpp:338-352 | away from tombstones the as-written and corrected GetRecord accept the same requests |
| HeapPages.DeleteRecordPassesGuardAsWritten | src/heappage.cpp:247 | DeleteRecord's first guard as written lets through only this page and slot numbers below numOfSlots |
| HeapPages.DeleteRecordAsWrittenAcceptsNegativeSlot | src/heappage.cpp:247 | a negative slot number on this page passes the as-written guard although it names no record |
| SlotDirectory.CountLive | src/heappage.cpp:411-418 | the number of live descriptors is between 0 and numOfSlots |
| SlotDirectory.CountLiveZero | src/heappage.cpp:395-401 | no live descriptor iff every descriptor is a tombstone |
| SlotDirectory.CountLiveAll | src/heappage.cpp:382-385 | every descriptor is live iff there is no tombstone, which is the test AvailableSpace makes |
| SlotDirectory.LiveIndicesCount | src/heappage.cpp:411-418 | the live count counts exactly the slot numbers that hold a record |
| SlotDirectory.NextLive | src/heappage.cpp:317-328 | the lowest live slot at or above `from`, with only tombstones skipped on the way |
| SlotDirectory.NextEmpty | src/heappage.cpp:170-180 | the lowest tombstone at or above `from`, with only live slots skipped on the way |
| SlotDirectory.TraversalVisitsLiveSlots | src/heappage.cpp:297-328 | iterating with FirstRecord/NextRecord visits each live slot exactly once, in ascending slot order, and nothing else |
| SlotDirectory.TraversalCountsRecords | src/heappage.cpp:297-328 | a full iteration yields as many slots as the record count, and none iff the page is empty |
| OffsetOrder.InsertByOffset | src/heappage.cpp:145 | inserting a pair into a descending sequence keeps it descending and adds exactly that pair |
| OffsetOrder.InsertKeepsIndicesDistinct | src/heappage.cpp:145 | insertion never duplicates a slot index |
| OffsetOrder.SortByDescendingOffset | src/heappage.cpp:145 | the sorted pairs are in descending offset order and a permutation of the input |
| OffsetOrder.SortKeepsIndicesDistinct | src/heappage.cpp:145 | sorting never duplicates a slot index |
| Compaction.CollectedVisitOrder | src/heappage.cpp:140-145 | the sorted pairs list every slot exactly once, in descending offset order |
| Compaction.NextToMove | src/heappage.cpp:147-158 | the live record visited next is the highest one not yet moved, and it lies entirely below the ones already moved |
| Compaction.ProgressStart | src/heappage.cpp:146 | with freePtr reset to the last byte, the compaction invariant holds before the loop |
| Compaction.ProgressSkip | src/heappage.cpp:149-150 | skipping a tombstone keeps the compaction invariant |
| Compaction.ProgressMove | src/heappage.cpp:151-156 | moving a live record to just below freePtr keeps the compaction invariant |
| Compaction.MoveStep | src/heappage.cpp:151-156 | the live record visited next lies below freePtr, its target bytes end at freePtr, and the directory and data after the move keep the compaction invariant |
| Compaction.ProgressEnd | src/heappage.cpp:147-159 | at the end of the loop every record is compacted with its bytes kept, and freePtr sits just below them |
| PageLayout.Written | src/heappage.cpp:153 | the bytes memcpy leaves: the target range holds the copied bytes and everything else is unchanged |
| PageLayout.WrittenInPlace | src/heappage.cpp:153 | copying a record onto its own position changes nothing |
| PageLayout.RecordMapContents | src/heappage.cpp:362-372 | the page holds a record under exactly the live slot numbers, namely the bytes its descriptor points at |
| PageLayout.RecordMapIs | src/heappage.cpp:362-372 | any map with those keys and contents is the page's record map |
| PageLayout.RecordMapKeys | include/heappage.h:25 | record slot numbers lie in the directory |
| PageLayout.RecordMapWrite | src/heappage.cpp:208-213 | writing bytes into free space under a tombstone adds exactly that record |
| PageLayout.RecordMapErase | src/heappage.cpp:261-263 | tombstoning a slot removes exactly its record |
| PageLayout.RecordMapTruncate | src/heappage.cpp:256-259 | dropping the last descriptor removes exactly its record |
| PageLayout.FreeBytesAreUnused | src/heappage.cpp:208-213 | bytes at or below freePtr belong to no record |
| PageLayout.PlaceLayout | src/heappage.cpp:208-213 | placing a record just below freePtr under a tombstone keeps the layout invariant and adds its length to the live bytes |
| PageLayout.DirectoryBelowRecords | src/heappage.cpp:99-101 | every descriptor lies below every record, so writing a descriptor never overwrites record bytes |
| PageLayout.EraseLayout | src/heappage.cpp:261-263 | tombstoning keeps the layout invariant and frees the record's bytes |
| PageLayout.TruncateLayout | src/heappage.cpp:256-259 | dropping the last descriptor keeps the layout invariant and frees its record's bytes |
| PageLayout.DeletedOffsetIsNotSmallest | src/heappage.cpp:265 | after the deletion, SmallestOffset never equals the deleted record's offset, so the freePtr adjustment never happens |
| PageLayout.LiveBytesAppend | src/heappage.cpp:122-128 | appending a descriptor adds its live length to the live bytes |
| PageLayout.LiveBytesUpdate | src/heappage.cpp:208-213 | rewriting one descriptor changes the live bytes by the difference of the two live lengths |
| PageLayout.LiveBytesSole | src/heappage.cpp:250-254 | with one live record, the live bytes are its length |
| PageLayout.LiveBytesFit | src/heappage.cpp:110-112 | live records fit between freePtr and the end, and the directory plus the records fit in the data area |
| PageLayout.CompactionKeepsOrder | src/heappage.cpp:145-158 | compaction keeps the relative order of record offsets, and records that were in order stay in order without overlapping |
| PageLayout.CompactionLayout | src/heappage.cpp:138-160 | compaction keeps the live bytes and the layout invariant, with freePtr just below the packed records |
| PageLayout.CompactionInBounds | src/heappage.cpp:138-160 | compacted records lie between the new freePtr and the end of the data area |
| PageLayout.CompactionDisjoint | src/heappage.cpp:138-160 | compacted records do not overlap |
| PageLayout.CompactionPacked | src/heappage.cpp:138-160 | compacted records are packed against the end of the data area |
| PageLayout.CompactionOfPackedIsIdentity | src/heappage.cpp:138-160 | compacting a packed page moves no record |
| PageLayout.CompactionIsIdempotent | src/heappage.cpp:138-160 | compacting twice is the same as compacting once |

## Left out

- Input/output, the buffer manager and the heap-file layer above the page are not modelled. `minirel.h` and `page.h` are not part of this model.
- `MAX_SPACE` is a constructor parameter. `PageID` is an `int` that is assumed to be 4 bytes wide, and `INVALID_PAGE` is assumed to be -1.
- The `type` header field is not modelled, because the page never reads or writes it.
- The header fields are 16-bit `short`s. The model uses unbounded integers and requires a data area of at most 32767 bytes. Under that bound and the layout invariant no field overflows.
- The slot directory is a `seq<Slot>` beside the data area, not descriptors cast out of the data area's first bytes (`GetSlotAtIndex`, `src/heappage.cpp:99-101`). `WellFormed` keeps record bytes out of the directory region, so the two never alias on a valid page.
- `AppendNewSlot`'s new descriptor starts as the placeholder `{0, INVALID_SLOT}` instead of whatever stale bytes were there. The caller fills it in before it is read.
- `memcpy` is modelled as copying from a snapshot of the source bytes, i.e. as `memmove`. When compaction moves a record onto a range overlapping its old one, the real `memcpy` has undefined behaviour, which the model does not capture.
- The checks on `memcpy`'s return value are not modelled: that value is always the destination, so those `FAIL` paths are unreachable. The `free(recPtr)` call in `GetRecord` lies on the same path.
- HeapPages.HeapPage.CompressPage returns no `Status`, because its only `FAIL` is the unreachable `memcpy` check. For the same reason `InsertRecord` has no `FAIL` after a compaction.
- `SortByDescendingOffset` is not part of this model. The comparator passed to `std::sort` is modelled by its name: it orders pairs by descending offset. The sort itself is an insertion sort proved to give a sorted permutation. Its result is unique only up to ties, and live records never tie.
- `MergeSort` and `Merge` in `include/heappage.h` are not modelled, because nothing calls them.
- HeapPages.HeapPage.PlaceRecord copies the record's bytes before filling the descriptor. The source fills it first. The two steps touch disjoint state, so the final page is the same.
- The C++ in/out reference parameters become extra inputs and results: `ridIn`, `nextRidIn`, `recOffsetIn` and `lengthIn` are the caller's values, returned unchanged where the source leaves them untouched. `ReturnRecord` returns an offset into the data area instead of a pointer.
- HeapPages.HeapPage.InsertRecord takes the record as a byte sequence and requires it to be `length` bytes long when `length > 0`. The source reads `length` bytes from `recPtr`.
- The signed/unsigned comparisons of `GetContiguousFreeSpaceSize()` with `sizeof(Slot)` at `src/heappage.cpp:123` and `:197` are modelled as signed comparisons. The contiguous space is proved non-negative, so both readings agree.
- HeapPages.HeapPage.AvailableSpace returns `freeSpace - 4` as a signed integer. At `src/heappage.cpp:384` the source computes `freeSpace - sizeof(Slot)` as a `size_t`, which wraps when `freeSpace < 4` and there is no tombstone. The value becomes negative again only through the implementation-defined conversion back to `int`. On the usual two's-complement targets this gives the model's result.

## Findings

| source | as written | input that shows it | evidently intended | confidence | as-written member | corrected member |
|---|---|---|---|---|---|---|
| src/heappage.cpp:344 | `GetRecord` compares the caller's buffer length with the slot's length but never checks that the slot is live (`ReturnRecord` does, at line 366) | delete one of several records, not the one in the last slot, then call `GetRecord` on its rid with any buffer length >= 0: the tombstone's length is -1, so the guard passes and `memcpy` at line 345 is handed -1 converted to `size_t`, the largest size there is: undefined behaviour, which in practice faults before `GetRecord` returns | `FAIL` for a tombstoned slot, as in `ReturnRecord` | high; not executed | HeapPages.GetRecordAsWrittenReadsTombstone | HeapPages.HeapPage.GetRecord |
| src/heappage.cpp:247 | `DeleteRecord` rejects slot numbers above `numOfSlots - 1` but not negative ones (`GetRecord`, `ReturnRecord` and `NextRecord` check both) | `DeleteRecord` with this page's id and slot number -1: the guard passes, and the descriptor read next (`GetSlotAtIndex(-1)`) lies in the 4 header bytes just before the data area, so what follows depends on that header field instead of on the directory | `FAIL` for a negative slot number | medium; not executed | HeapPages.DeleteRecordAsWrittenAcceptsNegativeSlot | HeapPages.HeapPage.DeleteRecord |

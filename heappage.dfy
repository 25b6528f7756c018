// A slotted heap page: a fixed data area holding a slot directory that grows
// forward from byte 0 and variable-length records packed backward from the
// end, with the header fields numOfSlots, freePtr, freeSpace, pid, nextPage
// and prevPage.

module HeapPages {
  import opened SlotDirectory
  import opened PageLayout
  import opened OffsetOrder
  import opened Compaction

  class HeapPage {
    var numOfSlots: int
    var freePtr: int
    var freeSpace: int
    var pid: PageId
    var nextPage: PageId
    var prevPage: PageId

    /** The slot directory. The page keeps it in data[0 .. SLOT_SIZE * numOfSlots);
        here it is a sequence beside the data area, and WellFormed keeps that
        region clear of record bytes. */
    var slots: seq<Slot>

    /** The data area; its length is HEAPPAGE_DATA_SIZE. */
    const data: array<bv8>

    ghost predicate Valid()
      reads this
    {
      && 0 < data.Length <= SHORT_MAX
      && numOfSlots == |slots|
      && WellFormed(slots, freePtr, data.Length)
      && freeSpace == data.Length - SLOT_SIZE * numOfSlots - LiveBytes(slots)
    }

    /** The records the page holds, by slot number. */
    ghost function Records(): map<int, seq<bv8>>
      reads this, data
      requires Valid()
    {
      RecordMap(slots, data[..])
    }

    /** What AvailableSpace reports: a new record needs a new descriptor unless
        a tombstone can be reused. */
    ghost function SpaceForNewRecord(): int
      reads this
    {
      if HasTombstone(slots) then freeSpace else freeSpace - SLOT_SIZE
    }

    /** A page frame of maxSpace bytes; its header follows once Init runs. */
    constructor (maxSpace: int)
      requires HEADER_SIZE < maxSpace <= HEADER_SIZE + SHORT_MAX
      ensures fresh(data) && data.Length == HeapPageDataSize(maxSpace)
      ensures data.Length + HEADER_SIZE == maxSpace
    {
      data := new bv8[HeapPageDataSize(maxSpace)];
    }

    method Init(pageNo: PageId)
      requires 0 < data.Length <= SHORT_MAX
      modifies this
      ensures Valid()
      ensures pid == pageNo && nextPage == INVALID_PAGE && prevPage == INVALID_PAGE
      ensures numOfSlots == 0 && freePtr == data.Length - 1 && freeSpace == data.Length
      ensures Records() == map[]
      ensures CountLive(slots) == 0 && SpaceForNewRecord() == data.Length - SLOT_SIZE
    {
      pid := pageNo;
      nextPage := INVALID_PAGE;
      prevPage := INVALID_PAGE;
      numOfSlots := 0;
      slots := [];
      freePtr := data.Length - 1;
      freeSpace := data.Length;
    }

    method SetNextPage(pageNo: PageId)
      modifies this`nextPage
      ensures nextPage == pageNo
    {
      nextPage := pageNo;
    }

    method SetPrevPage(pageNo: PageId)
      modifies this`prevPage
      ensures prevPage == pageNo
    {
      prevPage := pageNo;
    }

    method GetNextPage() returns (r: PageId)
      ensures r == nextPage
    {
      r := nextPage;
    }

    method GetPrevPage() returns (r: PageId)
      ensures r == prevPage
    {
      r := prevPage;
    }

    method PageNo() returns (r: PageId)
      ensures r == pid
    {
      r := pid;
    }

    /** Writes descriptor `index` as {offset, length}. */
    method FillSlot(index: int, offset: int, length: int)
      requires 0 <= index < |slots|
      modifies this`slots
      ensures slots == old(slots)[index := Slot(offset, length)]
      ensures !SlotIsEmpty(slots[index]) <==> length != INVALID_SLOT
    {
      slots := slots[index := Slot(offset, length)];
    }

    /** Marks descriptor `index` as a tombstone; its offset is left as it was. */
    method SetSlotEmpty(index: int)
      requires 0 <= index < |slots|
      modifies this`slots
      ensures slots == old(slots)[index := Slot(old(slots[index].offset), INVALID_SLOT)]
      ensures SlotIsEmpty(slots[index])
    {
      slots := slots[index := slots[index].(length := INVALID_SLOT)];
    }

    /** Bytes between the end of the directory and the first record byte. */
    function GetContiguousFreeSpaceSize(): (r: int)
      reads this
      requires Valid()
      ensures 0 <= r <= freeSpace
      ensures r == freePtr + 1 - SLOT_SIZE * numOfSlots
    {
      LiveBytesFit(slots, freePtr, data.Length);
      freePtr - numOfSlots * SLOT_SIZE + 1
    }

    /** memcpy into the data area; the bytes are taken before any is written,
        so overlapping source and destination behave as memmove. */
    method CopyBytes(at: int, bytes: seq<bv8>)
      requires 0 <= at && at + |bytes| <= data.Length
      modifies data
      ensures data[..] == Written(old(data[..]), at, bytes)
    {
      var j := 0;
      while j < |bytes|
        invariant 0 <= j <= |bytes|
        invariant forall b :: 0 <= b < data.Length ==>
          data[b] == if at <= b < at + j then bytes[b - at] else old(data[b])
      {
        data[at + j] := bytes[j];
        j := j + 1;
      }
      assert forall b :: 0 <= b < data.Length ==> data[..][b] == Written(old(data[..]), at, bytes)[b];
    }

    /** Grows the directory by one descriptor if the contiguous free space
        holds one. The new descriptor is an empty placeholder. */
    method AppendNewSlot() returns (appended: bool)
      requires Valid()
      modifies this`slots, this`numOfSlots, this`freeSpace
      ensures Valid()
      ensures appended <==> old(GetContiguousFreeSpaceSize()) >= SLOT_SIZE
      ensures appended ==> slots == old(slots) + [Slot(0, INVALID_SLOT)] && freeSpace == old(freeSpace) - SLOT_SIZE
      ensures !appended ==> slots == old(slots) && freeSpace == old(freeSpace)
      ensures Records() == old(Records())
    {
      if GetContiguousFreeSpaceSize() >= SLOT_SIZE {
        freeSpace := freeSpace - SLOT_SIZE;
        LiveBytesAppend(slots, Slot(0, INVALID_SLOT));
        slots := slots + [Slot(0, INVALID_SLOT)];
        numOfSlots := numOfSlots + 1;
        appended := true;
      } else {
        appended := false;
      }
    }

    /** The (slot index, offset) pair of every slot, by descending offset:
        the order in which CompressPage moves records. */
    method SortedIndexAndOffset() returns (indexAndOffset: seq<IndexOffset>)
      requires Valid()
      ensures VisitOrder(slots, indexAndOffset)
    {
      indexAndOffset := [];
      var i := 0;
      while i < numOfSlots
        invariant 0 <= i <= numOfSlots
        invariant |indexAndOffset| == i
        invariant forall j :: 0 <= j < i ==> indexAndOffset[j] == (j, slots[j].offset)
      {
        indexAndOffset := indexAndOffset + [(i, slots[i].offset)];
        i := i + 1;
      }
      ghost var collected := indexAndOffset;
      indexAndOffset := SortByDescendingOffset(indexAndOffset);
      SortKeepsIndicesDistinct(collected);
      CollectedVisitOrder(slots, collected, indexAndOffset);
    }

    /** One step of CompressPage: the record of descriptor c, the bytes
        data[from .. end] of length len below the free pointer, is copied to
        the bytes from `to` = freePtr + 1 - len on, the descriptor points there,
        and the free pointer moves down to to - 1. The result is directory s'
        and data d'. */
    method MoveRecord(c: int, from: int, end: int, len: int, to: int, ghost s': seq<Slot>, ghost d': seq<bv8>)
      requires 0 <= c < |slots| && slots[c].offset == from && slots[c].length == len
      requires 0 <= from && 0 < len && end == from + len && 0 <= to && to + len == freePtr + 1 <= data.Length
      requires end <= freePtr + 1
      requires s' == slots[c := Slot(to, len)]
      requires d' == Written(data[..], to, data[..][from .. end])
      modifies this`slots, this`freePtr, data
      ensures slots == s' && data[..] == d' && freePtr == to - 1
    {
      freePtr := to - 1;
      CopyBytes(to, data[from .. end]);
      slots := slots[c := Slot(to, len)];
    }

    /** One iteration of the loop of CompressPage: the slot order[k] is
        skipped when it is a tombstone and moved down otherwise. */
    method VisitSlot(ghost s0: seq<Slot>, ghost d0: seq<bv8>, order: seq<IndexOffset>, k: int, ghost lastOff: int)
      returns (ghost lastOff': int)
      requires Progress(s0, d0, order, k, lastOff, slots, data[..], freePtr)
      requires k < |order|
      modifies this`slots, this`freePtr, data
      ensures Progress(s0, d0, order, k + 1, lastOff', slots, data[..], freePtr)
    {
      var c := order[k].0;
      if slots[c].length != INVALID_SLOT {
        var from, len := slots[c].offset, slots[c].length;
        var end, to := from + len, freePtr + 1 - len;
        ghost var s', d' := MoveStep(s0, d0, order, k, lastOff, slots, data[..], freePtr, c, from, end, len, to);
        MoveRecord(c, from, end, len, to, s', d');
        lastOff' := from;
      } else {
        ProgressSkip(s0, d0, order, k, lastOff, slots, data[..], freePtr);
        lastOff' := lastOff;
      }
    }

    /** The loop of CompressPage: visits the slots in the given order and
        moves each live record down to the free pointer. */
    method MoveRecords(order: seq<IndexOffset>)
      requires Valid() && VisitOrder(slots, order)
      modifies this`slots, this`freePtr, data
      ensures CompactedFrom(old(slots), slots, data.Length)
      ensures freePtr == data.Length - 1 - LiveBytes(old(slots))
      ensures forall b :: 0 <= b <= freePtr && b < data.Length ==> data[b] == old(data[b])
      ensures Packed(old(slots), data.Length) ==> slots == old(slots) && data[..] == old(data[..])
      ensures RecordsInBounds(slots, 0, data.Length) && RecordMap(slots, data[..]) == old(Records())
    {
      ghost var s0 := slots;
      ghost var d0 := data[..];
      ProgressStart(s0, d0, order, freePtr);
      freePtr := data.Length - 1;
      ghost var lastOff := |d0|;
      var k := 0;
      while k < numOfSlots
        invariant 0 <= k <= numOfSlots == |s0|
        invariant Progress(s0, d0, order, k, lastOff, slots, data[..], freePtr)
      {
        lastOff := VisitSlot(s0, d0, order, k, lastOff);
        k := k + 1;
      }
      ProgressEnd(s0, d0, order, lastOff, slots, data[..], freePtr);
    }

    /** Moves every live record, highest offset first, so that the records sit
        back to back against the end of the data area. */
    method CompressPage()
      requires Valid()
      modifies this`slots, this`freePtr, data
      ensures Valid()
      ensures CompactedFrom(old(slots), slots, data.Length)
      ensures Packed(slots, data.Length)
      ensures freePtr == data.Length - 1 - LiveBytes(slots)
      ensures GetContiguousFreeSpaceSize() == freeSpace
      ensures Records() == old(Records())
      ensures forall b :: 0 <= b <= freePtr ==> data[b] == old(data[b])
      ensures old(Packed(slots, data.Length)) ==> slots == old(slots) && data[..] == old(data[..])
    {
      var indexAndOffset := SortedIndexAndOffset();
      MoveRecords(indexAndOffset);
      CompactionLayout(old(slots), slots, old(freePtr), data.Length);
    }

    /** The lowest tombstone, or numOfSlots when there is none. */
    method GetEmptySlot() returns (found: bool, index: int)
      requires Valid()
      ensures 0 <= index <= numOfSlots
      ensures found <==> index < numOfSlots
      ensures found <==> HasTombstone(slots)
      ensures index == NextEmpty(slots, 0)
    {
      var i := 0;
      while i < numOfSlots
        invariant 0 <= i <= numOfSlots
        invariant forall j :: 0 <= j < i ==> Live(slots[j])
        invariant NextEmpty(slots, 0) == NextEmpty(slots, i)
      {
        if slots[i].length == INVALID_SLOT {
          return true, i;
        }
        i := i + 1;
      }
      return false, i;
    }

    /** Takes len bytes just below the free pointer for the tombstone
        descriptor `index`; the contiguous free space must hold them. */
    method ReserveRecord(index: int, len: int)
      requires Valid()
      requires 0 <= index < numOfSlots && SlotIsEmpty(slots[index])
      requires 0 < len <= GetContiguousFreeSpaceSize()
      modifies this`slots, this`freePtr, this`freeSpace
      ensures Valid()
      ensures slots == old(slots)[index := Slot(old(freePtr) + 1 - len, len)]
      ensures freePtr == old(freePtr) - len && freeSpace == old(freeSpace) - len
    {
      PlaceLayout(slots, freePtr, data.Length, index, len);
      freePtr := freePtr - len;
      freeSpace := freeSpace - len;
      FillSlot(index, freePtr + 1, len);
    }

    /** Writes a record of |rec| bytes just below the free pointer and points
        the tombstone descriptor `index` at it. */
    method PlaceRecord(index: int, rec: seq<bv8>)
      requires Valid()
      requires 0 <= index < numOfSlots && SlotIsEmpty(slots[index])
      requires 0 < |rec| <= GetContiguousFreeSpaceSize()
      modifies this`slots, this`freePtr, this`freeSpace, data
      ensures Valid()
      ensures numOfSlots == old(numOfSlots) && freeSpace == old(freeSpace) - |rec|
      ensures slots == old(slots)[index := Slot(old(freePtr) + 1 - |rec|, |rec|)] && freePtr == old(freePtr) - |rec|
      ensures Records() == old(Records())[index := rec]
    {
      var at := freePtr + 1 - |rec|;
      FreeBytesAreUnused(slots, freePtr, data.Length, at, |rec|);
      RecordMapWrite(slots, data[..], index, at, rec);
      // The bytes are copied before the descriptor is filled in: the two
      // steps touch disjoint state, so the order does not matter.
      CopyBytes(at, rec);
      ReserveRecord(index, |rec|);
    }

    /** The descriptor InsertRecord fills: the lowest tombstone, else a newly
        appended one, with the page compacted first whenever the contiguous
        free space is too small for the descriptor and the record. */
    method SlotForRecord(length: int) returns (index: int)
      requires Valid()
      requires 0 < length <= SpaceForNewRecord()
      modifies this`slots, this`numOfSlots, this`freePtr, this`freeSpace, data
      ensures Valid()
      ensures index == old(NextEmpty(slots, 0))
      ensures 0 <= index < numOfSlots && SlotIsEmpty(slots[index])
      ensures length <= GetContiguousFreeSpaceSize()
      ensures numOfSlots == old(numOfSlots) + (if old(HasTombstone(slots)) then 0 else 1)
      ensures freeSpace == old(SpaceForNewRecord())
      ensures Records() == old(Records())
      ensures old(GetContiguousFreeSpaceSize()) >= length + (if old(HasTombstone(slots)) then 0 else SLOT_SIZE) ==>
        freePtr == old(freePtr) && data[..] == old(data[..]) && forall j :: 0 <= j < old(numOfSlots) ==> slots[j] == old(slots[j])
    {
      var found;
      found, index := GetEmptySlot();
      if !found {
        EnsureContiguous(SLOT_SIZE + length);
        var appended := AppendNewSlot();
        assert appended;
      }
      EnsureContiguous(length);
    }

    /** Compacts the page when the contiguous free space is smaller than `need`. */
    method EnsureContiguous(need: int)
      requires Valid() && need <= freeSpace
      modifies this`slots, this`freePtr, data
      ensures Valid()
      ensures need <= GetContiguousFreeSpaceSize()
      ensures |slots| == |old(slots)| && forall i :: 0 <= i < |slots| ==> slots[i].length == old(slots[i].length)
      ensures Records() == old(Records())
      ensures old(GetContiguousFreeSpaceSize()) >= need ==> slots == old(slots) && freePtr == old(freePtr) && data[..] == old(data[..])
      ensures old(GetContiguousFreeSpaceSize()) < need ==> CompactedFrom(old(slots), slots, data.Length) && Packed(slots, data.Length)
    {
      if GetContiguousFreeSpaceSize() < need {
        CompressPage();
      }
    }

    /** Stores a record of `length` bytes. FAIL for a non-positive length,
        DONE when AvailableSpace is short of it; otherwise the lowest tombstone
        is reused, or a descriptor is appended, compacting the page first
        whenever the contiguous free space is too small. */
    method InsertRecord(rec: seq<bv8>, length: int, ridIn: RecordId) returns (status: Status, rid: RecordId)
      requires Valid()
      requires 0 < length ==> |rec| == length
      modifies this`slots, this`numOfSlots, this`freePtr, this`freeSpace, data
      ensures Valid()
      ensures status == FAIL <==> length <= 0
      ensures status == DONE <==> 0 < length && old(SpaceForNewRecord()) < length
      ensures status != OK ==>
        rid == ridIn && slots == old(slots) && freePtr == old(freePtr) && freeSpace == old(freeSpace) &&
        data[..] == old(data[..])
      ensures status == OK ==> rid == RecordId(pid, old(NextEmpty(slots, 0)))
      ensures status == OK ==> rid.slotNo !in old(Records()) && Records() == old(Records())[rid.slotNo := rec]
      ensures status == OK ==> numOfSlots == old(numOfSlots) + (if old(HasTombstone(slots)) then 0 else 1)
      ensures status == OK ==> freeSpace == old(SpaceForNewRecord()) - length
      ensures status == OK ==> slots[rid.slotNo] == Slot(freePtr + 1, length)
      ensures status == OK && old(GetContiguousFreeSpaceSize()) >= length + (if old(HasTombstone(slots)) then 0 else SLOT_SIZE) ==>
        freePtr == old(freePtr) - length && forall j :: 0 <= j < old(numOfSlots) && j != rid.slotNo ==> slots[j] == old(slots[j])
    {
      rid := ridIn;
      if length <= 0 {
        return FAIL, rid;
      }
      var available := AvailableSpace();
      if available < length {
        return DONE, rid;
      }
      RecordMapContents(slots, data[..]);
      var index := SlotForRecord(length);
      PlaceRecord(index, rec);
      rid := RecordId(pid, index);
      status := OK;
    }

    /** A record stored by InsertRecord is read back by GetRecord and
        ReturnRecord, and GetRecord refuses a buffer shorter than it. */
    method InsertThenRead(rec: seq<bv8>) returns (rid: RecordId, got: seq<bv8>)
      requires Valid() && 0 < |rec| <= SpaceForNewRecord()
      modifies this`slots, this`numOfSlots, this`freePtr, this`freeSpace, data
      ensures Valid() && rid == RecordId(pid, old(NextEmpty(slots, 0)))
      ensures got == rec
    {
      var status;
      status, rid := InsertRecord(rec, |rec|, RecordId(pid, INVALID_SLOT));
      RecordMapContents(slots, data[..]);
      assert rid.slotNo in Records() && slots[rid.slotNo].length == |rec|;
      var getStatus, outLength;
      getStatus, got, outLength := GetRecord(rid, |rec|);
      assert getStatus == OK && outLength == |rec|;
      var shortStatus, _, _ := GetRecord(rid, |rec| - 1);
      assert shortStatus == FAIL;
      var returnStatus, recOffset, length := ReturnRecord(rid, 0, 0);
      assert returnStatus == OK && data[recOffset .. recOffset + length] == rec;
    }

    /** Whether every slot other than slotNo is a tombstone. */
    method HasNoOtherValidSlot(slotNo: int) returns (r: bool)
      requires Valid()
      ensures r <==> forall i :: 0 <= i < numOfSlots && i != slotNo ==> SlotIsEmpty(slots[i])
    {
      var i := 0;
      while i < numOfSlots
        invariant 0 <= i <= numOfSlots
        invariant forall j :: 0 <= j < i && j != slotNo ==> SlotIsEmpty(slots[j])
      {
        if i != slotNo && !SlotIsEmpty(slots[i]) {
          return false;
        }
        i := i + 1;
      }
      return true;
    }

    /** Removes a record. FAIL when rid names another page, a slot outside
        the directory (see DeleteRecordPassesGuardAsWritten for the guard
        without the negative check) or a tombstone. Deleting the only
        record resets the page; deleting the last descriptor shrinks the
        directory; any other descriptor becomes a tombstone. The free
        pointer stays where it is unless the page is reset. */
    method DeleteRecord(rid: RecordId) returns (status: Status)
      requires Valid()
      modifies this`slots, this`numOfSlots, this`freePtr, this`freeSpace
      ensures Valid()
      ensures status == OK || status == FAIL
      ensures status == OK <==> rid.pageNo == pid && rid.slotNo in old(Records())
      ensures status == FAIL ==>
        slots == old(slots) && numOfSlots == old(numOfSlots) && freePtr == old(freePtr) && freeSpace == old(freeSpace)
      ensures status == OK ==> Records() == old(Records()) - {rid.slotNo}
      ensures status == OK ==>
        freeSpace == old(freeSpace) + |old(Records())[rid.slotNo]| + SLOT_SIZE * (old(numOfSlots) - numOfSlots)
      ensures status == OK && Records() == map[] ==>
        numOfSlots == 0 && freePtr == data.Length - 1 && freeSpace == data.Length
      ensures status == OK && Records() != map[] ==> freePtr == old(freePtr)
      ensures status == OK && Records() != map[] && rid.slotNo == old(numOfSlots) - 1 ==>
        slots == old(slots)[..rid.slotNo]
      ensures status == OK && Records() != map[] && 0 <= rid.slotNo < old(numOfSlots) - 1 ==>
        slots == old(slots)[rid.slotNo := Slot(old(slots[rid.slotNo].offset), INVALID_SLOT)]
    {
      RecordMapContents(slots, data[..]);
      if rid.pageNo != pid || rid.slotNo > numOfSlots - 1 || rid.slotNo < 0 {
        return FAIL;
      }
      if slots[rid.slotNo].length == INVALID_SLOT {
        return FAIL;
      }
      RemoveRecord(rid.slotNo);
      return OK;
    }

    /** The body of DeleteRecord once rid is known to name a record. */
    method RemoveRecord(i: int)
      requires Valid() && 0 <= i < numOfSlots && Live(slots[i])
      modifies this`slots, this`numOfSlots, this`freePtr, this`freeSpace
      ensures Valid()
      ensures Records() == old(Records()) - {i}
      ensures freeSpace == old(freeSpace) + old(slots[i].length) + SLOT_SIZE * (old(numOfSlots) - numOfSlots)
      ensures Records() == map[] ==> numOfSlots == 0 && freePtr == data.Length - 1 && freeSpace == data.Length
      ensures Records() != map[] ==> freePtr == old(freePtr)
      ensures Records() != map[] && i == old(numOfSlots) - 1 ==> slots == old(slots)[..i]
      ensures Records() != map[] && i < old(numOfSlots) - 1 ==> slots == old(slots)[i := Slot(old(slots[i].offset), INVALID_SLOT)]
    {
      var sole := HasNoOtherValidSlot(i);
      if sole {
        ResetPage(i);
      } else {
        ghost var other :| 0 <= other < numOfSlots && other != i && Live(slots[other]);
        assert other in Records() by { RecordMapContents(slots, data[..]); }
        RemoveFromDirectory(i);
        assert other in Records();
      }
    }

    /** DeleteRecord of a record that is not the only one: the descriptor is
        dropped or becomes a tombstone, and the free pointer is kept. */
    method RemoveFromDirectory(i: int)
      requires Valid() && 0 <= i < numOfSlots && Live(slots[i])
      modifies this`slots, this`numOfSlots, this`freePtr, this`freeSpace
      ensures Valid()
      ensures Records() == old(Records()) - {i}
      ensures freeSpace == old(freeSpace) + old(slots[i].length) + SLOT_SIZE * (old(numOfSlots) - numOfSlots)
      ensures freePtr == old(freePtr)
      ensures i == old(numOfSlots) - 1 ==> slots == old(slots)[..i] && numOfSlots == i
      ensures i < old(numOfSlots) - 1 ==> slots == old(slots)[i := Slot(old(slots[i].offset), INVALID_SLOT)] && numOfSlots == old(numOfSlots)
    {
      ghost var s := slots;
      var slot := slots[i];
      if i == numOfSlots - 1 {
        DropLastSlot();
      } else {
        EraseSlot(i);
        slot := slots[i];
      }
      var smallest := SmallestOffset();
      DeletedOffsetIsNotSmallest(s, slots, i, data.Length, smallest);
      var reclaimed := if smallest == slot.offset then slot.length else 0;
      freePtr := freePtr + reclaimed;
    }

    /** DeleteRecord of the only record: the directory is emptied and the
        free pointer goes back to the last byte. */
    method ResetPage(i: int)
      requires Valid() && 0 <= i < numOfSlots && Live(slots[i])
      requires forall j :: 0 <= j < numOfSlots && j != i ==> SlotIsEmpty(slots[j])
      modifies this`slots, this`numOfSlots, this`freePtr, this`freeSpace
      ensures Valid()
      ensures numOfSlots == 0 && freePtr == data.Length - 1 && freeSpace == data.Length
      ensures freeSpace == old(freeSpace) + SLOT_SIZE * old(numOfSlots) + old(slots[i].length)
      ensures Records() == map[] == old(Records()) - {i}
    {
      LiveBytesSole(slots, i);
      RecordMapContents(slots, data[..]);
      ghost var rest := Records() - {i};
      assert forall k :: k !in rest;
      assert rest.Keys == {};
      freeSpace := freeSpace + numOfSlots * SLOT_SIZE + slots[i].length;
      freePtr := data.Length - 1;
      numOfSlots := 0;
      slots := [];
    }

    /** DeleteRecord of the last descriptor: the directory shrinks by one. */
    method DropLastSlot()
      requires Valid() && 0 < numOfSlots && Live(slots[numOfSlots - 1])
      modifies this`slots, this`numOfSlots, this`freeSpace
      ensures Valid()
      ensures slots == old(slots)[..old(numOfSlots) - 1] && numOfSlots == old(numOfSlots) - 1
      ensures freeSpace == old(freeSpace) + SLOT_SIZE + old(slots[numOfSlots - 1].length)
      ensures Records() == old(Records()) - {old(numOfSlots) - 1}
    {
      TruncateLayout(slots, freePtr, data.Length);
      RecordMapTruncate(slots, data[..]);
      freeSpace := freeSpace + SLOT_SIZE + slots[numOfSlots - 1].length;
      numOfSlots := numOfSlots - 1;
      slots := slots[..numOfSlots];
    }

    /** DeleteRecord of any other descriptor: it becomes a tombstone. */
    method EraseSlot(i: int)
      requires Valid() && 0 <= i < numOfSlots && Live(slots[i])
      modifies this`slots, this`freeSpace
      ensures Valid()
      ensures slots == old(slots)[i := Slot(old(slots[i].offset), INVALID_SLOT)]
      ensures freeSpace == old(freeSpace) + old(slots[i].length)
      ensures Records() == old(Records()) - {i}
    {
      EraseLayout(slots, freePtr, data.Length, i);
      RecordMapErase(slots, data[..], i);
      freeSpace := freeSpace + slots[i].length;
      SetSlotEmpty(i);
    }

    /** The lowest offset of a live record, HEAPPAGE_DATA_SIZE if none is lower. */
    method SmallestOffset() returns (smallest: int)
      requires Valid()
      ensures smallest <= data.Length
      ensures forall i :: 0 <= i < numOfSlots && Live(slots[i]) ==> smallest <= slots[i].offset
      ensures smallest == data.Length || exists i :: 0 <= i < numOfSlots && Live(slots[i]) && slots[i].offset == smallest
    {
      smallest := data.Length;
      var i := 0;
      while i < numOfSlots
        invariant 0 <= i <= numOfSlots
        invariant smallest <= data.Length
        invariant forall j :: 0 <= j < i && Live(slots[j]) ==> smallest <= slots[j].offset
        invariant smallest == data.Length || exists j :: 0 <= j < i && Live(slots[j]) && slots[j].offset == smallest
      {
        if slots[i].length != INVALID_SLOT {
          if slots[i].offset < smallest {
            smallest := slots[i].offset;
          }
        }
        i := i + 1;
      }
    }

    /** The first live slot of the page. The caller's rid (ridIn) is left as
        it was when there is none. */
    method FirstRecord(ridIn: RecordId) returns (status: Status, rid: RecordId)
      requires Valid()
      ensures status == OK || status == DONE
      ensures status == OK <==> NextLive(slots, 0) < numOfSlots
      ensures status == OK ==> rid == RecordId(pid, NextLive(slots, 0))
      ensures status == DONE ==> rid == ridIn
    {
      rid := ridIn;
      var i := 0;
      while i < numOfSlots
        invariant 0 <= i <= numOfSlots
        invariant forall j :: 0 <= j < i ==> SlotIsEmpty(slots[j])
      {
        if !SlotIsEmpty(slots[i]) {
          return OK, RecordId(pid, i);
        }
        i := i + 1;
      }
      status := DONE;
    }

    /** The first live slot after curRid, which must name a slot of this page.
        The caller's nextRid (nextRidIn) is left as it was unless one is found. */
    method NextRecord(curRid: RecordId, nextRidIn: RecordId) returns (status: Status, nextRid: RecordId)
      requires Valid()
      ensures status == FAIL <==> curRid.pageNo != pid || curRid.slotNo < 0 || curRid.slotNo >= numOfSlots
      ensures status != FAIL ==> (status == OK || status == DONE)
      ensures status != FAIL ==> (status == OK <==> NextLive(slots, curRid.slotNo + 1) < numOfSlots)
      ensures status == OK ==> nextRid == RecordId(pid, NextLive(slots, curRid.slotNo + 1))
      ensures status != OK ==> nextRid == nextRidIn
    {
      nextRid := nextRidIn;
      if curRid.pageNo != pid || curRid.slotNo < 0 || curRid.slotNo >= numOfSlots {
        return FAIL, nextRid;
      }
      var i := curRid.slotNo + 1;
      while i < numOfSlots
        invariant curRid.slotNo + 1 <= i <= numOfSlots
        invariant forall j :: curRid.slotNo + 1 <= j < i ==> SlotIsEmpty(slots[j])
      {
        if !SlotIsEmpty(slots[i]) {
          return OK, RecordId(pid, i);
        }
        i := i + 1;
      }
      status := DONE;
    }

    /** Copies the record into the caller's buffer of `length` bytes; a
        tombstone is refused (see GetRecordAsWritten for the unguarded read). */
    method GetRecord(rid: RecordId, length: int) returns (status: Status, rec: seq<bv8>, outLength: int)
      requires Valid()
      ensures status == OK || status == FAIL
      ensures status == OK <==>
        rid.pageNo == pid && 0 <= rid.slotNo < numOfSlots && Live(slots[rid.slotNo]) && length >= slots[rid.slotNo].length
      ensures status == OK ==> rid.slotNo in Records() && rec == Records()[rid.slotNo] && outLength == |rec| <= length
      ensures status == FAIL ==> outLength == length
    {
      if rid.pageNo != pid || rid.slotNo >= numOfSlots || rid.slotNo < 0 {
        return FAIL, [], length;
      }
      var slot := slots[rid.slotNo];
      var slotLength := slot.length;
      var slotOffset := slot.offset;
      if slotLength != INVALID_SLOT && length >= slotLength {
        rec := data[slotOffset .. slotOffset + slotLength];
        RecordMapContents(slots, data[..]);
        assert rec == data[..][slotOffset .. slotOffset + slotLength];
        return OK, rec, slotLength;
      }
      return FAIL, [], length;
    }

    /** Where the record lies inside the data area, without copying it. The
        caller's offset and length (recOffsetIn, lengthIn) are left as they
        were on failure. */
    method ReturnRecord(rid: RecordId, recOffsetIn: int, lengthIn: int) returns (status: Status, recOffset: int, length: int)
      requires Valid()
      ensures status == OK || status == FAIL
      ensures status == OK <==> rid.pageNo == pid && 0 <= rid.slotNo < numOfSlots && Live(slots[rid.slotNo])
      ensures status == OK ==>
        0 <= recOffset && 0 <= length && recOffset + length <= data.Length && rid.slotNo in Records() &&
        data[recOffset .. recOffset + length] == Records()[rid.slotNo]
      ensures status == OK ==> recOffset == slots[rid.slotNo].offset && length == slots[rid.slotNo].length
      ensures status == FAIL ==> recOffset == recOffsetIn && length == lengthIn
    {
      if rid.pageNo != pid || rid.slotNo >= numOfSlots || rid.slotNo < 0 {
        return FAIL, recOffsetIn, lengthIn;
      }
      var slot := slots[rid.slotNo];
      if slot.length != INVALID_SLOT {
        RecordMapContents(slots, data[..]);
        assert data[slot.offset .. slot.offset + slot.length] == data[..][slot.offset .. slot.offset + slot.length];
        return OK, slot.offset, slot.length;
      }
      return FAIL, recOffsetIn, lengthIn;
    }

    /** The number of live slots. */
    method GetNumOfRecords() returns (num: int)
      requires Valid()
      ensures num == CountLive(slots) == |Records()|
    {
      num := 0;
      var i := 0;
      while i < numOfSlots
        invariant 0 <= i <= numOfSlots
        invariant num == CountLive(slots[..i])
      {
        assert slots[..i + 1][..i] == slots[..i];
        if !SlotIsEmpty(slots[i]) {
          num := num + 1;
        }
        i := i + 1;
      }
      assert slots[..numOfSlots] == slots;
      RecordCountIsCountLive();
    }

    /** The slot numbers that hold a record are exactly the live descriptors. */
    lemma RecordKeysAreLiveIndices()
      requires Valid()
      ensures Records().Keys == LiveIndices(slots)
    {
      RecordMapContents(slots, data[..]);
    }

    /** The domain of Records() has CountLive elements. */
    lemma RecordCountIsCountLive()
      requires Valid()
      ensures |Records()| == CountLive(slots)
    {
      RecordKeysAreLiveIndices();
      LiveIndicesCount(slots);
    }

    /** Whether the page holds no record. */
    method IsEmpty() returns (r: bool)
      requires Valid()
      ensures r <==> forall i :: 0 <= i < numOfSlots ==> SlotIsEmpty(slots[i])
      ensures r <==> CountLive(slots) == 0
      ensures r <==> Records() == map[]
    {
      CountLiveZero(slots);
      RecordMapContents(slots, data[..]);
      var i := 0;
      while i < numOfSlots
        invariant 0 <= i <= numOfSlots
        invariant forall j :: 0 <= j < i ==> SlotIsEmpty(slots[j])
      {
        if !SlotIsEmpty(slots[i]) {
          assert i in Records();
          return false;
        }
        i := i + 1;
      }
      assert forall k :: k !in Records();
      assert Records().Keys == {};
      return true;
    }

    /** The largest record InsertRecord accepts: the free bytes, less a new
        descriptor when no tombstone can be reused. */
    method AvailableSpace() returns (r: int)
      requires Valid()
      ensures r == SpaceForNewRecord()
      ensures r + LiveBytes(slots) + SLOT_SIZE * (numOfSlots + (if HasTombstone(slots) then 0 else 1)) == data.Length
    {
      var num := GetNumOfRecords();
      CountLiveAll(slots);
      r := if num != numOfSlots then freeSpace else freeSpace - SLOT_SIZE;
    }
  }

  /** GetRecord as the source writes it, for a page with directory `slots`
      and page number `pid`: the status, and the byte count handed to memcpy
      (the caller's length when the copy is not reached). The guard checks
      the page, the slot number and the buffer size, but not whether the slot
      is a tombstone. */
  function GetRecordAsWritten(slots: seq<Slot>, pid: PageId, rid: RecordId, length: int): (r: (Status, int))
    ensures r.0 == OK || r.0 == FAIL
    ensures r.0 == FAIL ==> r.1 == length
  {
    if rid.pageNo != pid || rid.slotNo >= |slots| || rid.slotNo < 0 then (FAIL, length)
    else if length >= slots[rid.slotNo].length then (OK, slots[rid.slotNo].length)
    else (FAIL, length)
  }

  /** On a deleted record and any buffer at all, the as-written guards of
      GetRecord let the request through with slot length INVALID_SLOT = -1,
      which memcpy then receives as a size_t, the largest size there is
      (undefined behaviour). The corrected HeapPage.GetRecord returns FAIL
      there. */
  lemma GetRecordAsWrittenReadsTombstone(slots: seq<Slot>, pid: PageId, rid: RecordId, length: int)
    requires rid.pageNo == pid && 0 <= rid.slotNo < |slots| && SlotIsEmpty(slots[rid.slotNo])
    requires length >= 0
    ensures GetRecordAsWritten(slots, pid, rid, length) == (OK, -1)
    ensures !(rid.slotNo in LiveIndices(slots))
  {
  }

  /** Away from tombstones the as-written GetRecord and the corrected one
      agree: OK exactly when the slot is live and the buffer holds it. */
  lemma GetRecordAsWrittenOnLiveSlots(slots: seq<Slot>, pid: PageId, rid: RecordId, length: int)
    requires !(rid.pageNo == pid && 0 <= rid.slotNo < |slots| && SlotIsEmpty(slots[rid.slotNo]))
    ensures GetRecordAsWritten(slots, pid, rid, length).0 == OK <==>
      rid.pageNo == pid && 0 <= rid.slotNo < |slots| && Live(slots[rid.slotNo]) && length >= slots[rid.slotNo].length
  {
  }

  /** Whether DeleteRecord as the source writes it gets past its first guard,
      for a page with directory `slots` and page number `pid`. The guard
      rejects slot numbers past the end of the directory, but not negative
      ones. */
  function DeleteRecordPassesGuardAsWritten(slots: seq<Slot>, pid: PageId, rid: RecordId): (r: bool)
    ensures r ==> rid.pageNo == pid && rid.slotNo < |slots|
  {
    !(rid.pageNo != pid || rid.slotNo > |slots| - 1)
  }

  /** A negative slot number on this page gets past the as-written guard,
      although it names no record: the descriptor read next lies before the
      data area. The corrected HeapPage.DeleteRecord returns FAIL there. */
  lemma DeleteRecordAsWrittenAcceptsNegativeSlot(slots: seq<Slot>, pid: PageId, rid: RecordId)
    requires rid.pageNo == pid && rid.slotNo < 0
    ensures DeleteRecordPassesGuardAsWritten(slots, pid, rid)
    ensures rid.slotNo !in LiveIndices(slots)
  {
  }
}

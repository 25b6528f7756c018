// The slot directory of a heap page: descriptors, the constants of the page
// header, record identifiers, and counting and iterating over live slots.

module SlotDirectory {

  /** Page identifiers are opaque to the page; the storage layer's "no page". */
  type PageId = int
  const INVALID_PAGE: PageId := -1

  /** Length stored in a descriptor whose record was deleted (a tombstone). */
  const INVALID_SLOT: int := -1

  /** Header fields are 16-bit signed integers, which bounds the data area. */
  const SHORT_SIZE: int := 2
  const SHORT_MAX: int := 32767
  const PAGE_ID_SIZE: int := 4

  /** sizeof(Slot): two shorts, {offset, length}. */
  const SLOT_SIZE: int := 2 * SHORT_SIZE

  /** The header of a heap page: pid, nextPage, prevPage and four shorts. */
  const HEADER_SIZE: int := 3 * PAGE_ID_SIZE + 4 * SHORT_SIZE

  /** HEAPPAGE_DATA_SIZE for a page of maxSpace bytes. */
  function HeapPageDataSize(maxSpace: int): int
  {
    maxSpace - HEADER_SIZE
  }

  datatype Status = OK | DONE | FAIL

  datatype RecordId = RecordId(pageNo: PageId, slotNo: int)

  /** A descriptor: where the record starts in the data area, and its length. */
  datatype Slot = Slot(offset: int, length: int)

  predicate SlotIsEmpty(s: Slot)
  {
    s.length == INVALID_SLOT
  }

  predicate Live(s: Slot)
  {
    !SlotIsEmpty(s)
  }

  predicate HasTombstone(s: seq<Slot>)
  {
    exists i :: 0 <= i < |s| && SlotIsEmpty(s[i])
  }

  /** Number of descriptors that hold a record. */
  function CountLive(s: seq<Slot>): (r: int)
    ensures 0 <= r <= |s|
  {
    if s == [] then 0
    else CountLive(s[..|s| - 1]) + (if Live(s[|s| - 1]) then 1 else 0)
  }

  lemma {:induction false} CountLiveZero(s: seq<Slot>)
    ensures CountLive(s) == 0 <==> forall i :: 0 <= i < |s| ==> SlotIsEmpty(s[i])
  {
    if s != [] {
      var t := s[..|s| - 1];
      CountLiveZero(t);
      assert forall i :: 0 <= i < |t| ==> t[i] == s[i];
    }
  }

  lemma {:induction false} CountLiveAll(s: seq<Slot>)
    ensures CountLive(s) == |s| <==> !HasTombstone(s)
  {
    if s != [] {
      var t := s[..|s| - 1];
      CountLiveAll(t);
      assert forall i :: 0 <= i < |t| ==> t[i] == s[i];
      if HasTombstone(t) {
        var i :| 0 <= i < |t| && SlotIsEmpty(t[i]);
        assert SlotIsEmpty(s[i]);
      }
    }
  }

  /** The slot numbers that hold a record. */
  ghost function LiveIndices(s: seq<Slot>): set<int>
  {
    set i | 0 <= i < |s| && Live(s[i])
  }

  /** CountLive counts exactly the slot numbers that hold a record. */
  lemma {:induction false} LiveIndicesCount(s: seq<Slot>)
    ensures |LiveIndices(s)| == CountLive(s)
  {
    if s != [] {
      var t := s[..|s| - 1];
      LiveIndicesCount(t);
      if Live(s[|s| - 1]) {
        assert LiveIndices(s) == LiveIndices(t) + {|s| - 1};
      } else {
        assert LiveIndices(s) == LiveIndices(t);
      }
    }
  }

  /** Counting the live slots of a prefix: no live slot in [a, b) adds nothing. */
  lemma {:induction false} CountLiveGap(s: seq<Slot>, a: int, b: int)
    requires 0 <= a <= b <= |s|
    requires forall j :: a <= j < b ==> SlotIsEmpty(s[j])
    ensures CountLive(s[..b]) == CountLive(s[..a])
  {
    if a < b {
      CountLiveGap(s, a, b - 1);
      assert s[..b][..b - 1] == s[..b - 1];
    }
  }

  /** The lowest index at or above `from` holding a live slot, |s| if none. */
  function NextLive(s: seq<Slot>, from: int): (r: int)
    requires 0 <= from <= |s|
    ensures from <= r <= |s|
    ensures r < |s| ==> Live(s[r])
    ensures forall j :: from <= j < r ==> SlotIsEmpty(s[j])
    decreases |s| - from
  {
    if from == |s| then from
    else if Live(s[from]) then from
    else NextLive(s, from + 1)
  }

  /** The lowest index at or above `from` holding a tombstone, |s| if none:
      the descriptor InsertRecord reuses. */
  function NextEmpty(s: seq<Slot>, from: int): (r: int)
    requires 0 <= from <= |s|
    ensures from <= r <= |s|
    ensures r < |s| ==> SlotIsEmpty(s[r])
    ensures forall j :: from <= j < r ==> Live(s[j])
    decreases |s| - from
  {
    if from == |s| then from
    else if SlotIsEmpty(s[from]) then from
    else NextEmpty(s, from + 1)
  }

  /** The slot numbers that FirstRecord followed by NextRecord report, from `from` on. */
  function Traversal(s: seq<Slot>, from: int): seq<int>
    requires 0 <= from <= |s|
    decreases |s| - from
  {
    var i := NextLive(s, from);
    if i == |s| then [] else [i] + Traversal(s, i + 1)
  }

  /** Iteration visits every live slot at or above `from`, and nothing else,
      in strictly ascending order (so each exactly once), and as many slots
      as the record count says. */
  lemma {:induction false} TraversalVisitsLiveSlots(s: seq<Slot>, from: int)
    requires 0 <= from <= |s|
    ensures forall j :: j in Traversal(s, from) <==> from <= j < |s| && Live(s[j])
    ensures forall p, q :: 0 <= p < q < |Traversal(s, from)| ==> Traversal(s, from)[p] < Traversal(s, from)[q]
    ensures |Traversal(s, from)| == CountLive(s) - CountLive(s[..from])
    decreases |s| - from
  {
    var i := NextLive(s, from);
    var t := Traversal(s, from);
    if i == |s| {
      assert s[..|s|] == s;
      CountLiveGap(s, from, |s|);
    } else {
      var rest := Traversal(s, i + 1);
      TraversalVisitsLiveSlots(s, i + 1);
      assert t == [i] + rest;
      CountLiveGap(s, from, i);
      assert s[..i + 1][..i] == s[..i];
      forall p, q | 0 <= p < q < |t| ensures t[p] < t[q] {
        if p > 0 {
          assert t[p] == rest[p - 1] && t[q] == rest[q - 1];
        } else {
          assert t[q] == rest[q - 1] && t[q] in rest;
        }
      }
    }
  }

  /** The whole traversal of a directory has exactly CountLive entries. */
  lemma TraversalCountsRecords(s: seq<Slot>)
    ensures |Traversal(s, 0)| == CountLive(s)
    ensures Traversal(s, 0) == [] <==> CountLive(s) == 0
  {
    TraversalVisitsLiveSlots(s, 0);
    assert s[..0] == [];
  }
}

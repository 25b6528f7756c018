// The proof of the compaction loop, stated over values: the order in which
// records are visited and the state the loop maintains after visiting a
// prefix of that order.

module Compaction {
  import opened SlotDirectory
  import opened PageLayout
  import opened OffsetOrder

  /** The (slot index, offset) pairs compaction visits: every slot exactly
      once, each with its offset, by descending offset. */
  ghost predicate VisitOrder(s0: seq<Slot>, order: seq<IndexOffset>)
  {
    && |order| == |s0|
    && DescendingByOffset(order)
    && DistinctIndices(order)
    && (forall p :: 0 <= p < |order| ==> 0 <= order[p].0 < |s0| && order[p].1 == s0[order[p].0].offset)
    && (forall j :: 0 <= j < |s0| ==> (j, s0[j].offset) in order)
  }

  /** Sorting the pairs collected from the directory gives such an order. */
  lemma CollectedVisitOrder(s0: seq<Slot>, collected: seq<IndexOffset>, order: seq<IndexOffset>)
    requires |collected| == |s0|
    requires forall j :: 0 <= j < |s0| ==> collected[j] == (j, s0[j].offset)
    requires DescendingByOffset(order) && DistinctIndices(order)
    requires multiset(order) == multiset(collected)
    ensures VisitOrder(s0, order)
  {
    assert |multiset(order)| == |multiset(collected)|;
    forall p | 0 <= p < |order| ensures 0 <= order[p].0 < |s0| && order[p].1 == s0[order[p].0].offset {
      assert order[p] in multiset(collected);
    }
    forall j | 0 <= j < |s0| ensures (j, s0[j].offset) in order {
      assert collected[j] in multiset(order);
    }
  }

  /** Where slot j appears in the visit order. */
  lemma PositionOf(s0: seq<Slot>, order: seq<IndexOffset>, j: int) returns (p: int)
    requires VisitOrder(s0, order) && 0 <= j < |s0|
    ensures 0 <= p < |order| && order[p] == (j, s0[j].offset)
  {
    p :| 0 <= p < |order| && order[p] == (j, s0[j].offset);
  }

  /** The live slot visited at step k is the highest-offset record not moved
      yet: every other unmoved record ends at or below its offset. */
  lemma NextToMove(s0: seq<Slot>, order: seq<IndexOffset>, k: int, lastOff: int, ds: int)
    requires VisitOrder(s0, order) && RecordsInBounds(s0, 0, ds) && RecordsDisjoint(s0)
    requires 0 <= k < |order| && Live(s0[order[k].0])
    requires forall p :: 0 <= p < k && Live(s0[order[p].0]) ==> s0[order[p].0].offset >= lastOff
    requires forall p :: k <= p < |order| && Live(s0[order[p].0]) ==> s0[order[p].0].offset < lastOff
    ensures forall j :: 0 <= j < |s0| && j != order[k].0 && Live(s0[j]) && s0[j].offset < lastOff ==>
      s0[j].offset + s0[j].length <= s0[order[k].0].offset
    ensures forall p :: k < p < |order| && Live(s0[order[p].0]) ==> s0[order[p].0].offset < s0[order[k].0].offset
    ensures LiveBytesAtOrAbove(s0, s0[order[k].0].offset) == LiveBytesAtOrAbove(s0, lastOff) + s0[order[k].0].length
  {
    var c := order[k].0;
    forall j | 0 <= j < |s0| && j != c && Live(s0[j]) && s0[j].offset < lastOff
      ensures s0[j].offset + s0[j].length <= s0[c].offset
    {
      var p := PositionOf(s0, order, j);
      assert k < p;
      assert Disjoint(s0[c], s0[j]);
    }
    forall p | k < p < |order| && Live(s0[order[p].0])
      ensures s0[order[p].0].offset < s0[c].offset
    {
      assert Disjoint(s0[c], s0[order[p].0]);
    }
    AtOrAboveStep(s0, c, lastOff);
  }

  /** Live slot j has been moved: it sits where compaction puts it, above the
      free pointer, and holds the bytes it held before compaction began. */
  ghost predicate Moved(s0: seq<Slot>, d0: seq<bv8>, s: seq<Slot>, d: seq<bv8>, fp: int, j: int)
    requires 0 <= j < |s0| == |s| && |d| == |d0|
  {
    && s[j].offset == |d0| - LiveBytesAtOrAbove(s0, s0[j].offset)
    && 0 <= fp + 1 <= s[j].offset
    && s[j].offset + s0[j].length <= |d0|
    && 0 <= s0[j].offset && 0 <= s0[j].length && s0[j].offset + s0[j].length <= |d0|
    && d[s[j].offset .. s[j].offset + s0[j].length] == d0[s0[j].offset .. s0[j].offset + s0[j].length]
  }

  /** The free pointer sits just below the live bytes at or above lastOff. */
  ghost predicate FreePointerBelow(s0: seq<Slot>, ds: int, lastOff: int, fp: int)
  {
    && 0 <= lastOff <= ds
    && fp + 1 == ds - LiveBytesAtOrAbove(s0, lastOff)
    && lastOff <= fp + 1 <= ds
  }

  /** The live records visited in order[..k] are those at or above lastOff. */
  ghost predicate VisitedAbove(s0: seq<Slot>, order: seq<IndexOffset>, k: int, lastOff: int)
    requires VisitOrder(s0, order) && 0 <= k <= |order|
  {
    && (forall p :: 0 <= p < k && Live(s0[order[p].0]) ==> s0[order[p].0].offset >= lastOff)
    && (forall p :: k <= p < |order| && Live(s0[order[p].0]) ==> s0[order[p].0].offset < lastOff)
  }

  /** Lengths and tombstones are kept, and every record below lastOff is
      untouched and ends at or below fp + 1. */
  ghost predicate UnmovedBelow(s0: seq<Slot>, s: seq<Slot>, lastOff: int, fp: int)
    requires |s| == |s0|
  {
    && (forall j :: 0 <= j < |s0| ==> s[j].length == s0[j].length)
    && (forall j :: 0 <= j < |s0| && !(Live(s0[j]) && s0[j].offset >= lastOff) ==> s[j] == s0[j])
    && (forall j :: 0 <= j < |s0| && Live(s0[j]) && s0[j].offset < lastOff ==> s0[j].offset + s0[j].length <= fp + 1)
  }

  /** Every live record at or above lastOff has been moved. */
  ghost predicate MovedAbove(s0: seq<Slot>, d0: seq<bv8>, s: seq<Slot>, d: seq<bv8>, lastOff: int, fp: int)
    requires |s| == |s0| && |d| == |d0|
  {
    forall j :: 0 <= j < |s0| && Live(s0[j]) && s0[j].offset >= lastOff ==> Moved(s0, d0, s, d, fp, j)
  }

  /** Nothing at or below fp has been written, and a packed page is left as it was. */
  ghost predicate DataKept(s0: seq<Slot>, d0: seq<bv8>, s: seq<Slot>, d: seq<bv8>, fp: int)
    requires |d| == |d0|
  {
    && (forall b :: 0 <= b <= fp && b < |d0| ==> d[b] == d0[b])
    && (Packed(s0, |d0|) ==> s == s0 && d == d0)
  }

  /** The state of compaction after visiting order[..k]: directory s, data d and
      free pointer fp, starting from directory s0 and data d0. */
  ghost predicate Progress(s0: seq<Slot>, d0: seq<bv8>, order: seq<IndexOffset>, k: int, lastOff: int,
                           s: seq<Slot>, d: seq<bv8>, fp: int)
  {
    && VisitOrder(s0, order) && RecordsInBounds(s0, 0, |d0|) && RecordsDisjoint(s0)
    && 0 <= k <= |order| && |s| == |s0| && |d| == |d0|
    && FreePointerBelow(s0, |d0|, lastOff, fp)
    && VisitedAbove(s0, order, k, lastOff)
    && UnmovedBelow(s0, s, lastOff, fp)
    && MovedAbove(s0, d0, s, d, lastOff, fp)
    && DataKept(s0, d0, s, d, fp)
  }

  /** Before the first step: nothing moved, the free pointer at the last byte. */
  lemma ProgressStart(s0: seq<Slot>, d0: seq<bv8>, order: seq<IndexOffset>, freePtr: int)
    requires VisitOrder(s0, order) && WellFormed(s0, freePtr, |d0|)
    ensures Progress(s0, d0, order, 0, |d0|, s0, d0, |d0| - 1)
  {
    AtOrAboveNone(s0, |d0|);
  }

  /** Visiting a tombstone changes nothing. */
  lemma ProgressSkip(s0: seq<Slot>, d0: seq<bv8>, order: seq<IndexOffset>, k: int, lastOff: int,
                     s: seq<Slot>, d: seq<bv8>, fp: int)
    requires Progress(s0, d0, order, k, lastOff, s, d, fp)
    requires k < |order| && !Live(s0[order[k].0])
    ensures Progress(s0, d0, order, k + 1, lastOff, s, d, fp)
  {
  }

  /** Visiting a live record c: it is unmoved, and it fits below the free
      pointer, which moves down by its length to just below the live records
      at or above c's old offset. */
  lemma MoveKeepsBounds(s0: seq<Slot>, d0: seq<bv8>, order: seq<IndexOffset>, k: int, lastOff: int,
                        s: seq<Slot>, d: seq<bv8>, fp: int, fp': int)
    requires Progress(s0, d0, order, k, lastOff, s, d, fp)
    requires k < |order| && Live(s0[order[k].0])
    requires fp' == fp - s0[order[k].0].length
    ensures s[order[k].0] == s0[order[k].0]
    ensures 0 <= s0[order[k].0].offset && s0[order[k].0].offset + s0[order[k].0].length <= fp + 1
    ensures FreePointerBelow(s0, |d0|, s0[order[k].0].offset, fp')
    ensures VisitedAbove(s0, order, k + 1, s0[order[k].0].offset)
  {
    NextToMove(s0, order, k, lastOff, |d0|);
  }

  /** Moving record c to fp' + 1 keeps the other records where they were. */
  lemma MoveKeepsUnmoved(s0: seq<Slot>, d0: seq<bv8>, order: seq<IndexOffset>, k: int, lastOff: int,
                         s: seq<Slot>, d: seq<bv8>, fp: int, s': seq<Slot>, fp': int)
    requires Progress(s0, d0, order, k, lastOff, s, d, fp)
    requires k < |order| && Live(s0[order[k].0])
    requires fp' == fp - s0[order[k].0].length
    requires s' == s[order[k].0 := Slot(fp' + 1, s0[order[k].0].length)]
    ensures UnmovedBelow(s0, s', s0[order[k].0].offset, fp')
  {
    NextToMove(s0, order, k, lastOff, |d0|);
  }

  /** Moving record c keeps every moved record moved, c included. */
  lemma MoveKeepsMoved(s0: seq<Slot>, d0: seq<bv8>, order: seq<IndexOffset>, k: int, lastOff: int,
                       s: seq<Slot>, d: seq<bv8>, fp: int, s': seq<Slot>, d': seq<bv8>, fp': int)
    requires Progress(s0, d0, order, k, lastOff, s, d, fp)
    requires k < |order| && Live(s0[order[k].0])
    requires fp' == fp - s0[order[k].0].length
    requires s' == s[order[k].0 := Slot(fp' + 1, s0[order[k].0].length)]
    requires 0 <= fp' + 1 && s0[order[k].0].offset + s0[order[k].0].length <= fp + 1
    requires d' == Written(d, fp' + 1, d[s0[order[k].0].offset .. s0[order[k].0].offset + s0[order[k].0].length])
    ensures MovedAbove(s0, d0, s', d', s0[order[k].0].offset, fp')
  {
    var c := order[k].0;
    var len := s0[c].length;
    var off := s0[c].offset;
    MoveKeepsBounds(s0, d0, order, k, lastOff, s, d, fp, fp');
    NextToMove(s0, order, k, lastOff, |d0|);
    MovedTarget(s0, d0, s, d, fp, s', d', fp', c);
    forall j | 0 <= j < |s0| && Live(s0[j]) && s0[j].offset >= off
      ensures Moved(s0, d0, s', d', fp', j)
    {
      if j != c {
        assert s0[j].offset >= lastOff;
        MovedStaysMoved(s0, d0, s, d, fp, s', d', fp', j, d[off .. off + len]);
      }
    }
  }

  /** The record just moved lands at fp' + 1 with its old bytes. */
  lemma MovedTarget(s0: seq<Slot>, d0: seq<bv8>, s: seq<Slot>, d: seq<bv8>, fp: int,
                    s': seq<Slot>, d': seq<bv8>, fp': int, c: int)
    requires 0 <= c < |s0| == |s| == |s'| && |d| == |d0|
    requires Live(s0[c]) && RecordsInBounds(s0, 0, |d0|)
    requires s'[c] == Slot(fp' + 1, s0[c].length)
    requires 0 <= fp' + 1 && fp' + 1 + s0[c].length == fp + 1 <= |d0|
    requires fp' + 1 == |d0| - LiveBytesAtOrAbove(s0, s0[c].offset)
    requires s0[c].offset + s0[c].length <= fp + 1
    requires forall b :: 0 <= b <= fp && b < |d0| ==> d[b] == d0[b]
    requires d' == Written(d, fp' + 1, d[s0[c].offset .. s0[c].offset + s0[c].length])
    ensures Moved(s0, d0, s', d', fp', c)
  {
    var off := s0[c].offset;
    var len := s0[c].length;
    assert d'[fp' + 1 .. fp + 1] == d[off .. off + len];
    assert d[off .. off + len] == d0[off .. off + len];
  }

  /** A record moved earlier sits above the free pointer, so writing the bytes
      just below it leaves that record in place. */
  lemma MovedStaysMoved(s0: seq<Slot>, d0: seq<bv8>, s: seq<Slot>, d: seq<bv8>, fp: int,
                        s': seq<Slot>, d': seq<bv8>, fp': int, j: int, bytes: seq<bv8>)
    requires 0 <= j < |s0| == |s| == |s'| && |d| == |d0|
    requires Moved(s0, d0, s, d, fp, j) && s'[j] == s[j]
    requires 0 <= fp' + 1 && fp' + 1 + |bytes| == fp + 1
    requires d' == Written(d, fp' + 1, bytes)
    ensures Moved(s0, d0, s', d', fp', j)
  {
    assert d'[s[j].offset .. s[j].offset + s0[j].length] == d[s[j].offset .. s[j].offset + s0[j].length];
  }

  /** Moving record c writes nothing at or below the new free pointer, and on
      an already packed directory writes c's bytes back where they were. */
  lemma MoveKeepsData(s0: seq<Slot>, d0: seq<bv8>, order: seq<IndexOffset>, k: int, lastOff: int,
                      s: seq<Slot>, d: seq<bv8>, fp: int, s': seq<Slot>, d': seq<bv8>, fp': int)
    requires Progress(s0, d0, order, k, lastOff, s, d, fp)
    requires k < |order| && Live(s0[order[k].0])
    requires fp' == fp - s0[order[k].0].length
    requires s' == s[order[k].0 := Slot(fp' + 1, s0[order[k].0].length)]
    requires 0 <= fp' + 1 && s0[order[k].0].offset + s0[order[k].0].length <= fp + 1
    requires d' == Written(d, fp' + 1, d[s0[order[k].0].offset .. s0[order[k].0].offset + s0[order[k].0].length])
    ensures DataKept(s0, d0, s', d', fp')
  {
    var c := order[k].0;
    if Packed(s0, |d0|) {
      NextToMove(s0, order, k, lastOff, |d0|);
      assert s0[c].offset == fp' + 1;
      WrittenInPlace(d0, s0[c].offset, s0[c].length);
    }
  }

  /** Visiting a live record c and moving it to fp' + 1 = fp + 1 - length
      keeps the compaction state. */
  lemma ProgressMove(s0: seq<Slot>, d0: seq<bv8>, order: seq<IndexOffset>, k: int, lastOff: int,
                     s: seq<Slot>, d: seq<bv8>, fp: int, s': seq<Slot>, d': seq<bv8>, fp': int)
    requires Progress(s0, d0, order, k, lastOff, s, d, fp)
    requires k < |order| && Live(s0[order[k].0])
    requires fp' == fp - s0[order[k].0].length
    requires s' == s[order[k].0 := Slot(fp' + 1, s0[order[k].0].length)]
    requires 0 <= fp' + 1 && s0[order[k].0].offset + s0[order[k].0].length <= fp + 1
    requires d' == Written(d, fp' + 1, d[s0[order[k].0].offset .. s0[order[k].0].offset + s0[order[k].0].length])
    ensures Progress(s0, d0, order, k + 1, s0[order[k].0].offset, s', d', fp')
  {
    MoveKeepsBounds(s0, d0, order, k, lastOff, s, d, fp, fp');
    MoveKeepsUnmoved(s0, d0, order, k, lastOff, s, d, fp, s', fp');
    MoveKeepsMoved(s0, d0, order, k, lastOff, s, d, fp, s', d', fp');
    MoveKeepsData(s0, d0, order, k, lastOff, s, d, fp, s', d', fp');
  }

  /** The step of the compaction loop that moves the live record c = order[k].0
      of state (s, d, fp): its bytes d[from .. end] lie below fp + 1, they go to
      the len bytes from `to` = fp + 1 - len on, and the resulting directory s'
      and data d' keep the compaction state, with lastOff = from. */
  lemma MoveStep(s0: seq<Slot>, d0: seq<bv8>, order: seq<IndexOffset>, k: int, lastOff: int,
                 s: seq<Slot>, d: seq<bv8>, fp: int, c: int, from: int, end: int, len: int, to: int)
    returns (s': seq<Slot>, d': seq<bv8>)
    requires Progress(s0, d0, order, k, lastOff, s, d, fp)
    requires k < |order| && c == order[k].0 && Live(s0[c])
    requires from == s[c].offset && len == s[c].length && end == from + len && to == fp + 1 - len
    ensures s[c] == s0[c] && 0 < len && 0 <= from && 0 <= to && end <= fp + 1 <= |d|
    ensures s' == s[c := Slot(to, len)]
    ensures d' == Written(d, to, d[from .. end])
    ensures Progress(s0, d0, order, k + 1, from, s', d', to - 1)
  {
    MoveKeepsBounds(s0, d0, order, k, lastOff, s, d, fp, to - 1);
    s' := s[c := Slot(to, len)];
    d' := Written(d, to, d[from .. end]);
    ProgressMove(s0, d0, order, k, lastOff, s, d, fp, s', d', to - 1);
  }

  /** After the last step every live record has been moved: the directory is
      the compaction of s0, the free pointer sits below all live bytes, and
      every record holds its old bytes. */
  lemma ProgressEnd(s0: seq<Slot>, d0: seq<bv8>, order: seq<IndexOffset>, lastOff: int,
                    s: seq<Slot>, d: seq<bv8>, fp: int)
    requires Progress(s0, d0, order, |order|, lastOff, s, d, fp)
    ensures CompactedFrom(s0, s, |d0|)
    ensures fp == |d0| - 1 - LiveBytes(s0)
    ensures forall b :: 0 <= b <= fp && b < |d0| ==> d[b] == d0[b]
    ensures Packed(s0, |d0|) ==> s == s0 && d == d0
    ensures RecordsInBounds(s, 0, |d|) && RecordMap(s, d) == RecordMap(s0, d0)
  {
    forall j | 0 <= j < |s0| && Live(s0[j]) ensures s0[j].offset >= lastOff {
      var p := PositionOf(s0, order, j);
    }
    AtOrAboveAll(s0, lastOff);
    forall j | 0 <= j < |s0| && Live(s0[j])
      ensures d[s[j].offset .. s[j].offset + s[j].length] == d0[s0[j].offset .. s0[j].offset + s0[j].length]
    {
      assert Moved(s0, d0, s, d, fp, j);
    }
    RecordMapContents(s0, d0);
    RecordMapIs(s, d, RecordMap(s0, d0));
  }
}

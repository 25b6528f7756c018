// The layout of a heap page's data area: the slot directory grows forward from
// byte 0, record bytes are packed backward from the end, and free-space
// accounting sums the lengths of the live records. Also the specification of
// compaction and what it guarantees about the layout.

module PageLayout {
  import opened SlotDirectory

  /** The record bytes of two descriptors do not intersect. */
  predicate Disjoint(a: Slot, b: Slot)
  {
    a.offset + a.length <= b.offset || b.offset + b.length <= a.offset
  }

  /** Every live record is non-empty and lies in [lo, ds). */
  predicate RecordsInBounds(s: seq<Slot>, lo: int, ds: int)
  {
    forall i :: 0 <= i < |s| && Live(s[i]) ==>
      0 < s[i].length && lo <= s[i].offset && s[i].offset + s[i].length <= ds
  }

  predicate RecordsDisjoint(s: seq<Slot>)
  {
    forall i, j :: 0 <= i < |s| && 0 <= j < |s| && i != j && Live(s[i]) && Live(s[j]) ==> Disjoint(s[i], s[j])
  }

  /** The layout invariant: freePtr is the index of the last free byte, the
      directory [0, SLOT_SIZE * |s|) ends at or before freePtr + 1, and the
      live records are pairwise disjoint inside [freePtr + 1, ds). */
  predicate WellFormed(s: seq<Slot>, freePtr: int, ds: int)
  {
    && SLOT_SIZE * |s| <= freePtr + 1 <= ds
    && RecordsInBounds(s, freePtr + 1, ds)
    && RecordsDisjoint(s)
  }

  /** Bytes a descriptor accounts for: its length if live, 0 for a tombstone. */
  function LiveLength(s: Slot): int
  {
    if SlotIsEmpty(s) then 0 else s.length
  }

  /** The data area after memcpy(at, bytes): the bytes replace [at, at + |bytes|),
      everything else is as before. */
  function Written(d: seq<bv8>, at: int, bytes: seq<bv8>): (r: seq<bv8>)
    requires 0 <= at && at + |bytes| <= |d|
    ensures |r| == |d|
    ensures forall b :: 0 <= b < |d| ==> r[b] == if at <= b < at + |bytes| then bytes[b - at] else d[b]
  {
    d[..at] + bytes + d[at + |bytes|..]
  }

  /** Writing back the bytes already in place changes nothing. */
  lemma WrittenInPlace(d: seq<bv8>, at: int, len: int)
    requires 0 <= at && 0 <= len && at + len <= |d|
    ensures Written(d, at, d[at .. at + len]) == d
  {
    assert forall b :: 0 <= b < |d| ==> Written(d, at, d[at .. at + len])[b] == d[b];
  }

  /** The records a directory and a data area hold, by slot number. */
  function RecordMap(s: seq<Slot>, d: seq<bv8>): map<int, seq<bv8>>
    requires RecordsInBounds(s, 0, |d|)
  {
    if s == [] then map[]
    else
      var last := s[|s| - 1];
      var m := RecordMap(s[..|s| - 1], d);
      if Live(last) then m[|s| - 1 := d[last.offset .. last.offset + last.length]] else m
  }

  /** The record map holds exactly the live slots, each mapped to its bytes. */
  lemma {:induction false} RecordMapContents(s: seq<Slot>, d: seq<bv8>)
    requires RecordsInBounds(s, 0, |d|)
    ensures forall k :: k in RecordMap(s, d) <==> 0 <= k < |s| && Live(s[k])
    ensures forall k :: 0 <= k < |s| && Live(s[k]) ==>
      RecordMap(s, d)[k] == d[s[k].offset .. s[k].offset + s[k].length]
  {
    if s != [] {
      var t := s[..|s| - 1];
      RecordMapContents(t, d);
      assert forall k :: 0 <= k < |t| ==> t[k] == s[k];
    }
  }

  /** A map that holds exactly the live slots of s, each with its bytes in d,
      is the record map. */
  lemma RecordMapIs(s: seq<Slot>, d: seq<bv8>, m: map<int, seq<bv8>>)
    requires RecordsInBounds(s, 0, |d|)
    requires forall k :: k in m <==> 0 <= k < |s| && Live(s[k])
    requires forall k :: 0 <= k < |s| && Live(s[k]) ==> m[k] == d[s[k].offset .. s[k].offset + s[k].length]
    ensures RecordMap(s, d) == m
  {
    var r := RecordMap(s, d);
    RecordMapContents(s, d);
    assert forall k :: k in r.Keys <==> k in m.Keys;
    assert r.Keys == m.Keys;
    assert forall k :: k in r ==> r[k] == m[k];
  }

  /** Writing a record into a tombstone's descriptor and into bytes no live
      record uses adds exactly that record. */
  lemma RecordMapWrite(s: seq<Slot>, d: seq<bv8>, i: int, at: int, bytes: seq<bv8>)
    requires RecordsInBounds(s, 0, |d|)
    requires 0 <= i < |s| && SlotIsEmpty(s[i])
    requires 0 <= at && 0 < |bytes| && at + |bytes| <= |d|
    requires forall j :: 0 <= j < |s| && Live(s[j]) ==> Disjoint(s[j], Slot(at, |bytes|))
    ensures RecordsInBounds(s[i := Slot(at, |bytes|)], 0, |d|)
    ensures RecordMap(s[i := Slot(at, |bytes|)], Written(d, at, bytes)) == RecordMap(s, d)[i := bytes]
  {
    var s' := s[i := Slot(at, |bytes|)];
    var d' := Written(d, at, bytes);
    RecordMapContents(s, d);
    assert d'[at .. at + |bytes|] == bytes;
    forall j | 0 <= j < |s| && j != i && Live(s[j])
      ensures d'[s[j].offset .. s[j].offset + s[j].length] == d[s[j].offset .. s[j].offset + s[j].length]
    {
      assert Disjoint(s[j], Slot(at, |bytes|));
    }
    RecordMapIs(s', d', RecordMap(s, d)[i := bytes]);
  }

  /** Marking a descriptor as a tombstone drops exactly its record. */
  lemma RecordMapErase(s: seq<Slot>, d: seq<bv8>, i: int)
    requires RecordsInBounds(s, 0, |d|) && 0 <= i < |s|
    ensures RecordsInBounds(s[i := Slot(s[i].offset, INVALID_SLOT)], 0, |d|)
    ensures RecordMap(s[i := Slot(s[i].offset, INVALID_SLOT)], d) == RecordMap(s, d) - {i}
  {
    RecordMapContents(s, d);
    RecordMapIs(s[i := Slot(s[i].offset, INVALID_SLOT)], d, RecordMap(s, d) - {i});
  }

  /** Every key of the record map is a slot number of s. */
  lemma {:induction false} RecordMapKeys(s: seq<Slot>, d: seq<bv8>)
    requires RecordsInBounds(s, 0, |d|)
    ensures forall k :: k in RecordMap(s, d) ==> 0 <= k < |s|
  {
    if s != [] {
      var t := s[..|s| - 1];
      assert RecordsInBounds(t, 0, |d|) by {
        assert forall i :: 0 <= i < |t| ==> t[i] == s[i];
      }
      RecordMapKeys(t, d);
    }
  }

  /** Dropping the last descriptor drops exactly its record. */
  lemma RecordMapTruncate(s: seq<Slot>, d: seq<bv8>)
    requires RecordsInBounds(s, 0, |d|) && s != []
    ensures RecordsInBounds(s[..|s| - 1], 0, |d|)
    ensures RecordMap(s[..|s| - 1], d) == RecordMap(s, d) - {|s| - 1}
  {
    PrefixInBounds(s, d);
    RecordMapKeys(s[..|s| - 1], d);
    RecordMapDropLast(s, d);
  }

  /** Live records of a directory prefix are in bounds when those of the whole are. */
  lemma PrefixInBounds(s: seq<Slot>, d: seq<bv8>)
    requires RecordsInBounds(s, 0, |d|) && s != []
    ensures RecordsInBounds(s[..|s| - 1], 0, |d|)
  {
    var t := s[..|s| - 1];
    assert forall i :: 0 <= i < |t| ==> t[i] == s[i];
  }

  /** The record map of s without its last descriptor, given that the map of
      the prefix has no entry for it. */
  lemma RecordMapDropLast(s: seq<Slot>, d: seq<bv8>)
    requires RecordsInBounds(s, 0, |d|) && s != []
    requires RecordsInBounds(s[..|s| - 1], 0, |d|)
    requires |s| - 1 !in RecordMap(s[..|s| - 1], d)
    ensures RecordMap(s[..|s| - 1], d) == RecordMap(s, d) - {|s| - 1}
  {
  }

  /** Bytes at or below the free pointer are disjoint from every live record. */
  lemma FreeBytesAreUnused(s: seq<Slot>, freePtr: int, ds: int, at: int, len: int)
    requires WellFormed(s, freePtr, ds)
    requires at + len <= freePtr + 1
    ensures RecordsInBounds(s, 0, ds)
    ensures forall j :: 0 <= j < |s| && Live(s[j]) ==> Disjoint(s[j], Slot(at, len))
  {
  }

  /** Writing a record of len bytes just below the free pointer into a
      tombstone descriptor keeps the layout well formed, with the free pointer
      len bytes lower and len more live bytes. */
  lemma PlaceLayout(s: seq<Slot>, freePtr: int, ds: int, i: int, len: int)
    requires WellFormed(s, freePtr, ds)
    requires 0 <= i < |s| && SlotIsEmpty(s[i])
    requires 0 < len && SLOT_SIZE * |s| <= freePtr + 1 - len
    ensures RecordsInBounds(s, 0, ds)
    ensures forall j :: 0 <= j < |s| && Live(s[j]) ==> Disjoint(s[j], Slot(freePtr + 1 - len, len))
    ensures WellFormed(s[i := Slot(freePtr + 1 - len, len)], freePtr - len, ds)
    ensures LiveBytes(s[i := Slot(freePtr + 1 - len, len)]) == LiveBytes(s) + len
  {
    LiveBytesUpdate(s, i, Slot(freePtr + 1 - len, len));
  }

  /** Descriptor i occupies bytes [SLOT_SIZE * i, SLOT_SIZE * i + SLOT_SIZE);
      in a well formed page no live record reaches into any of them. */
  lemma DirectoryBelowRecords(s: seq<Slot>, freePtr: int, ds: int, i: int, j: int)
    requires WellFormed(s, freePtr, ds)
    requires 0 <= i < |s| && 0 <= j < |s| && Live(s[j])
    ensures SLOT_SIZE * i + SLOT_SIZE <= s[j].offset && s[j].offset + s[j].length <= ds
  {
  }

  /** Turning descriptor i into a tombstone keeps the layout well formed and
      takes its record's bytes off the live total. */
  lemma EraseLayout(s: seq<Slot>, freePtr: int, ds: int, i: int)
    requires WellFormed(s, freePtr, ds) && 0 <= i < |s|
    ensures WellFormed(s[i := Slot(s[i].offset, INVALID_SLOT)], freePtr, ds)
    ensures LiveBytes(s[i := Slot(s[i].offset, INVALID_SLOT)]) == LiveBytes(s) - LiveLength(s[i])
  {
    LiveBytesUpdate(s, i, Slot(s[i].offset, INVALID_SLOT));
  }

  /** Dropping the last descriptor keeps the layout well formed and takes its
      record's bytes off the live total. */
  lemma TruncateLayout(s: seq<Slot>, freePtr: int, ds: int)
    requires WellFormed(s, freePtr, ds) && s != []
    ensures WellFormed(s[..|s| - 1], freePtr, ds)
    ensures LiveBytes(s[..|s| - 1]) == LiveBytes(s) - LiveLength(s[|s| - 1])
  {
    var t := s[..|s| - 1];
    assert forall i :: 0 <= i < |t| ==> t[i] == s[i];
  }

  /** After record i is deleted, no remaining record starts where it started,
      and neither does the end of the data area; so the lowest remaining
      offset, which is one of the two, differs from record i's offset. */
  lemma DeletedOffsetIsNotSmallest(s: seq<Slot>, t: seq<Slot>, i: int, ds: int, smallest: int)
    requires RecordsInBounds(s, 0, ds) && RecordsDisjoint(s)
    requires 0 <= i < |s| && Live(s[i]) && |t| <= |s|
    requires forall j :: 0 <= j < |t| && Live(t[j]) ==> j != i && t[j] == s[j]
    requires smallest == ds || exists j :: 0 <= j < |t| && Live(t[j]) && t[j].offset == smallest
    ensures smallest != s[i].offset
  {
    if smallest != ds {
      var j :| 0 <= j < |t| && Live(t[j]) && t[j].offset == smallest;
      assert Disjoint(s[i], s[j]);
    }
  }

  /** Sum of the lengths of the live records. */
  function LiveBytes(s: seq<Slot>): int
  {
    if s == [] then 0 else LiveBytes(s[..|s| - 1]) + LiveLength(s[|s| - 1])
  }

  /** Sum of the lengths of the live records whose offset is at least t. */
  function LiveBytesAtOrAbove(s: seq<Slot>, t: int): int
  {
    if s == [] then 0
    else
      var last := s[|s| - 1];
      LiveBytesAtOrAbove(s[..|s| - 1], t) + (if Live(last) && last.offset >= t then last.length else 0)
  }

  lemma LiveBytesAppend(s: seq<Slot>, x: Slot)
    ensures LiveBytes(s + [x]) == LiveBytes(s) + LiveLength(x)
  {
    assert (s + [x])[..|s|] == s;
  }

  /** Rewriting one descriptor changes the sum by the difference of the two. */
  lemma {:induction false} LiveBytesUpdate(s: seq<Slot>, i: int, x: Slot)
    requires 0 <= i < |s|
    ensures LiveBytes(s[i := x]) == LiveBytes(s) - LiveLength(s[i]) + LiveLength(x)
  {
    var n := |s|;
    if i < n - 1 {
      assert s[i := x][..n - 1] == s[..n - 1][i := x];
      LiveBytesUpdate(s[..n - 1], i, x);
    } else {
      assert s[i := x][..n - 1] == s[..n - 1];
    }
  }

  /** When no slot other than i is live, the sum is i's own length. */
  lemma {:induction false} LiveBytesSole(s: seq<Slot>, i: int)
    requires 0 <= i < |s|
    requires forall j :: 0 <= j < |s| && j != i ==> SlotIsEmpty(s[j])
    ensures LiveBytes(s) == LiveLength(s[i])
  {
    var n := |s|;
    if i < n - 1 {
      LiveBytesSole(s[..n - 1], i);
    } else {
      LiveBytesNone(s[..n - 1]);
    }
  }

  lemma {:induction false} LiveBytesNone(s: seq<Slot>)
    requires forall j :: 0 <= j < |s| ==> SlotIsEmpty(s[j])
    ensures LiveBytes(s) == 0
  {
    if s != [] {
      LiveBytesNone(s[..|s| - 1]);
    }
  }

  /** Two directories with the same lengths, slot by slot, have the same sum. */
  lemma {:induction false} LiveBytesSameLengths(s0: seq<Slot>, s1: seq<Slot>)
    requires |s0| == |s1|
    requires forall i :: 0 <= i < |s0| ==> s0[i].length == s1[i].length
    ensures LiveBytes(s0) == LiveBytes(s1)
  {
    if s0 != [] {
      LiveBytesSameLengths(s0[..|s0| - 1], s1[..|s1| - 1]);
    }
  }

  /** With no live record at or above t, nothing is summed. */
  lemma {:induction false} AtOrAboveNone(s: seq<Slot>, t: int)
    requires forall j :: 0 <= j < |s| && Live(s[j]) ==> s[j].offset < t
    ensures LiveBytesAtOrAbove(s, t) == 0
  {
    if s != [] {
      AtOrAboveNone(s[..|s| - 1], t);
    }
  }

  /** With every live record at or above t, everything is summed. */
  lemma {:induction false} AtOrAboveAll(s: seq<Slot>, t: int)
    requires forall j :: 0 <= j < |s| && Live(s[j]) ==> s[j].offset >= t
    ensures LiveBytesAtOrAbove(s, t) == LiveBytes(s)
  {
    if s != [] {
      AtOrAboveAll(s[..|s| - 1], t);
    }
  }

  /** No live record starts in [lo, hi): the two thresholds give the same sum. */
  lemma {:induction false} AtOrAboveGap(s: seq<Slot>, lo: int, hi: int)
    requires lo <= hi
    requires forall j :: 0 <= j < |s| && Live(s[j]) ==> s[j].offset < lo || s[j].offset >= hi
    ensures LiveBytesAtOrAbove(s, lo) == LiveBytesAtOrAbove(s, hi)
  {
    if s != [] {
      AtOrAboveGap(s[..|s| - 1], lo, hi);
    }
  }

  /** Only record c starts in [s[c].offset, hi): lowering the threshold from hi
      to c's offset adds exactly c's length. */
  lemma {:induction false} AtOrAboveStep(s: seq<Slot>, c: int, hi: int)
    requires 0 <= c < |s| && Live(s[c]) && s[c].offset < hi
    requires forall j :: 0 <= j < |s| && j != c && Live(s[j]) ==> s[j].offset < s[c].offset || s[j].offset >= hi
    ensures LiveBytesAtOrAbove(s, s[c].offset) == LiveBytesAtOrAbove(s, hi) + s[c].length
  {
    var n := |s|;
    if c < n - 1 {
      AtOrAboveStep(s[..n - 1], c, hi);
    } else {
      AtOrAboveGap(s[..n - 1], s[c].offset, hi);
    }
  }

  /** A higher threshold never sums more. */
  lemma {:induction false} AtOrAboveMonotone(s: seq<Slot>, t1: int, t2: int)
    requires t1 <= t2
    requires forall j :: 0 <= j < |s| && Live(s[j]) ==> 0 < s[j].length
    ensures LiveBytesAtOrAbove(s, t2) <= LiveBytesAtOrAbove(s, t1)
  {
    if s != [] {
      AtOrAboveMonotone(s[..|s| - 1], t1, t2);
    }
  }

  /** Two directories that agree, slot by slot, on which records are summed and
      on their lengths have the same sum. */
  lemma {:induction false} AtOrAboveSameMembers(s0: seq<Slot>, t0: int, s1: seq<Slot>, t1: int)
    requires |s0| == |s1|
    requires forall j :: 0 <= j < |s0| ==>
      (Live(s0[j]) && s0[j].offset >= t0 <==> Live(s1[j]) && s1[j].offset >= t1)
    requires forall j :: 0 <= j < |s0| ==> s0[j].length == s1[j].length
    ensures LiveBytesAtOrAbove(s0, t0) == LiveBytesAtOrAbove(s1, t1)
  {
    if s0 != [] {
      AtOrAboveSameMembers(s0[..|s0| - 1], t0, s1[..|s1| - 1], t1);
    }
  }

  /** Disjoint records at or above t fit in [t, ds). */
  lemma {:induction false} AtOrAboveFits(s: seq<Slot>, t: int, ds: int)
    requires t <= ds
    requires RecordsInBounds(s, 0, ds) && RecordsDisjoint(s)
    ensures LiveBytesAtOrAbove(s, t) <= ds - t
    decreases ds - t
  {
    if t == ds {
      AtOrAboveNone(s, t);
    } else if c :| 0 <= c < |s| && Live(s[c]) && s[c].offset == t {
      var hi := t + s[c].length;
      forall j | 0 <= j < |s| && j != c && Live(s[j]) ensures s[j].offset < t || s[j].offset >= hi {
        assert Disjoint(s[c], s[j]);
      }
      AtOrAboveStep(s, c, hi);
      AtOrAboveFits(s, hi, ds);
    } else {
      AtOrAboveGap(s, t, t + 1);
      AtOrAboveFits(s, t + 1, ds);
    }
  }

  /** The live records of a well-formed page fit between the directory and the
      end of the data area: free space is never negative, and contiguous free
      space never exceeds it. */
  lemma LiveBytesFit(s: seq<Slot>, freePtr: int, ds: int)
    requires WellFormed(s, freePtr, ds)
    ensures 0 <= LiveBytes(s) <= ds - (freePtr + 1)
    ensures SLOT_SIZE * |s| + LiveBytes(s) <= ds
  {
    AtOrAboveAll(s, freePtr + 1);
    AtOrAboveFits(s, freePtr + 1, ds);
    AtOrAboveAll(s, 0);
    AtOrAboveMonotone(s, 0, ds);
    AtOrAboveNone(s, ds);
  }

  /** What compaction does to the directory: lengths and tombstones stay, and a
      live record moves to ds minus the bytes of the live records at or above
      its old offset, i.e. the records are packed against the end of the data
      area in descending order of their old offsets. */
  predicate CompactedFrom(s0: seq<Slot>, s1: seq<Slot>, ds: int)
  {
    && |s1| == |s0|
    && forall i :: 0 <= i < |s0| ==>
         s1[i].length == s0[i].length &&
         (if Live(s0[i]) then s1[i].offset == ds - LiveBytesAtOrAbove(s0, s0[i].offset) else s1[i] == s0[i])
  }

  /** A directory whose live records are already packed in that way. */
  predicate Packed(s: seq<Slot>, ds: int)
  {
    forall i :: 0 <= i < |s| && Live(s[i]) ==> s[i].offset == ds - LiveBytesAtOrAbove(s, s[i].offset)
  }

  /** A live record's old offset lies below another's exactly when its new one does. */
  lemma CompactionKeepsOrder(s0: seq<Slot>, s1: seq<Slot>, ds: int, i: int, j: int)
    requires RecordsInBounds(s0, 0, ds) && RecordsDisjoint(s0) && CompactedFrom(s0, s1, ds)
    requires 0 <= i < |s0| && 0 <= j < |s0| && Live(s0[i]) && Live(s0[j])
    ensures s0[i].offset <= s0[j].offset <==> s1[i].offset <= s1[j].offset
    ensures i != j && s0[i].offset < s0[j].offset ==> s1[i].offset + s1[i].length <= s1[j].offset
  {
    if s0[i].offset <= s0[j].offset {
      AtOrAboveMonotone(s0, s0[i].offset, s0[j].offset);
    } else {
      AtOrAboveMonotone(s0, s0[j].offset, s0[i].offset);
    }
    if i != j && s0[i].offset < s0[j].offset {
      StepAt(s0, ds, i);
      AtOrAboveMonotone(s0, s0[i].offset + 1, s0[j].offset);
    }
    if s0[j].offset < s0[i].offset {
      StepAt(s0, ds, j);
      AtOrAboveMonotone(s0, s0[j].offset + 1, s0[i].offset);
    }
  }

  /** Live offsets are distinct, so the record at a live offset is counted once. */
  lemma StepAt(s: seq<Slot>, ds: int, c: int)
    requires RecordsInBounds(s, 0, ds) && RecordsDisjoint(s)
    requires 0 <= c < |s| && Live(s[c])
    ensures LiveBytesAtOrAbove(s, s[c].offset) == LiveBytesAtOrAbove(s, s[c].offset + 1) + s[c].length
  {
    forall j | 0 <= j < |s| && j != c && Live(s[j]) ensures s[j].offset < s[c].offset || s[j].offset >= s[c].offset + 1 {
      assert Disjoint(s[c], s[j]);
    }
    AtOrAboveStep(s, c, s[c].offset + 1);
  }

  /** Compaction of a well-formed directory yields a well-formed directory with
      freePtr = ds - 1 - (live bytes), the same live bytes, and packed records. */
  lemma CompactionLayout(s0: seq<Slot>, s1: seq<Slot>, freePtr: int, ds: int)
    requires WellFormed(s0, freePtr, ds) && CompactedFrom(s0, s1, ds)
    ensures LiveBytes(s1) == LiveBytes(s0)
    ensures WellFormed(s1, ds - 1 - LiveBytes(s0), ds)
    ensures Packed(s1, ds)
  {
    LiveBytesSameLengths(s0, s1);
    LiveBytesFit(s0, freePtr, ds);
    CompactionInBounds(s0, s1, freePtr, ds);
    CompactionDisjoint(s0, s1, ds);
    CompactionPacked(s0, s1, ds);
  }

  /** Compacted records lie in the last LiveBytes(s0) bytes of the data area. */
  lemma CompactionInBounds(s0: seq<Slot>, s1: seq<Slot>, freePtr: int, ds: int)
    requires WellFormed(s0, freePtr, ds) && CompactedFrom(s0, s1, ds)
    ensures RecordsInBounds(s1, ds - LiveBytes(s0), ds)
  {
    AtOrAboveAll(s0, freePtr + 1);
    assert RecordsInBounds(s0, 0, ds);
    forall i | 0 <= i < |s1| && Live(s1[i])
      ensures 0 < s1[i].length && ds - LiveBytes(s0) <= s1[i].offset && s1[i].offset + s1[i].length <= ds
    {
      AtOrAboveMonotone(s0, freePtr + 1, s0[i].offset);
      StepAt(s0, ds, i);
      AtOrAboveMonotone(s0, s0[i].offset + 1, ds);
      AtOrAboveNone(s0, ds);
    }
  }

  /** Compacted records do not overlap. */
  lemma CompactionDisjoint(s0: seq<Slot>, s1: seq<Slot>, ds: int)
    requires RecordsInBounds(s0, 0, ds) && RecordsDisjoint(s0) && CompactedFrom(s0, s1, ds)
    ensures RecordsDisjoint(s1)
  {
    forall i, j | 0 <= i < |s1| && 0 <= j < |s1| && i != j && Live(s1[i]) && Live(s1[j])
      ensures Disjoint(s1[i], s1[j])
    {
      assert Disjoint(s0[i], s0[j]);
      CompactionKeepsOrder(s0, s1, ds, i, j);
      CompactionKeepsOrder(s0, s1, ds, j, i);
    }
  }

  /** Compacted records are packed. */
  lemma CompactionPacked(s0: seq<Slot>, s1: seq<Slot>, ds: int)
    requires RecordsInBounds(s0, 0, ds) && RecordsDisjoint(s0) && CompactedFrom(s0, s1, ds)
    ensures Packed(s1, ds)
  {
    forall i | 0 <= i < |s1| && Live(s1[i])
      ensures s1[i].offset == ds - LiveBytesAtOrAbove(s1, s1[i].offset)
    {
      forall j | 0 <= j < |s0|
        ensures Live(s0[j]) && s0[j].offset >= s0[i].offset <==> Live(s1[j]) && s1[j].offset >= s1[i].offset
      {
        if Live(s0[j]) {
          CompactionKeepsOrder(s0, s1, ds, i, j);
        }
      }
      AtOrAboveSameMembers(s0, s0[i].offset, s1, s1[i].offset);
    }
  }

  /** Compacting a packed directory changes nothing, so compacting twice is
      the same as compacting once. */
  lemma CompactionOfPackedIsIdentity(s0: seq<Slot>, s1: seq<Slot>, ds: int)
    requires Packed(s0, ds) && CompactedFrom(s0, s1, ds)
    ensures s1 == s0
  {
    forall i | 0 <= i < |s0| ensures s1[i] == s0[i] {
    }
  }

  lemma CompactionIsIdempotent(s0: seq<Slot>, s1: seq<Slot>, s2: seq<Slot>, freePtr: int, ds: int)
    requires WellFormed(s0, freePtr, ds)
    requires CompactedFrom(s0, s1, ds) && CompactedFrom(s1, s2, ds)
    ensures s2 == s1
  {
    CompactionLayout(s0, s1, freePtr, ds);
    CompactionOfPackedIsIdentity(s1, s2, ds);
  }
}

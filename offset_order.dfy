// The ordering step of compaction: the (slot index, offset) pairs of the
// directory sorted by descending offset, so that the record nearest the end of
// the data area is moved first.

module OffsetOrder {

  /** A slot index paired with that slot's offset. */
  type IndexOffset = (int, int)

  predicate DescendingByOffset(s: seq<IndexOffset>)
  {
    forall p, q :: 0 <= p < q < |s| ==> s[p].1 >= s[q].1
  }

  predicate DistinctIndices(s: seq<IndexOffset>)
  {
    forall p, q :: 0 <= p < q < |s| ==> s[p].0 != s[q].0
  }

  /** Places x in front of the first pair whose offset is not above x's. */
  function InsertByOffset(x: IndexOffset, s: seq<IndexOffset>): (r: seq<IndexOffset>)
    requires DescendingByOffset(s)
    ensures DescendingByOffset(r)
    ensures multiset(r) == multiset(s) + multiset{x}
  {
    if s == [] then [x]
    else if x.1 >= s[0].1 then [x] + s
    else
      var rest := InsertByOffset(x, s[1..]);
      InsertedBelowHead(x, s, rest);
      [s[0]] + rest
  }

  /** Every pair of the recursive result is x or a pair of s, so none has an
      offset above that of s's head. */
  lemma InsertedBelowHead(x: IndexOffset, s: seq<IndexOffset>, rest: seq<IndexOffset>)
    requires DescendingByOffset(s) && s != [] && x.1 < s[0].1
    requires multiset(rest) == multiset(s[1..]) + multiset{x}
    ensures multiset([s[0]] + rest) == multiset(s) + multiset{x}
    ensures forall e :: e in rest ==> e.1 <= s[0].1 && (e in s[1..] || e == x)
  {
    assert s == [s[0]] + s[1..];
    forall e | e in rest ensures e.1 <= s[0].1 && (e in s[1..] || e == x) {
      assert e in multiset(rest);
      if e != x {
        assert e in multiset(s[1..]);
        var p :| 0 <= p < |s[1..]| && s[1..][p] == e;
        assert s[p + 1] == e;
      }
    }
  }

  /** Inserting a pair whose index is new keeps the indices distinct. */
  lemma {:induction false} InsertKeepsIndicesDistinct(x: IndexOffset, s: seq<IndexOffset>)
    requires DescendingByOffset(s) && DistinctIndices(s)
    requires forall e :: e in s ==> e.0 != x.0
    ensures DistinctIndices(InsertByOffset(x, s))
  {
    if s != [] && x.1 < s[0].1 {
      var rest := InsertByOffset(x, s[1..]);
      InsertKeepsIndicesDistinct(x, s[1..]);
      InsertedBelowHead(x, s, rest);
      var r := [s[0]] + rest;
      forall p, q | 0 <= p < q < |r| ensures r[p].0 != r[q].0 {
        if p > 0 {
          assert r[p] == rest[p - 1] && r[q] == rest[q - 1];
        } else {
          assert r[q] == rest[q - 1] && r[q] in rest;
          if r[q] != x {
            var m :| 0 <= m < |s[1..]| && s[1..][m] == r[q];
            assert s[m + 1] == r[q];
          }
        }
      }
    }
  }

  /** The pairs of s ordered by descending offset (insertion sort). */
  function SortByDescendingOffset(s: seq<IndexOffset>): (r: seq<IndexOffset>)
    ensures DescendingByOffset(r)
    ensures multiset(r) == multiset(s)
  {
    if s == [] then []
    else
      assert s == [s[0]] + s[1..];
      InsertByOffset(s[0], SortByDescendingOffset(s[1..]))
  }

  /** Sorting pairs whose slot indices are distinct keeps them distinct. */
  lemma {:induction false} SortKeepsIndicesDistinct(s: seq<IndexOffset>)
    requires DistinctIndices(s)
    ensures DistinctIndices(SortByDescendingOffset(s))
  {
    if s != [] {
      var rest := SortByDescendingOffset(s[1..]);
      SortKeepsIndicesDistinct(s[1..]);
      assert s == [s[0]] + s[1..];
      forall e | e in rest ensures e.0 != s[0].0 {
        assert e in multiset(s[1..]);
        var p :| 0 <= p < |s[1..]| && s[1..][p] == e;
        assert s[p + 1] == e;
      }
      InsertKeepsIndicesDistinct(s[0], rest);
    }
  }
}

/**
 `IxScan` and range scans over the leaf ring.
 */
module IndexScan {
  import opened Options
  import opened IndexRows
  import opened IndexInvariant
  import opened IndexSearch
  import opened IndexCursor
  import opened IndexHandle

  /** A cursor that walks from `iid` to `end`. */
  class IxScan {
    const ih: IxIndexHandle
    var iid: Iid
    const end: Iid

    constructor (ih: IxIndexHandle, lower: Iid, upper: Iid)
      ensures this.ih == ih && iid == lower && end == upper
    {
      this.ih, iid, end := ih, lower, upper;
    }

    function IsEnd(): (r: bool)
      reads this
    {
      iid == end
    }

    /** Advances the cursor by one place. */
    method Next(ghost pos: nat)
      requires ih.Valid() && ih.IsCursor(iid, pos) && pos < |ih.Contents()|
      modifies this
      ensures ih.IsCursor(iid, pos + 1)
    {
      hide Flat, Off, Frame, Sized, Count;
      ghost var j: nat :| Cursor(ih.t[0], j, iid.slotNo) && ih.t[0][j].page == iid.pageNo &&
      pos == Off(ih.t[0], j) + iid.slotNo;
      CursorAt(ih.t[0], j, iid.slotNo);
      ih.LeafFacts(j);
      var node := ih.pages[iid.pageNo];
      iid := Iid(iid.pageNo, iid.slotNo + 1);
      if iid.pageNo != ih.lastLeaf && iid.slotNo == |node.ents| {
        NextLeafCursor(ih.t[0], j);
        iid := Iid(node.next, 0);
        assert Cursor(ih.t[0], j + 1, 0);
      } else {
        assert Cursor(ih.t[0], j, iid.slotNo);
      }
    }
  }

  /** Equal cursors denote equal places. */
  lemma {:induction false} SamePlace(ih: IxIndexHandle, a: Iid, b: Iid, x: nat, y: nat)
    requires ih.Valid() && ih.IsCursor(a, x) && ih.IsCursor(b, y)
    ensures a == b <==> x == y
  {
    hide Flat, Off;
    var row := ih.t[0];
    var i: nat :| Cursor(row, i, a.slotNo) && row[i].page == a.pageNo && x == Off(row, i) + a.slotNo;
    var j: nat :| Cursor(row, j, b.slotNo) && row[j].page == b.pageNo && y == Off(row, j) + b.slotNo;
    ih.LeafFacts(i);
    assert RowRep(ih.pages, ih.lvl, row, 0);
    CursorUnique(row, i, a.slotNo, j, b.slotNo);
  }

  /** Some key lies strictly between `hi` and `lo`. */
  ghost predicate Crossed(m: map<int, Rid>, lo: int, hi: int) {
    exists k :: k in m && hi < k < lo
  }

  /** `rid` belongs to the greatest key between `lo` and `hi`. */
  ghost predicate Greatest(m: map<int, Rid>, lo: int, hi: int, rid: Rid) {
    exists k :: k in m && lo <= k <= hi && m[k] == rid && forall x :: x in m && lo <= x <= hi ==> x <= k
  }

  /**
   Scans from `lower_bound(lo)` to `upper_bound(hi)`. The scan runs off the last leaf, where
   reading the entry fails, exactly if some stored key lies strictly between `hi` and `lo`.
   */
  method RangeScan(ih: IxIndexHandle, lo: int, hi: int) returns (r: Option<seq<Rid>>)
    requires ih.Valid()
    ensures r.None? <==> Crossed(ih.AsMap(), lo, hi)
    ensures r.Some? ==> r.value == InRange(ih.Contents(), lo, hi)
  {
    hide Flat, Off, Frame, Sized, Topped, Count, InRange, Cursor, ToMap, Crossed, LowerSpot, UpperSpot, Sorted;
    ghost var s, m := ih.Contents(), ih.AsMap();
    var lower, a := ih.LowerBound(lo);
    var upper, b := ih.UpperBound(hi);
    SpotsCross(s, lo, hi, a, b);
    var scan := new IxScan(ih, lower, upper);
    var out: seq<Rid> := [];
    ghost var pos: nat := a;
    while !scan.IsEnd()
      invariant a <= pos <= |s| && (a <= b ==> pos <= b)
      invariant ih.Valid() && ih.Contents() == s && ih.AsMap() == m && ih.IsCursor(scan.iid, pos)
      invariant out == Rids(s[a..pos])
      decreases |s| - pos
    {
      SamePlace(ih, scan.iid, scan.end, pos, b);
      var rid := ih.GetRid(scan.iid, pos);
      if rid.None? {
        return None;
      }
      out := out + [rid.value];
      RidsGrow(s, a, pos);
      scan.Next(pos);
      pos := pos + 1;
    }
    SamePlace(ih, scan.iid, scan.end, pos, b);
    return Some(out);
  }

  lemma {:induction false} RidsGrow(s: seq<Entry>, a: nat, pos: nat)
    requires a <= pos < |s|
    ensures Rids(s[a..pos + 1]) == Rids(s[a..pos]) + [s[pos].rid]
  {
  }

  lemma {:induction false} SpotsCross(s: seq<Entry>, lo: int, hi: int, a: int, b: int)
    requires Sorted(s) && LowerSpot(s, a, lo) && UpperSpot(s, b, hi)
    ensures 0 <= a <= |s| && 0 <= b <= |s|
    ensures b < a <==> Crossed(ToMap(s), lo, hi)
    ensures a <= b ==> InRange(s, lo, hi) == Rids(s[a..b])
  {
    hide InRange;
    CrossedRange(s, lo, hi, a, b);
    if a <= b {
      RangeBetween(s, lo, hi, a, b);
    }
  }

  /** The entry before `upper_bound(hi)` has the greatest key of a non-empty range. */
  method LastInRange(ih: IxIndexHandle, lo: int, hi: int) returns (r: Option<Rid>)
    requires ih.Valid() && InRange(ih.Contents(), lo, hi) != []
    ensures r.Some? && Greatest(ih.AsMap(), lo, hi, r.value)
  {
    hide Flat, Off, Frame, Sized, Count, InRange, Cursor;
    ghost var s := ih.Contents();
    var upper, b := ih.UpperBound(hi);
    LastKey(s, lo, hi, b);
    r := ih.PrevRid(upper, b);
  }

  lemma {:induction false} LastKey(s: seq<Entry>, lo: int, hi: int, b: int)
    requires Sorted(s) && UpperSpot(s, b, hi) && InRange(s, lo, hi) != []
    ensures 0 < b <= |s| && Greatest(ToMap(s), lo, hi, s[b - 1].rid)
  {
    hide InRange;
    if b == 0 || s[b - 1].key < lo {
      InRangeNone(s, lo, hi);
    }
    MapGet(s, b - 1);
    forall x | x in ToMap(s) && lo <= x <= hi ensures x <= s[b - 1].key {
      var i := MapFind(s, x);
    }
  }
}

/**
 Cursors: slots of the leaf row, the places they denote, and what a key range selects.
 */
module IndexCursor {
  import opened Sequences
  import opened IndexRows
  import opened IndexSearch

  /** A slot of a leaf. */
  datatype Iid = Iid(pageNo: int, slotNo: int)

  /** `(j, s)` is a slot of the row, or the place behind its very last entry. */
  ghost predicate Cursor(row: seq<Box>, j: int, s: int) {
    0 <= j < |row| && (0 <= s < |row[j].ents| || (j + 1 == |row| && s == |row[j].ents|))
  }

  ghost predicate Solid(row: seq<Box>) {
    NonEmpty(row) || |row| == 1
  }

  lemma {:induction false} CursorAt(row: seq<Box>, j: nat, s: nat)
    requires Cursor(row, j, s)
    ensures Off(row, j) + s <= |Flat(row)|
    ensures s < |row[j].ents| <==> Off(row, j) + s < |Flat(row)|
    ensures s < |row[j].ents| ==> Flat(row)[Off(row, j) + s] == row[j].ents[s]
  {
    hide Flat;
    FlatAt(row, j);
    OffEnds(row);
  }

  lemma {:induction false} CursorRange(row: seq<Box>, j: int, s: int)
    requires Cursor(row, j, s)
    ensures 0 <= j < |row| && 0 <= s <= |row[j].ents|
  {
  }

  /** `NodeUpperBound`, corrected for slot 0, is the place of `key` in the page. */
  lemma {:induction false} UpperFixed(ents: seq<Entry>, x: int, key: int)
    requires Sorted(ents) && 0 <= x <= |ents| && (x == 0 ==> ents == [] || key < ents[0].key)
    requires x == 1 ==> ents[0].key <= key
    requires forall i :: 1 <= i < x ==> ents[i].key <= key
    requires forall i :: 1 <= i && x <= i < |ents| ==> key < ents[i].key
    ensures UpperSpot(ents, x, key)
  {
    if x > 1 {
      assert ents[0].key < ents[1].key;
    }
  }

  /** Different cursors denote different places. */
  lemma {:induction false} CursorUnique(row: seq<Box>, j: nat, s: nat, j': nat, s': nat)
    requires Solid(row) && Cursor(row, j, s) && Cursor(row, j', s')
    ensures Off(row, j) + s == Off(row, j') + s' <==> j == j' && s == s'
  {
    hide Flat;
    FlatAt(row, j);
    FlatAt(row, j');
    if j < j' {
      OffMonotone(row, j + 1, j');
    } else if j' < j {
      OffMonotone(row, j' + 1, j);
    }
  }

  /** The place after the last slot of a leaf is the first slot of the next leaf. */
  lemma {:induction false} NextLeafCursor(row: seq<Box>, j: nat)
    requires Solid(row) && j + 1 < |row|
    ensures Cursor(row, j + 1, 0) && Off(row, j + 1) == Off(row, j) + |row[j].ents|
  {
    hide Flat;
    FlatAt(row, j);
  }

  // ----- what a range is -----

  /** The rids of the entries with lo <= key <= hi, in key order. */
  function InRange(s: seq<Entry>, lo: int, hi: int): seq<Rid> {
    if s == [] then []
    else if lo <= s[0].key <= hi then [s[0].rid] + InRange(s[1..], lo, hi)
    else InRange(s[1..], lo, hi)
  }

  function Rids(s: seq<Entry>): (r: seq<Rid>)
    ensures |r| == |s|
  {
    seq(|s|, i requires 0 <= i < |s| => s[i].rid)
  }

  lemma {:induction false} InRangeNone(s: seq<Entry>, lo: int, hi: int)
    requires forall i :: 0 <= i < |s| ==> !(lo <= s[i].key <= hi)
    ensures InRange(s, lo, hi) == []
  {
    if s != [] {
      InRangeNone(s[1..], lo, hi);
    }
  }

  lemma {:induction false} InRangeAll(s: seq<Entry>, lo: int, hi: int)
    requires forall i :: 0 <= i < |s| ==> lo <= s[i].key <= hi
    ensures InRange(s, lo, hi) == Rids(s)
  {
    if s != [] {
      InRangeAll(s[1..], lo, hi);
      assert Rids(s) == [s[0].rid] + Rids(s[1..]);
    }
  }

  lemma {:induction false} InRangeAppend(a: seq<Entry>, b: seq<Entry>, lo: int, hi: int)
    ensures InRange(a + b, lo, hi) == InRange(a, lo, hi) + InRange(b, lo, hi)
  {
    if a == [] {
      assert a + b == b;
    } else {
      InRangeAppend(a[1..], b, lo, hi);
      assert (a + b)[1..] == a[1..] + b && (a + b)[0] == a[0];
      Associate([a[0].rid], InRange(a[1..], lo, hi), InRange(b, lo, hi));
    }
  }

  /** Between the two places of a range lie exactly the entries of the range. */
  lemma {:induction false} RangeBetween(s: seq<Entry>, lo: int, hi: int, a: int, b: int)
    requires LowerSpot(s, a, lo) && UpperSpot(s, b, hi) && a <= b
    ensures InRange(s, lo, hi) == Rids(s[a..b])
  {
    hide InRange;
    assert s == s[..a] + s[a..b] + s[b..];
    InRangeAppend(s[..a] + s[a..b], s[b..], lo, hi);
    InRangeAppend(s[..a], s[a..b], lo, hi);
    InRangeNone(s[..a], lo, hi);
    InRangeNone(s[b..], lo, hi);
    InRangeAll(s[a..b], lo, hi);
  }

  /** The lower place lies behind the upper one exactly if a stored key is strictly between `hi` and `lo`. */
  lemma {:induction false} CrossedRange(s: seq<Entry>, lo: int, hi: int, a: int, b: int)
    requires Sorted(s) && LowerSpot(s, a, lo) && UpperSpot(s, b, hi)
    ensures b < a <==> exists k :: k in ToMap(s) && hi < k < lo
  {
    if b < a {
      assert s[b].key in ToMap(s) && hi < s[b].key < lo;
    }
    if k :| k in ToMap(s) && hi < k < lo {
      var i := MapFind(s, k);
    }
  }
}

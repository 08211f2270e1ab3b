/**
 Searching: inside one page, down the tower, and in the sorted sequence the leaves spell out.
 */
module IndexSearch {
  import opened Sequences
  import opened IndexRows

  /** `p` is the place of `key` in `s`: smaller keys before it, the rest after it. */
  ghost predicate LowerSpot(s: seq<Entry>, p: int, key: int) {
    && 0 <= p <= |s|
    && (forall x :: 0 <= x < p ==> s[x].key < key)
    && (forall x :: p <= x < |s| ==> key <= s[x].key)
  }

  ghost predicate UpperSpot(s: seq<Entry>, p: int, key: int) {
    && 0 <= p <= |s|
    && (forall x :: 0 <= x < p ==> s[x].key <= key)
    && (forall x :: p <= x < |s| ==> key < s[x].key)
  }

  /** First slot whose key is at least `target`. */
  method NodeLowerBound(ents: seq<Entry>, target: int) returns (l: int)
    requires Sorted(ents)
    ensures LowerSpot(ents, l, target)
  {
    l := 0;
    var r := |ents|;
    while l < r
      invariant 0 <= l <= r <= |ents|
      invariant forall x :: 0 <= x < l ==> ents[x].key < target
      invariant forall x :: r <= x < |ents| ==> target <= ents[x].key
    {
      var mid := (l + r) / 2;
      if target <= ents[mid].key {
        r := mid;
      } else {
        l := mid + 1;
      }
    }
  }

  /** First slot, from slot 1 on, whose key exceeds `target`; 0 only on an empty page. */
  method NodeUpperBound(ents: seq<Entry>, target: int) returns (r: int)
    requires Sorted(ents)
    ensures if ents == [] then r == 0 else 1 <= r <= |ents|
    ensures forall x :: 1 <= x < r ==> ents[x].key <= target
    ensures forall x :: 1 <= x && r <= x < |ents| ==> target < ents[x].key
  {
    var l := 1;
    r := |ents|;
    while l < r
      invariant 1 <= l && 0 <= r <= |ents| && (ents != [] ==> l <= r)
      invariant forall x :: 1 <= x < l && x < |ents| ==> ents[x].key <= target
      invariant forall x :: 1 <= x && r <= x < |ents| ==> target < ents[x].key
    {
      var mid := (l + r) / 2;
      if target < ents[mid].key {
        r := mid;
      } else {
        l := mid + 1;
      }
    }
  }

  /** Box `j` is where `key` belongs: not before its first key, before the next box's first key. */
  ghost predicate Covers(row: seq<Box>, j: int, key: int) {
    && 0 <= j < |row|
    && (j > 0 ==> Head(row[j]).key <= key)
    && (j + 1 < |row| ==> key < Head(row[j + 1]).key)
  }

  lemma {:induction false} RootCovers(row: seq<Box>, key: int)
    requires |row| == 1
    ensures Covers(row, 0, key)
  {
  }

  /** One step of the descent. */
  lemma {:induction false} CoversDown(upper: seq<Box>, lower: seq<Box>, j: nat, i: nat, key: int)
    requires Linked(upper, lower) && NonEmpty(upper) && Covers(upper, j, key)
    requires i < |upper[j].ents|
    requires i > 0 ==> upper[j].ents[i].key <= key
    requires i + 1 < |upper[j].ents| ==> key < upper[j].ents[i + 1].key
    ensures Off(upper, j) + i < |lower| && Covers(lower, Off(upper, j) + i, key)
    ensures lower[Off(upper, j) + i].page == upper[j].ents[i].rid.pageNo
  {
    hide Flat;
    var c := Off(upper, j) + i;
    FlatAt(upper, j);
    assert Heads(lower)[c] == upper[j].ents[i];
    if i + 1 < |upper[j].ents| {
      assert Heads(lower)[c + 1] == upper[j].ents[i + 1];
    } else if j + 1 < |upper| {
      FlatAt(upper, j + 1);
      assert Flat(upper)[Off(upper, j + 1) + 0] == upper[j + 1].ents[0];
    }
    OffEnds(upper);
  }

  /** Where the other entries of the row lie, seen from the box that covers `key`. */
  lemma {:induction false} AroundBox(row: seq<Box>, j: nat, key: int, x: nat)
    requires Sorted(Flat(row)) && Covers(row, j, key) && x < |Flat(row)|
    requires NonEmpty(row) || |row| == 1
    ensures Off(row, j) + |row[j].ents| <= |Flat(row)|
    ensures x < Off(row, j) ==> Flat(row)[x].key < key
    ensures Off(row, j) <= x < Off(row, j) + |row[j].ents| ==> Flat(row)[x] == row[j].ents[x - Off(row, j)]
    ensures Off(row, j) + |row[j].ents| <= x ==> key < Flat(row)[x].key
  {
    hide Flat;
    FlatAt(row, j);
    if x < Off(row, j) {
      FlatBefore(row, j, x);
    } else if Off(row, j) + |row[j].ents| <= x {
      FlatAfter(row, j, x);
    } else {
      assert Flat(row)[Off(row, j) + (x - Off(row, j))] == row[j].ents[x - Off(row, j)];
    }
  }

  /** The place of a key in its leaf is its place among all entries. */
  lemma {:induction false} FlatSpot(row: seq<Box>, j: nat, pos: nat, key: int)
    requires Sorted(Flat(row)) && Covers(row, j, key)
    requires NonEmpty(row) || |row| == 1
    requires LowerSpot(row[j].ents, pos, key)
    ensures LowerSpot(Flat(row), Off(row, j) + pos, key)
  {
    hide Flat;
    FlatAt(row, j);
    forall x: nat | x < |Flat(row)|
      ensures x < Off(row, j) + pos ==> Flat(row)[x].key < key
      ensures Off(row, j) + pos <= x ==> key <= Flat(row)[x].key
    {
      AroundBox(row, j, key, x);
    }
  }

  lemma {:induction false} FlatUpperSpot(row: seq<Box>, j: nat, pos: nat, key: int)
    requires Sorted(Flat(row)) && Covers(row, j, key)
    requires NonEmpty(row) || |row| == 1
    requires UpperSpot(row[j].ents, pos, key)
    ensures UpperSpot(Flat(row), Off(row, j) + pos, key)
  {
    hide Flat;
    FlatAt(row, j);
    forall x: nat | x < |Flat(row)|
      ensures x < Off(row, j) + pos ==> Flat(row)[x].key <= key
      ensures Off(row, j) + pos <= x ==> key < Flat(row)[x].key
    {
      AroundBox(row, j, key, x);
    }
  }

  lemma {:induction false} FlatBefore(row: seq<Box>, j: nat, x: nat)
    requires Sorted(Flat(row)) && j < |row| && x < Off(row, j)
    requires NonEmpty(row) || |row| == 1
    ensures x < |Flat(row)| && j > 0 && Flat(row)[x].key < Head(row[j]).key
  {
    hide Flat;
    FlatAt(row, j);
    OffEnds(row);
    assert Flat(row)[Off(row, j) + 0] == row[j].ents[0];
  }

  lemma {:induction false} FlatAfter(row: seq<Box>, j: nat, x: nat)
    requires Sorted(Flat(row)) && j < |row| && Off(row, j) + |row[j].ents| <= x < |Flat(row)|
    requires NonEmpty(row) || |row| == 1
    ensures j + 1 < |row| && Head(row[j + 1]).key <= Flat(row)[x].key
  {
    hide Flat;
    FlatAt(row, j);
    OffEnds(row);
    FlatAt(row, j + 1);
    assert Flat(row)[Off(row, j + 1) + 0] == row[j + 1].ents[0];
  }

  // ----- the map a sorted sequence stands for -----

  ghost function ToMap(s: seq<Entry>): map<int, Rid>
    requires Sorted(s)
  {
    map i | 0 <= i < |s| :: s[i].key := s[i].rid
  }

  lemma {:induction false} MapGet(s: seq<Entry>, i: nat)
    requires Sorted(s) && i < |s|
    ensures s[i].key in ToMap(s) && ToMap(s)[s[i].key] == s[i].rid
  {
  }

  lemma {:induction false} MapFind(s: seq<Entry>, k: int) returns (i: nat)
    requires Sorted(s) && k in ToMap(s)
    ensures i < |s| && s[i].key == k && ToMap(s)[k] == s[i].rid
  {
    i :| 0 <= i < |s| && s[i].key == k;
  }

  lemma {:induction false} SpotPresent(s: seq<Entry>, p: int, key: int)
    requires Sorted(s) && LowerSpot(s, p, key)
    ensures key in ToMap(s) <==> p < |s| && s[p].key == key
    ensures p < |s| && s[p].key == key ==> ToMap(s)[key] == s[p].rid
  {
  }

  lemma {:induction false} InsertSorted(s: seq<Entry>, p: int, e: Entry)
    requires Sorted(s) && LowerSpot(s, p, e.key) && (p < |s| ==> s[p].key != e.key)
    ensures Sorted(Insert(s, p, e))
  {
    var s' := Insert(s, p, e);
    forall i, j | 0 <= i < j < |s'| ensures s'[i].key < s'[j].key {
      assert s'[i] == if i < p then s[i] else if i == p then e else s[i - 1];
      assert s'[j] == if j < p then s[j] else if j == p then e else s[j - 1];
    }
  }

  lemma {:induction false} InsertSound(s: seq<Entry>, p: nat, e: Entry, k: int)
    requires p <= |s| && Sorted(s) && Sorted(Insert(s, p, e)) && k in ToMap(Insert(s, p, e))
    ensures k in ToMap(s)[e.key := e.rid] && ToMap(Insert(s, p, e))[k] == ToMap(s)[e.key := e.rid][k]
  {
    var s' := Insert(s, p, e);
    var i := MapFind(s', k);
    if i != p {
      var x := if i < p then i else i - 1;
      assert s'[i] == s[x];
      assert s'[p] == e;
      MapGet(s, x);
    }
  }

  lemma {:induction false} InsertComplete(s: seq<Entry>, p: nat, e: Entry, k: int)
    requires p <= |s| && Sorted(s) && Sorted(Insert(s, p, e)) && k in ToMap(s)[e.key := e.rid]
    ensures k in ToMap(Insert(s, p, e))
  {
    var s' := Insert(s, p, e);
    if k == e.key {
      MapGet(s', p);
    } else {
      var i := MapFind(s, k);
      var x := if i < p then i else i + 1;
      assert s'[x] == s[i];
      MapGet(s', x);
    }
  }

  /** Inserting an absent key at its place adds exactly that key. */
  lemma {:induction false} InsertAtSpot(s: seq<Entry>, p: int, e: Entry)
    requires Sorted(s) && LowerSpot(s, p, e.key) && (p < |s| ==> s[p].key != e.key)
    ensures Sorted(Insert(s, p, e))
    ensures ToMap(Insert(s, p, e)) == ToMap(s)[e.key := e.rid]
  {
    InsertSorted(s, p, e);
    var m, m' := ToMap(s)[e.key := e.rid], ToMap(Insert(s, p, e));
    forall k | k in m' ensures k in m && m'[k] == m[k] {
      InsertSound(s, p, e, k);
    }
    forall k | k in m ensures k in m' {
      InsertComplete(s, p, e, k);
    }
  }

  lemma {:induction false} RemoveSorted(s: seq<Entry>, p: nat)
    requires Sorted(s) && p < |s|
    ensures Sorted(Remove(s, p))
  {
    var s' := Remove(s, p);
    forall i, j | 0 <= i < j < |s'| ensures s'[i].key < s'[j].key {
      assert s'[i] == s[if i < p then i else i + 1];
      assert s'[j] == s[if j < p then j else j + 1];
    }
  }

  lemma {:induction false} RemoveSound(s: seq<Entry>, p: nat, k: int)
    requires p < |s| && Sorted(s) && Sorted(Remove(s, p)) && k in ToMap(Remove(s, p))
    ensures k in ToMap(s) && k != s[p].key && ToMap(Remove(s, p))[k] == ToMap(s)[k]
  {
    var i := MapFind(Remove(s, p), k);
    var x := if i < p then i else i + 1;
    assert Remove(s, p)[i] == s[x];
    MapGet(s, x);
  }

  lemma {:induction false} RemoveComplete(s: seq<Entry>, p: nat, k: int)
    requires p < |s| && Sorted(s) && Sorted(Remove(s, p)) && k in ToMap(s) && k != s[p].key
    ensures k in ToMap(Remove(s, p))
  {
    var i := MapFind(s, k);
    var x := if i < p then i else i - 1;
    assert Remove(s, p)[x] == s[i];
    MapGet(Remove(s, p), x);
  }

  /** Removing the entry at `p` removes exactly its key. */
  lemma {:induction false} RemoveAt(s: seq<Entry>, p: nat)
    requires Sorted(s) && p < |s|
    ensures Sorted(Remove(s, p))
    ensures ToMap(Remove(s, p)) == ToMap(s) - {s[p].key}
  {
    RemoveSorted(s, p);
    var m, m' := ToMap(s) - {s[p].key}, ToMap(Remove(s, p));
    forall k | k in m' ensures k in m && m'[k] == m[k] {
      RemoveSound(s, p, k);
    }
    forall k | k in m ensures k in m' {
      RemoveComplete(s, p, k);
    }
  }

  /** A key is stored exactly if it is found at its place in the leaf that covers it. */
  lemma {:induction false} RowSpot(row: seq<Box>, j: nat, pos: nat, key: int)
    requires Sorted(Flat(row)) && Covers(row, j, key)
    requires NonEmpty(row) || |row| == 1
    requires LowerSpot(row[j].ents, pos, key)
    ensures LowerSpot(Flat(row), Off(row, j) + pos, key)
    ensures pos < |row[j].ents| && row[j].ents[pos].key == key <==> key in ToMap(Flat(row))
    ensures key in ToMap(Flat(row)) ==> ToMap(Flat(row))[key] == row[j].ents[pos].rid
  {
    hide Flat;
    FlatSpot(row, j, pos, key);
    SpotPresent(Flat(row), Off(row, j) + pos, key);
    if Off(row, j) + pos < |Flat(row)| {
      AroundBox(row, j, key, Off(row, j) + pos);
    } else {
      FlatAt(row, j);
    }
  }
}

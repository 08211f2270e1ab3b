/**
 The value-level picture of the B+ tree of `src/index`.

 A separator in an inner page is always exactly the first key of the child it points to. So the
 pages of one depth, read from left to right, form a row, and the entries of a row, read across
 page boundaries, are the heads (first key and page number) of the row below it. A tree is a
 tower of such rows: leaves at the bottom, the root alone on top.
 */
module IndexRows {
  import opened Sequences

  /** A record identifier; inner pages use `Rid(child, -1)`. */
  datatype Rid = Rid(pageNo: int, slotNo: int)

  /** One key/rid pair of a page. */
  datatype Entry = Entry(key: int, rid: Rid)

  /** A page of the index file, as `IxPageHdr` and the two parallel arrays describe it. */
  datatype Node = Node(isLeaf: bool, parent: int, prev: int, next: int, ents: seq<Entry>)

  /** A page number together with the entries stored in that page. */
  datatype Box = Box(page: int, ents: seq<Entry>)

  /** The entries of a row across page boundaries. */
  ghost function Flat(row: seq<Box>): seq<Entry> {
    if row == [] then [] else row[0].ents + Flat(row[1..])
  }

  /** The entry by which a parent refers to `b`. */
  function Head(b: Box): Entry {
    Entry(if b.ents == [] then 0 else b.ents[0].key, Rid(b.page, -1))
  }

  function Heads(row: seq<Box>): (hs: seq<Entry>)
    ensures |hs| == |row|
    ensures forall c :: 0 <= c < |row| ==> hs[c] == Head(row[c])
  {
    seq(|row|, c requires 0 <= c < |row| => Head(row[c]))
  }

  /** Position in `Flat(row)` of the first entry of box `j`. */
  ghost function Off(row: seq<Box>, j: nat): nat
    requires j <= |row|
  {
    |Flat(row[..j])|
  }

  ghost predicate Sorted(s: seq<Entry>) {
    forall i, j :: 0 <= i < j < |s| ==> s[i].key < s[j].key
  }

  ghost predicate NonEmpty(row: seq<Box>) {
    forall j :: 0 <= j < |row| ==> row[j].ents != []
  }

  /** The row `upper` is exactly the index of the row `lower`. */
  ghost predicate Linked(upper: seq<Box>, lower: seq<Box>) {
    Flat(upper) == Heads(lower)
  }

  lemma {:induction false} FlatAppend(a: seq<Box>, b: seq<Box>)
    ensures Flat(a + b) == Flat(a) + Flat(b)
  {
    if a == [] {
      assert a + b == b;
    } else {
      FlatAppend(a[1..], b);
      assert (a + b)[1..] == a[1..] + b;
      Associate(a[0].ents, Flat(a[1..]), Flat(b));
    }
  }

  lemma {:induction false} FlatSingle(b: Box)
    ensures Flat([b]) == b.ents
  {
    assert [b][1..] == [];
  }

  lemma {:induction false} OffEnds(row: seq<Box>)
    ensures Off(row, 0) == 0 && Off(row, |row|) == |Flat(row)|
  {
    assert row[..|row|] == row;
  }

  lemma {:induction false} FlatParts(row: seq<Box>, j: nat)
    requires j < |row|
    ensures Flat(row) == Flat(row[..j]) + row[j].ents + Flat(row[j + 1..])
  {
    hide Flat;
    assert row == (row[..j] + [row[j]]) + row[j + 1..];
    FlatAppend(row[..j] + [row[j]], row[j + 1..]);
    FlatAppend(row[..j], [row[j]]);
    FlatSingle(row[j]);
  }

  /** Entry `i` of box `j` sits at `Off(row, j) + i`. */
  lemma {:induction false} FlatAt(row: seq<Box>, j: nat)
    requires j < |row|
    ensures Off(row, j + 1) == Off(row, j) + |row[j].ents|
    ensures Off(row, j + 1) <= |Flat(row)|
    ensures forall i :: 0 <= i < |row[j].ents| ==> Flat(row)[Off(row, j) + i] == row[j].ents[i]
  {
    hide Flat;
    FlatParts(row, j);
    assert row[..j + 1] == row[..j] + [row[j]];
    FlatAppend(row[..j], [row[j]]);
    FlatSingle(row[j]);
    forall i | 0 <= i < |row[j].ents| ensures Flat(row)[Off(row, j) + i] == row[j].ents[i] {
      MiddleAt(Flat(row[..j]), row[j].ents, Flat(row[j + 1..]), i);
    }
  }

  lemma {:induction false} OffMonotone(row: seq<Box>, j: nat, k: nat)
    requires j <= k <= |row|
    ensures Off(row, j) <= Off(row, k) <= |Flat(row)|
  {
    hide Flat;
    assert row == row[..k] + row[k..];
    FlatAppend(row[..k], row[k..]);
    assert row[..k] == row[..j] + row[j..k];
    FlatAppend(row[..j], row[j..k]);
  }

  /** Every position of the flattened row belongs to one box. */
  lemma {:induction false} Locate(row: seq<Box>, c: nat) returns (j: nat, i: nat)
    requires c < |Flat(row)|
    ensures j < |row| && i < |row[j].ents| && c == Off(row, j) + i
    ensures Flat(row)[c] == row[j].ents[i]
  {
    if c < |row[0].ents| {
      j, i := 0, c;
    } else {
      j, i := Locate(row[1..], c - |row[0].ents|);
      j := j + 1;
      assert row[..j][1..] == row[1..][..j - 1];
    }
  }

  lemma {:induction false} FlatReplace(row: seq<Box>, j: nat, b: Box)
    requires j < |row|
    ensures Flat(row[j := b]) == Flat(row[..j]) + b.ents + Flat(row[j + 1..])
  {
    hide Flat;
    FlatParts(row[j := b], j);
    assert row[j := b][..j] == row[..j] && row[j := b][j + 1..] == row[j + 1..];
  }

  lemma {:induction false} FlatSetEntry(row: seq<Box>, j: nat, i: nat, e: Entry)
    requires j < |row| && i < |row[j].ents|
    ensures Off(row, j) + i < |Flat(row)|
    ensures Flat(row[j := row[j].(ents := row[j].ents[i := e])]) == Flat(row)[Off(row, j) + i := e]
  {
    hide Flat;
    FlatParts(row, j);
    FlatReplace(row, j, row[j].(ents := row[j].ents[i := e]));
    SetMiddle(Flat(row[..j]), row[j].ents, Flat(row[j + 1..]), i, e);
  }

  lemma {:induction false} FlatInsertEntry(row: seq<Box>, j: nat, i: nat, e: Entry)
    requires j < |row| && i <= |row[j].ents|
    ensures Off(row, j) + i <= |Flat(row)|
    ensures Flat(row[j := row[j].(ents := Insert(row[j].ents, i, e))]) == Insert(Flat(row), Off(row, j) + i, e)
  {
    hide Flat;
    FlatParts(row, j);
    FlatReplace(row, j, row[j].(ents := Insert(row[j].ents, i, e)));
    InsertMiddle(Flat(row[..j]), row[j].ents, Flat(row[j + 1..]), i, e);
  }

  lemma {:induction false} FlatRemoveEntry(row: seq<Box>, j: nat, i: nat)
    requires j < |row| && i < |row[j].ents|
    ensures Off(row, j) + i < |Flat(row)|
    ensures Flat(row[j := row[j].(ents := Remove(row[j].ents, i))]) == Remove(Flat(row), Off(row, j) + i)
  {
    hide Flat;
    FlatParts(row, j);
    FlatReplace(row, j, row[j].(ents := Remove(row[j].ents, i)));
    RemoveMiddle(Flat(row[..j]), row[j].ents, Flat(row[j + 1..]), i);
  }

  /** Splitting one box in two leaves the flattened row alone. */
  lemma {:induction false} FlatSplit(row: seq<Box>, j: nat, x: Box, y: Box)
    requires j < |row| && x.ents + y.ents == row[j].ents
    ensures Flat(row[..j] + [x, y] + row[j + 1..]) == Flat(row)
  {
    hide Flat;
    FlatParts(row, j);
    FlatAppend(row[..j] + [x, y], row[j + 1..]);
    FlatAppend(row[..j], [x, y]);
    assert [x, y] == [x] + [y];
    FlatAppend([x], [y]);
    FlatSingle(x);
    FlatSingle(y);
  }

  /** Merging two neighbours leaves the flattened row alone. */
  lemma {:induction false} FlatMerge(row: seq<Box>, j: nat, x: Box)
    requires j + 1 < |row| && x.ents == row[j].ents + row[j + 1].ents
    ensures Flat(row[..j] + [x] + row[j + 2..]) == Flat(row)
  {
    hide Flat;
    var r := row[..j] + [x] + row[j + 2..];
    FlatSplit(r, j, row[j], row[j + 1]);
    assert r[..j] + [row[j], row[j + 1]] + r[j + 1..] == row;
  }

  /** Moving entries between two neighbours leaves the flattened row alone. */
  lemma {:induction false} FlatShift(row: seq<Box>, j: nat, x: Box, y: Box)
    requires j + 1 < |row| && x.ents + y.ents == row[j].ents + row[j + 1].ents
    ensures Flat(row[j := x][j + 1 := y]) == Flat(row)
  {
    hide Flat;
    var m := Box(0, x.ents + y.ents);
    FlatMerge(row, j, m);
    var r := row[..j] + [m] + row[j + 2..];
    FlatSplit(r, j, x, y);
    assert r[..j] + [x, y] + r[j + 1..] == row[j := x][j + 1 := y];
  }

  /** First keys of a sorted row are sorted, so every row of a tower is sorted. */
  lemma {:induction false} SortedHeads(row: seq<Box>)
    requires Sorted(Flat(row)) && NonEmpty(row)
    ensures Sorted(Heads(row))
  {
    hide Flat;
    forall a, b | 0 <= a < b < |row| ensures Heads(row)[a].key < Heads(row)[b].key {
      FlatAt(row, a);
      FlatAt(row, b);
      OffMonotone(row, a + 1, b);
      assert Flat(row)[Off(row, a) + 0] == row[a].ents[0];
      assert Flat(row)[Off(row, b) + 0] == row[b].ents[0];
    }
  }

  lemma {:induction false} SortedRow(t: seq<seq<Box>>, l: nat)
    requires l < |t| && Sorted(Flat(t[0]))
    requires forall m :: 0 <= m < l ==> Linked(t[m + 1], t[m]) && NonEmpty(t[m])
    ensures Sorted(Flat(t[l]))
  {
    if l > 0 {
      SortedRow(t, l - 1);
      SortedHeads(t[l - 1]);
    }
  }

  /** Each box of a sorted row is sorted. */
  lemma {:induction false} SortedBox(row: seq<Box>, j: nat)
    requires j < |row| && Sorted(Flat(row))
    ensures Sorted(row[j].ents)
  {
    hide Flat;
    FlatAt(row, j);
    forall a, b | 0 <= a < b < |row[j].ents| ensures row[j].ents[a].key < row[j].ents[b].key {
      assert Flat(row)[Off(row, j) + a].key < Flat(row)[Off(row, j) + b].key;
    }
  }
}

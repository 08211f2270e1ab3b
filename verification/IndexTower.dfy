/**
 The structural steps of the B+ tree on towers: each one keeps the rows linked, or says exactly
 which link it leaves open for the next step.
 */
module IndexTower {
  import opened Sequences
  import opened IndexRows
  import opened IndexInvariant

  /** Only rows `lo..hi` change, so only the links touching them need a proof. */
  lemma {:induction false} LinksPatch(t: Tower, t': Tower, lo: int, hi: int, skip: int, skip': int)
    requires |t'| == |t| && Links(t, skip)
    requires forall m :: 0 <= m < |t| && !(lo <= m <= hi) ==> t'[m] == t[m]
    requires forall m :: 0 <= m < |t| - 1 && lo - 1 <= m <= hi && m != skip' ==> LinkAt(t', m)
    requires skip == skip' || lo - 1 <= skip <= hi || skip < 0
    ensures Links(t', skip')
  {
    hide Flat;
    forall m | 0 <= m < |t'| - 1 && m != skip' ensures LinkAt(t', m) {
      if m < lo - 1 || m > hi {
        assert LinkAt(t, m);
      }
    }
  }

  lemma {:induction false} HeadsSet(row: seq<Box>, j: nat, b: Box)
    requires j < |row|
    ensures Heads(row[j := b]) == Heads(row)[j := Head(b)]
  {
  }

  lemma {:induction false} HeadsSplit(row: seq<Box>, j: nat, x: Box, y: Box)
    requires j < |row| && Head(x) == Head(row[j])
    ensures Heads(row[..j] + [x, y] + row[j + 1..]) == Insert(Heads(row), j + 1, Head(y))
  {
  }

  lemma {:induction false} HeadsMerge(row: seq<Box>, j: nat, x: Box)
    requires j + 1 < |row| && Head(x) == Head(row[j])
    ensures Heads(row[..j] + [x] + row[j + 2..]) == Remove(Heads(row), j + 1)
  {
  }

  /** Changing the entries of one leaf leaves at most its own separator out of date. */
  lemma {:induction false} LeafChange(t: Tower, j: nat, b: Box)
    requires |t| > 0 && j < |t[0]| && b.page == t[0][j].page && Links(t, -1)
    ensures Links(SetBox(t, 0, j, b), 0)
    ensures |t| > 1 ==> LinkedButKey(t[1], SetBox(t, 0, j, b)[0], j)
    ensures Head(b) == Head(t[0][j]) ==> Links(SetBox(t, 0, j, b), -1)
  {
    hide Flat;
    var t' := SetBox(t, 0, j, b);
    HeadsSet(t[0], j, b);
    LinksPatch(t, t', 0, 0, -1, 0);
    if |t| > 1 {
      assert LinkAt(t, 0);
      if Head(b) == Head(t[0][j]) {
        assert Heads(t'[0]) == Heads(t[0]);
        assert LinkAt(t', 0);
        LinksPatch(t, t', 0, 0, -1, -1);
      }
    } else {
      LinksPatch(t, t', 0, 0, -1, -1);
    }
  }

  /** If the stored separator is already right, all rows are linked. */
  lemma {:induction false} KeyAgrees(t: Tower, l: nat, c: nat)
    requires l + 1 < |t| && Links(t, l) && LinkedButKey(t[l + 1], t[l], c)
    requires Flat(t[l + 1])[c].key == Head(t[l][c]).key
    ensures Links(t, -1)
  {
    hide Flat;
    assert Flat(t[l + 1])[c] == Head(t[l][c]);
    assert Heads(t[l])[c := Flat(t[l + 1])[c]] == Heads(t[l]);
    assert LinkAt(t, l);
    LinksPatch(t, t, l, l, l, -1);
  }

  /** Writing a child's first key into its parent moves the open separator one row up. */
  lemma {:induction false} KeyMovesUp(t: Tower, l: nat, c: nat, j: nat, i: nat)
    requires l + 1 < |t| && Links(t, l) && LinkedButKey(t[l + 1], t[l], c)
    requires j < |t[l + 1]| && i < |t[l + 1][j].ents| && c == Off(t[l + 1], j) + i
    ensures var t' := SetBox(t, l + 1, j, t[l + 1][j].(ents := t[l + 1][j].ents[i := Head(t[l][c])]));
            Links(t', l + 1) && (l + 2 < |t| ==> LinkedButKey(t'[l + 2], t'[l + 1], j))
  {
    hide Flat;
    var b := t[l + 1][j].(ents := t[l + 1][j].ents[i := Head(t[l][c])]);
    var t' := SetBox(t, l + 1, j, b);
    FlatSetEntry(t[l + 1], j, i, Head(t[l][c]));
    assert Flat(t'[l + 1]) == Heads(t[l]);
    assert LinkAt(t', l);
    LinksPatch(t, t', l + 1, l + 1, l, l + 1);
    if l + 2 < |t| {
      assert LinkAt(t, l + 1);
      HeadsSet(t[l + 1], j, b);
    }
  }

  ghost function SplitTower(t: Tower, l: nat, j: nat, at: nat, q: int): Tower
    requires l < |t| && j < |t[l]| && at <= |t[l][j].ents|
  {
    var b := t[l][j];
    t[l := t[l][..j] + [b.(ents := b.ents[..at]), Box(q, b.ents[at..])] + t[l][j + 1..]]
  }

  lemma {:induction false} SplitLinks(t: Tower, l: nat, j: nat, at: nat, q: int)
    requires l < |t| && j < |t[l]| && 0 < at <= |t[l][j].ents| && Links(t, -1)
    ensures Flat(SplitTower(t, l, j, at, q)[l]) == Flat(t[l])
    ensures Links(SplitTower(t, l, j, at, q), l)
    ensures l + 1 < |t| ==> LinkedButHole(t[l + 1], SplitTower(t, l, j, at, q)[l], j + 1)
  {
    hide Flat;
    var b := t[l][j];
    var x, y := b.(ents := b.ents[..at]), Box(q, b.ents[at..]);
    var t' := SplitTower(t, l, j, at, q);
    FlatSplit(t[l], j, x, y);
    if l > 0 {
      assert LinkAt(t, l - 1);
      assert LinkAt(t', l - 1);
    }
    LinksPatch(t, t', l, l, -1, l);
    if l + 1 < |t| {
      assert LinkAt(t, l);
      HeadsSplit(t[l], j, x, y);
      assert Remove(Insert(Heads(t[l]), j + 1, Head(y)), j + 1) == Heads(t[l]);
    }
  }

  /** Putting the new child into its parent closes the hole. */
  lemma {:induction false} FillHole(t: Tower, l: nat, c: nat, j: nat, i: nat)
    requires l + 1 < |t| && Links(t, l) && LinkedButHole(t[l + 1], t[l], c + 1)
    requires j < |t[l + 1]| && i < |t[l + 1][j].ents| && c == Off(t[l + 1], j) + i
    ensures Links(SetBox(t, l + 1, j, t[l + 1][j].(ents := Insert(t[l + 1][j].ents, i + 1, Head(t[l][c + 1])))), -1)
  {
    hide Flat;
    var b := t[l + 1][j].(ents := Insert(t[l + 1][j].ents, i + 1, Head(t[l][c + 1])));
    var t' := SetBox(t, l + 1, j, b);
    FlatInsertEntry(t[l + 1], j, i + 1, Head(t[l][c + 1]));
    assert Insert(Remove(Heads(t[l]), c + 1), c + 1, Heads(t[l])[c + 1]) == Heads(t[l]);
    assert LinkAt(t', l);
    if l + 2 < |t| {
      assert LinkAt(t, l + 1);
      HeadsSet(t[l + 1], j, b);
      assert Heads(t'[l + 1]) == Heads(t[l + 1]);
      assert LinkAt(t', l + 1);
    }
    LinksPatch(t, t', l + 1, l + 1, l, -1);
  }

  /** A new root on top of the two halves of the old one. */
  lemma {:induction false} NewRootLinks(t: Tower, q: int)
    requires |t| > 0 && |t[|t| - 1]| == 2 && Links(t, |t| - 1)
    ensures Links(t + [[Box(q, Heads(t[|t| - 1]))]], -1)
  {
    hide Flat;
    var t' := t + [[Box(q, Heads(t[|t| - 1]))]];
    forall m | 0 <= m < |t'| - 1 ensures LinkAt(t', m) {
      if m == |t| - 1 {
        FlatSingle(Box(q, Heads(t[m])));
      } else {
        assert LinkAt(t, m);
      }
    }
  }

  ghost function ShiftTower(t: Tower, l: nat, j: nat, x: seq<Entry>, y: seq<Entry>, k: nat, i: nat): Tower
    requires l + 1 < |t| && j + 1 < |t[l]| && k < |t[l + 1]| && i + 1 < |t[l + 1][k].ents|
  {
    var row, up := t[l], t[l + 1][k];
    var b := row[j + 1].(ents := y);
    t[l := row[j := row[j].(ents := x)][j + 1 := b]]
     [l + 1 := t[l + 1][k := up.(ents := up.ents[i + 1 := Head(b)])]]
  }

  /** Moving entries between two siblings and correcting the right one's separator. */
  lemma {:induction false} ShiftLinks(t: Tower, l: nat, j: nat, x: seq<Entry>, y: seq<Entry>, k: nat, i: nat)
    requires l + 1 < |t| && j + 1 < |t[l]| && k < |t[l + 1]| && i + 1 < |t[l + 1][k].ents|
    requires j == Off(t[l + 1], k) + i && Links(t, -1)
    requires x + y == t[l][j].ents + t[l][j + 1].ents && x != [] && t[l][j].ents != []
    ensures Flat(ShiftTower(t, l, j, x, y, k, i)[l]) == Flat(t[l])
    ensures Links(ShiftTower(t, l, j, x, y, k, i), -1)
  {
    hide Flat;
    var t' := ShiftTower(t, l, j, x, y, k, i);
    var row, up := t[l], t[l + 1][k];
    var a, b := row[j].(ents := x), row[j + 1].(ents := y);
    assert x[0] == (x + y)[0] == row[j].ents[0];
    FlatShift(row, j, a, b);
    FlatSetEntry(t[l + 1], k, i + 1, Head(b));
    HeadsSet(row, j, a);
    HeadsSet(row[j := a], j + 1, b);
    assert LinkAt(t, l);
    assert Heads(t'[l]) == Heads(row)[j + 1 := Head(b)];
    assert LinkAt(t', l);
    if l > 0 {
      assert LinkAt(t, l - 1);
      assert LinkAt(t', l - 1);
    }
    if l + 2 < |t| {
      assert LinkAt(t, l + 1);
      HeadsSet(t[l + 1], k, t'[l + 1][k]);
      assert Heads(t'[l + 1]) == Heads(t[l + 1]);
      assert LinkAt(t', l + 1);
    }
    LinksPatch(t, t', l, l + 1, -1, -1);
  }

  ghost function MergeTower(t: Tower, l: nat, j: nat, k: nat, i: nat): Tower
    requires l + 1 < |t| && j + 1 < |t[l]| && k < |t[l + 1]| && i + 1 < |t[l + 1][k].ents|
  {
    var row, up := t[l], t[l + 1][k];
    t[l := row[..j] + [row[j].(ents := row[j].ents + row[j + 1].ents)] + row[j + 2..]]
     [l + 1 := t[l + 1][k := up.(ents := Remove(up.ents, i + 1))]]
  }

  /** Merging the right sibling into the left one and dropping its separator. */
  lemma {:induction false} MergeLinks(t: Tower, l: nat, j: nat, k: nat, i: nat)
    requires l + 1 < |t| && j + 1 < |t[l]| && k < |t[l + 1]| && i + 1 < |t[l + 1][k].ents|
    requires j == Off(t[l + 1], k) + i && Links(t, -1) && t[l][j].ents != []
    ensures Flat(MergeTower(t, l, j, k, i)[l]) == Flat(t[l])
    ensures Links(MergeTower(t, l, j, k, i), -1)
  {
    hide Flat;
    var t' := MergeTower(t, l, j, k, i);
    var row, up := t[l], t[l + 1][k];
    var a := row[j].(ents := row[j].ents + row[j + 1].ents);
    FlatMerge(row, j, a);
    FlatRemoveEntry(t[l + 1], k, i + 1);
    HeadsMerge(row, j, a);
    assert LinkAt(t, l);
    assert LinkAt(t', l);
    if l > 0 {
      assert LinkAt(t, l - 1);
      assert LinkAt(t', l - 1);
    }
    if l + 2 < |t| {
      assert LinkAt(t, l + 1);
      HeadsSet(t[l + 1], k, t'[l + 1][k]);
      assert Heads(t'[l + 1]) == Heads(t[l + 1]);
      assert LinkAt(t', l + 1);
    }
    LinksPatch(t, t', l, l + 1, -1, -1);
  }
}

/**
 The structural steps of the B+ tree on pages: which pages a step may touch so that they still hold
 the tower, with correct parent pointers and a correct leaf ring.
 */
module IndexPages {
  import opened Sequences
  import opened IndexRows
  import opened IndexInvariant
  import opened IndexTower

  /** The entries of `upper` point to the pages of `lower`, in order. */
  ghost predicate RidsLinked(upper: seq<Box>, lower: seq<Box>) {
    |Flat(upper)| == |lower| && forall c :: 0 <= c < |lower| ==> Flat(upper)[c].rid.pageNo == lower[c].page
  }

  ghost predicate DistinctPages(row: seq<Box>) {
    forall i, j :: 0 <= i < j < |row| ==> row[i].page != row[j].page
  }

  lemma {:induction false} LinkedRids(upper: seq<Box>, lower: seq<Box>)
    requires Linked(upper, lower)
    ensures RidsLinked(upper, lower)
  {
    hide Flat;
    forall c | 0 <= c < |lower| ensures Flat(upper)[c].rid.pageNo == lower[c].page {
      assert Heads(lower)[c] == Head(lower[c]);
    }
  }

  lemma {:induction false} LinkedButKeyRids(upper: seq<Box>, lower: seq<Box>, c: nat)
    requires LinkedButKey(upper, lower, c)
    ensures RidsLinked(upper, lower)
  {
    hide Flat;
    forall x | 0 <= x < |lower| ensures Flat(upper)[x].rid.pageNo == lower[x].page {
      assert Heads(lower)[x] == Head(lower[x]);
      assert Flat(upper)[x] == Heads(lower)[c := Flat(upper)[c]][x];
    }
  }

  lemma {:induction false} LinkedButKeyRid(upper: seq<Box>, lower: seq<Box>, c: nat)
    requires LinkedButKey(upper, lower, c)
    ensures c < |Flat(upper)| && Flat(upper)[c].rid == Rid(lower[c].page, -1)
  {
  }

  lemma {:induction false} LinkedButHoleRids(upper: seq<Box>, lower: seq<Box>, c: nat)
    requires LinkedButHole(upper, lower, c) && DistinctPages(lower)
    ensures RidsLinked(upper, Remove(lower, c)) && DistinctPages(Remove(lower, c))
  {
    hide Flat;
    var rest := Remove(lower, c);
    assert Heads(rest) == Remove(Heads(lower), c);
    LinkedRids(upper, rest);
  }

  /** The parent page of child `c` and the child's place in it. */
  lemma {:induction false} ParentBox(pages: Pages, upper: seq<Box>, lower: seq<Box>, c: nat) returns (j: nat, i: nat)
    requires RidsLinked(upper, lower) && c < |lower| && RowParents(pages, upper)
    ensures j < |upper| && i < |upper[j].ents| && c == Off(upper, j) + i
    ensures Flat(upper)[c] == upper[j].ents[i] && upper[j].ents[i].rid.pageNo == lower[c].page
    ensures lower[c].page in pages && pages[lower[c].page].parent == upper[j].page
  {
    hide Flat;
    j, i := Locate(upper, c);
    assert BoxParents(pages, upper[j]);
  }

  /** A child occurs once in the whole row above it. */
  lemma {:induction false} ChildOnce(upper: seq<Box>, lower: seq<Box>, j: nat, i: nat, j': nat, i': nat)
    requires RidsLinked(upper, lower) && DistinctPages(lower)
    requires j < |upper| && i < |upper[j].ents| && j' < |upper| && i' < |upper[j'].ents|
    requires upper[j].ents[i].rid.pageNo == upper[j'].ents[i'].rid.pageNo
    ensures j == j' && i == i'
  {
    hide Flat;
    FlatAt(upper, j);
    FlatAt(upper, j');
    var c, c' := Off(upper, j) + i, Off(upper, j') + i';
    assert Flat(upper)[c].rid.pageNo == lower[c].page;
    assert Flat(upper)[c'].rid.pageNo == lower[c'].page;
    assert c == c';
    if j < j' {
      OffMonotone(upper, j + 1, j');
    } else if j' < j {
      OffMonotone(upper, j' + 1, j);
    }
  }

  lemma {:induction false} PageOnce(pages: Pages, lvl: map<int, nat>, t: Tower, l: nat, j: nat, m: nat, i: nat)
    requires Rep(pages, lvl, t) && l < |t| && j < |t[l]| && m < |t| && i < |t[m]|
    requires t[l][j].page == t[m][i].page
    ensures l == m && j == i
  {
    hide Flat;
    assert BoxRep(pages, lvl, t[l][j], l);
    assert BoxRep(pages, lvl, t[m][i], m);
    assert RowRep(pages, lvl, t[l], l);
  }

  lemma {:induction false} ChildPlace(t: Tower, l: nat, j: nat, a: nat)
    requires Links(t, -1) && 1 <= l < |t| && j < |t[l]| && a < |t[l][j].ents|
    ensures RidsLinked(t[l], t[l - 1]) && Off(t[l], j) + a < |t[l - 1]|
    ensures t[l - 1][Off(t[l], j) + a].page == t[l][j].ents[a].rid.pageNo
  {
    hide Flat;
    assert LinkAt(t, l - 1);
    LinkedRids(t[l], t[l - 1]);
    FlatAt(t[l], j);
  }

  /** A child occurs once in the whole tower. */
  lemma {:induction false} ChildUnique(pages: Pages, lvl: map<int, nat>, t: Tower, l: nat, j: nat, a: nat, m: nat,
                                       i: nat, b: nat)
    requires Rep(pages, lvl, t) && Links(t, -1)
    requires 1 <= l < |t| && j < |t[l]| && a < |t[l][j].ents|
    requires 1 <= m < |t| && i < |t[m]| && b < |t[m][i].ents|
    ensures t[l][j].ents[a].rid.pageNo == t[m][i].ents[b].rid.pageNo ==> l == m && j == i && a == b
  {
    hide Flat;
    if t[l][j].ents[a].rid.pageNo == t[m][i].ents[b].rid.pageNo {
      ChildPlace(t, l, j, a);
      ChildPlace(t, m, i, b);
      PageOnce(pages, lvl, t, l - 1, Off(t[l], j) + a, m - 1, Off(t[m], i) + b);
      assert RowRep(pages, lvl, t[l - 1], l - 1);
      ChildOnce(t[l], t[l - 1], j, a, i, b);
    }
  }

  ghost predicate IsChild(p: int, ents: seq<Entry>) {
    exists i :: 0 <= i < |ents| && ents[i].rid.pageNo == p
  }

  lemma {:induction false} ChildrenGrow(ents: seq<Entry>, from: nat, i: nat)
    requires from <= i < |ents|
    ensures forall x :: IsChild(x, ents[from..i + 1]) <==> IsChild(x, ents[from..i]) || x == ents[i].rid.pageNo
  {
    hide Flat;
    var a, b := ents[from..i], ents[from..i + 1];
    assert b == a + [ents[i]];
    forall x ensures IsChild(x, b) <==> IsChild(x, a) || x == ents[i].rid.pageNo {
      if IsChild(x, a) {
        var y :| 0 <= y < |a| && a[y].rid.pageNo == x;
        assert b[y].rid.pageNo == x;
      }
      assert b[|a|] == ents[i];
    }
  }

  ghost predicate ChildrenIn(pages: Pages, ents: seq<Entry>) {
    forall i :: 0 <= i < |ents| ==> ents[i].rid.pageNo in pages
  }

  ghost predicate OnlyPlace(ents: seq<Entry>, p: int, i: int) {
    forall x :: 0 <= x < |ents| && ents[x].rid.pageNo == p ==> x == i
  }

  /** Parent pointers after the children in `moved` went from the page of `t[l][j]` to page `q`. */
  ghost predicate Moved(pages: Pages, pages': Pages, moved: seq<Entry>, q: int) {
    && pages.Keys <= pages'.Keys
    && forall p :: p in pages ==> pages'[p].parent == if IsChild(p, moved) then q else pages[p].parent
  }

  /** Boxes that lost no child keep their parent pointers. */
  lemma {:induction false} OtherParents(pages: Pages, pages': Pages, lvl: map<int, nat>, t: Tower,
                     l: nat, j: nat, from: nat, to: nat, q: int, m: nat, i: nat)
    requires Rep(pages, lvl, t) && Links(t, -1) && Parents(pages, t)
    requires 1 <= l < |t| && j < |t[l]| && from <= to <= |t[l][j].ents|
    requires Moved(pages, pages', t[l][j].ents[from..to], q)
    requires 1 <= m < |t| && i < |t[m]| && (m != l || i != j)
    ensures BoxParents(pages', t[m][i])
  {
    hide Flat;
    assert RowParents(pages, t[m]) && BoxParents(pages, t[m][i]);
    var moved := t[l][j].ents[from..to];
    forall b | 0 <= b < |t[m][i].ents|
      ensures t[m][i].ents[b].rid.pageNo in pages' && pages'[t[m][i].ents[b].rid.pageNo].parent == t[m][i].page
    {
      var c := t[m][i].ents[b].rid.pageNo;
      forall a | 0 <= a < |moved| ensures moved[a].rid.pageNo != c {
        ChildUnique(pages, lvl, t, l, j, from + a, m, i, b);
      }
    }
  }

  /** The children that stayed in the box still name it, the others name `q`. */
  lemma {:induction false} OwnParents(pages: Pages, pages': Pages, lvl: map<int, nat>, t: Tower,
                   l: nat, j: nat, from: nat, to: nat, q: int)
    requires Rep(pages, lvl, t) && Links(t, -1) && Parents(pages, t)
    requires 1 <= l < |t| && j < |t[l]| && from <= to <= |t[l][j].ents|
    requires Moved(pages, pages', t[l][j].ents[from..to], q)
    ensures BoxParents(pages', Box(q, t[l][j].ents[from..to]))
    ensures BoxParents(pages', t[l][j].(ents := t[l][j].ents[..from] + t[l][j].ents[to..]))
  {
    hide Flat;
    var b := t[l][j];
    var moved, stay := b.ents[from..to], b.ents[..from] + b.ents[to..];
    assert RowParents(pages, t[l]) && BoxParents(pages, b);
    forall a | 0 <= a < |moved| ensures moved[a].rid.pageNo in pages' && pages'[moved[a].rid.pageNo].parent == q {
      assert moved[a] == b.ents[from + a];
      assert IsChild(moved[a].rid.pageNo, moved);
    }
    forall a | 0 <= a < |stay| ensures stay[a].rid.pageNo in pages' && pages'[stay[a].rid.pageNo].parent == b.page {
      var x := if a < from then a else a + to - from;
      assert stay[a] == b.ents[x];
      forall y | 0 <= y < |moved| ensures moved[y].rid.pageNo != stay[a].rid.pageNo {
        ChildUnique(pages, lvl, t, l, j, from + y, l, j, x);
      }
    }
  }

  // ----- split -----

  ghost predicate SplitEnts(pages: Pages, pages': Pages, p: int, q: int, at: nat) {
    && p in pages && q !in pages && at <= |pages[p].ents|
    && pages'.Keys == pages.Keys + {q}
    && pages'[p].ents == pages[p].ents[..at] && pages'[q].ents == pages[p].ents[at..]
    && pages'[q].isLeaf == pages[p].isLeaf
    && forall x :: x in pages ==> pages'[x].isLeaf == pages[x].isLeaf && (x != p ==> pages'[x].ents == pages[x].ents)
  }

  lemma {:induction false} SplitRep(pages: Pages, pages': Pages, lvl: map<int, nat>, t: Tower, l: nat, j: nat, at: nat,
                                    q: int)
    requires Rep(pages, lvl, t) && lvl.Keys <= pages.Keys && INIT_ROOT_PAGE <= q
    requires l < |t| && j < |t[l]| && at <= |t[l][j].ents|
    requires SplitEnts(pages, pages', t[l][j].page, q, at)
    ensures Rep(pages', lvl[q := l], SplitTower(t, l, j, at, q))
  {
    hide Flat;
    var t', lvl' := SplitTower(t, l, j, at, q), lvl[q := l];
    assert BoxRep(pages, lvl, t[l][j], l);
    forall m | 0 <= m < |t'| ensures RowRep(pages', lvl', t'[m], m) {
      assert RowRep(pages, lvl, t[m], m);
      forall i | 0 <= i < |t'[m]| ensures BoxRep(pages', lvl', t'[m][i], m) {
        if m != l || i < j || i > j + 1 {
          var x := if m == l && i > j + 1 then i - 1 else i;
          assert BoxRep(pages, lvl, t[m][x], m);
          BoxRepOther(pages, lvl, t, l, j, m, x);
        }
      }
      if m == l {
        SplitDistinct(t[l], j, t'[l][j], t'[l][j + 1]);
      }
    }
  }

  lemma {:induction false} SplitDistinct(row: seq<Box>, j: nat, x: Box, y: Box)
    requires j < |row| && DistinctPages(row) && x.page == row[j].page
    requires forall i :: 0 <= i < |row| ==> row[i].page != y.page
    ensures DistinctPages(row[..j] + [x, y] + row[j + 1..])
  {
    hide Flat;
    var r := row[..j] + [x, y] + row[j + 1..];
    forall a, b | 0 <= a < b < |r| ensures r[a].page != r[b].page {
      var a' := if a > j then a - 1 else a;
      var b' := if b > j then b - 1 else b;
      assert a != j + 1 ==> r[a].page == row[a'].page;
      assert b != j + 1 ==> r[b].page == row[b'].page;
    }
  }

  lemma {:induction false} SplitParents(pages: Pages, pages': Pages, lvl: map<int, nat>, t: Tower, l: nat, j: nat,
                                        at: nat, q: int)
    requires Rep(pages, lvl, t) && Links(t, -1) && Parents(pages, t)
    requires l < |t| && j < |t[l]| && at <= |t[l][j].ents|
    requires Moved(pages, pages', if l == 0 then [] else t[l][j].ents[at..], q)
    ensures Parents(pages', SplitTower(t, l, j, at, q))
  {
    hide Flat;
    var t' := SplitTower(t, l, j, at, q);
    var n := |t[l][j].ents|;
    assert t[l][j].ents[at..] == t[l][j].ents[at..n];
    assert t[l][j].ents[..at] + t[l][j].ents[n..] == t[l][j].ents[..at];
    forall m | 1 <= m < |t'| ensures RowParents(pages', t'[m]) {
      forall i | 0 <= i < |t'[m]| ensures BoxParents(pages', t'[m][i]) {
        if l == 0 {
          assert RowParents(pages, t[m]) && BoxParents(pages, t[m][i]);
        } else if m == l && j <= i <= j + 1 {
          OwnParents(pages, pages', lvl, t, l, j, at, n, q);
        } else {
          OtherParents(pages, pages', lvl, t, l, j, at, n, q, m, if m == l && i > j + 1 then i - 1 else i);
        }
      }
    }
  }

  lemma {:induction false} SplitChain(pages: Pages, pages': Pages, row: seq<Box>, j: nat, x: Box, y: Box)
    requires j < |row| && Chain(pages, row) && DistinctPages(row) && x.page == row[j].page
    requires forall i :: 0 <= i < |row| ==> row[i].page != LEAF_HEADER_PAGE
    requires y.page !in pages && pages'.Keys == pages.Keys + {y.page}
    requires pages'[y.page].prev == row[j].page && pages'[y.page].next == Ring(row, j + 1)
    requires forall p :: p in pages ==> pages'[p].next == if p == row[j].page then y.page else pages[p].next
    requires forall p :: p in pages ==> pages'[p].prev == if p == Ring(row, j + 1) then y.page else pages[p].prev
    ensures Chain(pages', row[..j] + [x, y] + row[j + 1..])
  {
    hide Flat;
    var r := row[..j] + [x, y] + row[j + 1..];
    forall i | -1 <= i < |r| ensures ChainAt(pages', r, i) {
      if i < j {
        assert Ring(r, i) == Ring(row, i) && Ring(r, i + 1) == Ring(row, i + 1);
        assert ChainAt(pages, row, i);
      } else if i > j + 1 {
        assert Ring(r, i) == Ring(row, i - 1) && Ring(r, i + 1) == Ring(row, i);
        assert ChainAt(pages, row, i - 1);
      } else {
        assert ChainAt(pages, row, j);
      }
    }
  }

  // ----- merge -----

  ghost predicate MergeEnts(pages: Pages, pages': Pages, p: int, r: int, u: int, i: nat) {
    && p in pages && r in pages && u in pages && i < |pages[u].ents|
    && pages'.Keys == pages.Keys
    && pages'[p].ents == pages[p].ents + pages[r].ents
    && pages'[u].ents == Remove(pages[u].ents, i)
    && forall x :: x in pages ==>
         pages'[x].isLeaf == pages[x].isLeaf && (x != p && x != r && x != u ==> pages'[x].ents == pages[x].ents)
  }

  lemma {:induction false} MergeRep(pages: Pages, pages': Pages, lvl: map<int, nat>, t: Tower, l: nat, j: nat, k: nat,
                                    i: nat)
    requires Rep(pages, lvl, t)
    requires l + 1 < |t| && j + 1 < |t[l]| && k < |t[l + 1]| && i + 1 < |t[l + 1][k].ents|
    requires MergeEnts(pages, pages', t[l][j].page, t[l][j + 1].page, t[l + 1][k].page, i + 1)
    ensures Rep(pages', lvl, MergeTower(t, l, j, k, i))
  {
    hide Flat;
    var t' := MergeTower(t, l, j, k, i);
    assert BoxRep(pages, lvl, t[l][j], l) && BoxRep(pages, lvl, t[l][j + 1], l) &&
           BoxRep(pages, lvl, t[l + 1][k], l + 1);
    forall m | 0 <= m < |t'| ensures RowRep(pages', lvl, t'[m], m) {
      assert RowRep(pages, lvl, t[m], m);
      forall x | 0 <= x < |t'[m]| ensures BoxRep(pages', lvl, t'[m][x], m) {
        var y := if m == l && x > j then x + 1 else x;
        assert BoxRep(pages, lvl, t[m][y], m);
        assert t'[m][x].page == t[m][y].page;
        if !(m == l && y == j) && !(m == l + 1 && y == k) {
          BoxRepOther(pages, lvl, t, l, j, m, y);
          BoxRepOther(pages, lvl, t, l, j + 1, m, y);
          BoxRepOther(pages, lvl, t, l + 1, k, m, y);
        }
      }
      if m == l {
        MergeDistinct(t[l], j, t'[l][j]);
      }
    }
  }

  lemma {:induction false} MergeDistinct(row: seq<Box>, j: nat, x: Box)
    requires j + 1 < |row| && DistinctPages(row) && x.page == row[j].page
    ensures DistinctPages(row[..j] + [x] + row[j + 2..])
  {
    hide Flat;
    var r := row[..j] + [x] + row[j + 2..];
    forall a, b | 0 <= a < b < |r| ensures r[a].page != r[b].page {
      assert r[a].page == row[if a > j then a + 1 else a].page;
      assert r[b].page == row[if b > j then b + 1 else b].page;
    }
  }

  /** Removing an entry keeps the remaining children's parent pointers. */
  lemma {:induction false} FewerChildren(pages: Pages, b: Box, i: nat)
    requires BoxParents(pages, b) && i < |b.ents|
    ensures BoxParents(pages, b.(ents := Remove(b.ents, i)))
  {
    hide Flat;
    var b' := b.(ents := Remove(b.ents, i));
    forall a | 0 <= a < |b'.ents|
      ensures b'.ents[a].rid.pageNo in pages && pages[b'.ents[a].rid.pageNo].parent == b'.page
    {
      assert b'.ents[a] == b.ents[if a < i then a else a + 1];
    }
  }

  lemma {:induction false} JoinChildren(pages: Pages, a: Box, b: seq<Entry>)
    requires BoxParents(pages, a) && BoxParents(pages, Box(a.page, b))
    ensures BoxParents(pages, a.(ents := a.ents + b))
  {
    hide Flat;
    var c := a.(ents := a.ents + b);
    forall i | 0 <= i < |c.ents| ensures c.ents[i].rid.pageNo in pages && pages[c.ents[i].rid.pageNo].parent == c.page {
      if i < |a.ents| {
        assert c.ents[i] == a.ents[i];
      } else {
        assert c.ents[i] == Box(a.page, b).ents[i - |a.ents|];
      }
    }
  }

  lemma {:induction false} MergeParents(pages: Pages, pages': Pages, lvl: map<int, nat>, t: Tower, l: nat, j: nat,
                                        k: nat, i: nat)
    requires Rep(pages, lvl, t) && Links(t, -1) && Parents(pages, t)
    requires l + 1 < |t| && j + 1 < |t[l]| && k < |t[l + 1]| && i + 1 < |t[l + 1][k].ents|
    requires Moved(pages, pages', if l == 0 then [] else t[l][j + 1].ents, t[l][j].page)
    ensures Parents(pages', MergeTower(t, l, j, k, i))
  {
    hide Flat;
    var t' := MergeTower(t, l, j, k, i);
    forall m | 1 <= m < |t'| ensures RowParents(pages', t'[m]) {
      forall x | 0 <= x < |t'[m]| ensures BoxParents(pages', t'[m][x]) {
        var y := if m == l && x > j then x + 1 else x;
        KeptParents(pages, pages', lvl, t, l, j, m, y);
        if m == l && x == j {
          MovedIn(pages, pages', lvl, t, l, j);
          JoinChildren(pages', t[l][j], t[l][j + 1].ents);
        } else if m == l + 1 && x == k {
          FewerChildren(pages', t[m][k], i + 1);
        }
      }
    }
  }

  lemma {:induction false} KeptParents(pages: Pages, pages': Pages, lvl: map<int, nat>, t: Tower, l: nat, j: nat,
                                       m: nat, y: nat)
    requires Rep(pages, lvl, t) && Links(t, -1) && Parents(pages, t)
    requires l + 1 < |t| && j + 1 < |t[l]| && 1 <= m < |t| && y < |t[m]| && (m != l || y != j + 1)
    requires Moved(pages, pages', if l == 0 then [] else t[l][j + 1].ents, t[l][j].page)
    ensures BoxParents(pages', t[m][y])
  {
    hide Flat;
    if l == 0 {
      assert RowParents(pages, t[m]) && BoxParents(pages, t[m][y]);
    } else {
      var n := |t[l][j + 1].ents|;
      assert t[l][j + 1].ents[0..n] == t[l][j + 1].ents;
      OtherParents(pages, pages', lvl, t, l, j + 1, 0, n, t[l][j].page, m, y);
    }
  }

  lemma {:induction false} MovedIn(pages: Pages, pages': Pages, lvl: map<int, nat>, t: Tower, l: nat, j: nat)
    requires Rep(pages, lvl, t) && Links(t, -1) && Parents(pages, t)
    requires 1 <= l < |t| && j + 1 < |t[l]|
    requires Moved(pages, pages', t[l][j + 1].ents, t[l][j].page)
    ensures BoxParents(pages', Box(t[l][j].page, t[l][j + 1].ents))
  {
    hide Flat;
    var n := |t[l][j + 1].ents|;
    assert t[l][j + 1].ents[0..n] == t[l][j + 1].ents;
    OwnParents(pages, pages', lvl, t, l, j + 1, 0, n, t[l][j].page);
  }

  lemma {:induction false} MergeChain(pages: Pages, pages': Pages, row: seq<Box>, j: nat, x: Box)
    requires j + 1 < |row| && Chain(pages, row) && DistinctPages(row) && x.page == row[j].page
    requires forall i :: 0 <= i < |row| ==> row[i].page != LEAF_HEADER_PAGE
    requires pages'.Keys == pages.Keys
    requires forall p :: p in pages && p != row[j + 1].page ==>
               pages'[p].next == if p == row[j].page then Ring(row, j + 2) else pages[p].next
    requires forall p :: p in pages && p != row[j + 1].page ==>
               pages'[p].prev == if p == Ring(row, j + 2) then row[j].page else pages[p].prev
    ensures Chain(pages', row[..j] + [x] + row[j + 2..])
  {
    hide Flat;
    var r := row[..j] + [x] + row[j + 2..];
    forall i | -1 <= i < |r| ensures ChainAt(pages', r, i) {
      if i < j {
        assert Ring(r, i) == Ring(row, i) && Ring(r, i + 1) == Ring(row, i + 1);
        assert ChainAt(pages, row, i);
      } else if i > j {
        assert Ring(r, i) == Ring(row, i + 1) && Ring(r, i + 1) == Ring(row, i + 2);
        assert ChainAt(pages, row, i + 1);
      } else {
        assert ChainAt(pages, row, j + 1) && ChainAt(pages, row, j);
      }
    }
  }

  // ----- moving one entry between siblings -----

  ghost predicate ShiftEnts(pages: Pages, pages': Pages, p: int, x: seq<Entry>, r: int, y: seq<Entry>, u: int, i: nat,
                            e: Entry) {
    && p in pages && r in pages && u in pages && i < |pages[u].ents|
    && pages'.Keys == pages.Keys
    && pages'[p].ents == x && pages'[r].ents == y
    && pages'[u].ents == pages[u].ents[i := e]
    && forall z :: z in pages ==>
         pages'[z].isLeaf == pages[z].isLeaf && (z != p && z != r && z != u ==> pages'[z].ents == pages[z].ents)
  }

  lemma {:induction false} ShiftRep(pages: Pages, pages': Pages, lvl: map<int, nat>, t: Tower,
                 l: nat, j: nat, x: seq<Entry>, y: seq<Entry>, k: nat, i: nat)
    requires Rep(pages, lvl, t)
    requires l + 1 < |t| && j + 1 < |t[l]| && k < |t[l + 1]| && i + 1 < |t[l + 1][k].ents|
    requires ShiftEnts(pages, pages', t[l][j].page, x, t[l][j + 1].page, y, t[l + 1][k].page, i + 1,
                       Head(t[l][j + 1].(ents := y)))
    ensures Rep(pages', lvl, ShiftTower(t, l, j, x, y, k, i))
  {
    hide Flat;
    var t' := ShiftTower(t, l, j, x, y, k, i);
    assert BoxRep(pages, lvl, t[l][j], l) && BoxRep(pages, lvl, t[l][j + 1], l) &&
           BoxRep(pages, lvl, t[l + 1][k], l + 1);
    forall m | 0 <= m < |t'| ensures RowRep(pages', lvl, t'[m], m) {
      assert RowRep(pages, lvl, t[m], m);
      forall z | 0 <= z < |t'[m]| ensures BoxRep(pages', lvl, t'[m][z], m) {
        assert BoxRep(pages, lvl, t[m][z], m);
        assert t'[m][z].page == t[m][z].page;
        if !(m == l && (z == j || z == j + 1)) && !(m == l + 1 && z == k) {
          BoxRepOther(pages, lvl, t, l, j, m, z);
          BoxRepOther(pages, lvl, t, l, j + 1, m, z);
          BoxRepOther(pages, lvl, t, l + 1, k, m, z);
        }
      }
    }
  }

  /** A changed separator does not change which children a page has. */
  lemma {:induction false} SameChildren(pages: Pages, b: Box, i: nat, e: Entry)
    requires BoxParents(pages, b) && i < |b.ents| && e.rid.pageNo == b.ents[i].rid.pageNo
    ensures BoxParents(pages, b.(ents := b.ents[i := e]))
  {
    hide Flat;
    var b' := b.(ents := b.ents[i := e]);
    forall a | 0 <= a < |b'.ents|
      ensures b'.ents[a].rid.pageNo in pages && pages[b'.ents[a].rid.pageNo].parent == b'.page
    {
      assert b'.ents[a].rid.pageNo == b.ents[a].rid.pageNo;
    }
  }

  /** The donor `d` is one of the two siblings; it gives the entries `from..to` to page `q`. */
  lemma {:induction false} ShiftParents(pages: Pages, pages': Pages, lvl: map<int, nat>, t: Tower,
                     l: nat, j: nat, x: seq<Entry>, y: seq<Entry>, k: nat, i: nat, d: nat, from: nat, to: nat)
    requires Rep(pages, lvl, t) && Links(t, -1) && Parents(pages, t)
    requires l + 1 < |t| && j + 1 < |t[l]| && k < |t[l + 1]| && i + 1 < |t[l + 1][k].ents|
    requires t[l + 1][k].ents[i + 1].rid.pageNo == t[l][j + 1].page
    requires j <= d <= j + 1 && from <= to <= |t[l][d].ents|
    requires if d == j then
               x == t[l][j].ents[..from] && to == |t[l][j].ents| && y == t[l][j].ents[from..] + t[l][j + 1].ents
             else from == 0 && x == t[l][j].ents + t[l][j + 1].ents[..to] && y == t[l][j + 1].ents[to..]
    requires Moved(pages, pages', if l == 0 then [] else t[l][d].ents[from..to], t[l][j + (j + 1 - d)].page)
    ensures Parents(pages', ShiftTower(t, l, j, x, y, k, i))
  {
    hide Flat;
    var t' := ShiftTower(t, l, j, x, y, k, i);
    forall m | 1 <= m < |t'| ensures RowParents(pages', t'[m]) {
      forall z | 0 <= z < |t'[m]| ensures BoxParents(pages', t'[m][z]) {
        if m != l || z != d {
          StayParents(pages, pages', lvl, t, l, d, from, to, t[l][j + (j + 1 - d)].page, m, z);
        }
        if m == l && (z == j || z == j + 1) {
          ShiftOwn(pages, pages', lvl, t, l, j, x, y, d, from, to);
        } else if m == l + 1 && z == k {
          SameChildren(pages', t[m][k], i + 1, Head(t[l][j + 1].(ents := y)));
        }
      }
    }
  }

  lemma {:induction false} StayParents(pages: Pages, pages': Pages, lvl: map<int, nat>, t: Tower,
                    l: nat, j: nat, from: nat, to: nat, q: int, m: nat, i: nat)
    requires Rep(pages, lvl, t) && Links(t, -1) && Parents(pages, t)
    requires l < |t| && j < |t[l]| && from <= to <= |t[l][j].ents|
    requires Moved(pages, pages', if l == 0 then [] else t[l][j].ents[from..to], q)
    requires 1 <= m < |t| && i < |t[m]| && (m != l || i != j)
    ensures BoxParents(pages', t[m][i])
  {
    hide Flat;
    if l == 0 {
      assert RowParents(pages, t[m]) && BoxParents(pages, t[m][i]);
    } else {
      OtherParents(pages, pages', lvl, t, l, j, from, to, q, m, i);
    }
  }

  lemma {:induction false} ShiftOwn(pages: Pages, pages': Pages, lvl: map<int, nat>, t: Tower,
                 l: nat, j: nat, x: seq<Entry>, y: seq<Entry>, d: nat, from: nat, to: nat)
    requires Rep(pages, lvl, t) && Links(t, -1) && Parents(pages, t)
    requires 1 <= l < |t| && j + 1 < |t[l]|
    requires j <= d <= j + 1 && from <= to <= |t[l][d].ents|
    requires if d == j then
               x == t[l][j].ents[..from] && to == |t[l][j].ents| && y == t[l][j].ents[from..] + t[l][j + 1].ents
             else from == 0 && x == t[l][j].ents + t[l][j + 1].ents[..to] && y == t[l][j + 1].ents[to..]
    requires Moved(pages, pages', t[l][d].ents[from..to], t[l][j + (j + 1 - d)].page)
    ensures BoxParents(pages', t[l][j].(ents := x)) && BoxParents(pages', t[l][j + 1].(ents := y))
  {
    hide Flat;
    var b := t[l][d];
    var other := t[l][j + (j + 1 - d)];
    OwnParents(pages, pages', lvl, t, l, d, from, to, other.page);
    OtherParents(pages, pages', lvl, t, l, d, from, to, other.page, l, j + (j + 1 - d));
    if d == j {
      assert b.ents[..from] + b.ents[to..] == x;
      assert b.ents[from..to] == b.ents[from..];
      JoinChildren(pages', Box(other.page, b.ents[from..]), other.ents);
    } else {
      assert b.ents[..from] + b.ents[to..] == y;
      assert b.ents[from..to] == b.ents[..to];
      JoinChildren(pages', other, b.ents[..to]);
    }
  }
}

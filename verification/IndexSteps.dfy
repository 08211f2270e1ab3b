/**
 One lemma per structural step: the step keeps the invariant, sizes and page count included.
 */
module IndexSteps {
  import opened Sequences
  import opened IndexRows
  import opened IndexInvariant
  import opened IndexTower
  import opened IndexPages
  import opened IndexSearch

  // ----- counting pages -----

  lemma {:induction false} CountSet(t: Tower, l: nat, row: seq<Box>)
    requires l < |t|
    ensures Count(t[l := row]) == Count(t) - |t[l]| + |row|
  {
    if l == 0 {
      assert t[l := row][1..] == t[1..];
    } else {
      CountSet(t[1..], l - 1, row);
      assert t[l := row][1..] == t[1..][l - 1 := row];
    }
  }

  lemma {:induction false} CountPush(t: Tower, row: seq<Box>)
    ensures Count(t + [row]) == Count(t) + |row|
  {
    if t == [] {
      assert (t + [row])[1..] == [];
    } else {
      CountPush(t[1..], row);
      assert (t + [row])[1..] == t[1..] + [row];
    }
  }

  // ----- sizes -----

  lemma {:induction false} SizedSet(t: Tower, max: nat, l: nat, j: nat, b: Box)
    requires l < |t| && j < |t[l]| && (Sized(t, max, -1, -1) || Sized(t, max, l, j))
    ensures Sized(SetBox(t, l, j, b), max, l, j)
  {
    hide Flat;
    var t' := SetBox(t, l, j, b);
    forall m | 0 <= m < |t'| ensures RowSized(t'[m], Least(|t'|, m, max), max, if m == l then j else -1) {
      assert RowSized(t[m], Least(|t|, m, max), max, -1) ||
             RowSized(t[m], Least(|t|, m, max), max, if m == l then j else -1);
    }
  }

  /** Rewriting a separator changes neither sizes nor the number of pages. */
  lemma {:induction false} SetKeySizes(t: Tower, max: nat, xl: int, xj: int, l: nat, j: nat, i: nat, e: Entry)
    requires Sized(t, max, xl, xj) && l < |t| && j < |t[l]| && i < |t[l][j].ents|
    ensures Sized(SetBox(t, l, j, t[l][j].(ents := t[l][j].ents[i := e])), max, xl, xj)
    ensures Count(SetBox(t, l, j, t[l][j].(ents := t[l][j].ents[i := e]))) == Count(t)
  {
    hide Flat;
    var t' := SetBox(t, l, j, t[l][j].(ents := t[l][j].ents[i := e]));
    CountSet(t, l, t'[l]);
    forall m | 0 <= m < |t'| ensures RowSized(t'[m], Least(|t'|, m, max), max, if m == xl then xj else -1) {
      assert RowSized(t[m], Least(|t|, m, max), max, if m == xl then xj else -1);
    }
  }

  lemma {:induction false} SizedExact(t: Tower, max: nat, l: nat, j: nat)
    requires l < |t| && j < |t[l]| && Sized(t, max, l, j)
    requires Least(|t|, l, max) <= |t[l][j].ents| < max
    ensures Sized(t, max, -1, -1)
  {
    hide Flat;
    forall m | 0 <= m < |t| ensures RowSized(t[m], Least(|t|, m, max), max, -1) {
      assert RowSized(t[m], Least(|t|, m, max), max, if m == l then j else -1);
    }
  }

  lemma {:induction false} SizedAt(t: Tower, max: nat, xl: int, xj: int, l: nat, j: nat)
    requires Sized(t, max, xl, xj) && l < |t| && j < |t[l]| && (l != xl || j != xj)
    ensures Least(|t|, l, max) <= |t[l][j].ents| < max
  {
    hide Flat;
    assert RowSized(t[l], Least(|t|, l, max), max, if l == xl then xj else -1);
  }

  lemma {:induction false} SizedSplit(t: Tower, max: nat, l: nat, j: nat, q: int)
    requires 4 <= max && l < |t| && j < |t[l]| && Sized(t, max, l, j) && |t[l][j].ents| == max
    ensures Sized(SplitTower(t, l, j, max / 2, q), max, -1, -1)
  {
    hide Flat;
    var t' := SplitTower(t, l, j, max / 2, q);
    forall m | 0 <= m < |t'| ensures RowSized(t'[m], Least(|t'|, m, max), max, -1) {
      assert RowSized(t[m], Least(|t|, m, max), max, if m == l then j else -1);
      forall i | 0 <= i < |t'[m]| ensures Least(|t'|, m, max) <= |t'[m][i].ents| < max {
        if m == l && i > j + 1 {
          assert t'[m][i] == t[m][i - 1];
        }
      }
    }
  }

  lemma {:induction false} SizedNewRoot(t: Tower, max: nat, q: int, es: seq<Entry>)
    requires 4 <= max && |t| > 0 && Sized(t, max, -1, -1) && |es| == 2
    requires RowSized(t[|t| - 1], max / 2, max, -1)
    ensures Sized(t + [[Box(q, es)]], max, -1, -1)
  {
    hide Flat;
    var t' := t + [[Box(q, es)]];
    forall m | 0 <= m < |t'| ensures RowSized(t'[m], Least(|t'|, m, max), max, -1) {
      if m < |t| {
        assert RowSized(t[m], Least(|t|, m, max), max, -1);
      }
    }
  }

  lemma {:induction false} SizedShift(t: Tower, max: nat, l: nat, j: nat, x: seq<Entry>, y: seq<Entry>, k: nat, i: nat,
                                      xj: nat)
    requires l + 1 < |t| && j + 1 < |t[l]| && k < |t[l + 1]| && i + 1 < |t[l + 1][k].ents|
    requires Sized(t, max, l, xj) && j <= xj <= j + 1
    requires max / 2 <= |x| < max && max / 2 <= |y| < max
    ensures Sized(ShiftTower(t, l, j, x, y, k, i), max, -1, -1)
  {
    hide Flat;
    var t' := ShiftTower(t, l, j, x, y, k, i);
    forall m | 0 <= m < |t'| ensures RowSized(t'[m], Least(|t'|, m, max), max, -1) {
      assert RowSized(t[m], Least(|t|, m, max), max, if m == l then xj else -1);
      forall z | 0 <= z < |t'[m]| ensures Least(|t'|, m, max) <= |t'[m][z].ents| < max {
        assert |t'[m][z].ents| == if m == l && z == j then |x| else if m == l &&
               z == j + 1 then |y| else |t[m][z].ents|;
      }
    }
  }

  lemma {:induction false} SizedMerge(t: Tower, max: nat, l: nat, j: nat, k: nat, i: nat, xj: nat)
    requires l + 1 < |t| && j + 1 < |t[l]| && k < |t[l + 1]| && i + 1 < |t[l + 1][k].ents|
    requires Sized(t, max, l, xj) && j <= xj <= j + 1
    requires max / 2 <= |t[l][j].ents| + |t[l][j + 1].ents| < max
    ensures Sized(MergeTower(t, l, j, k, i), max, l + 1, k)
  {
    hide Flat;
    var t' := MergeTower(t, l, j, k, i);
    forall m | 0 <= m < |t'| ensures RowSized(t'[m], Least(|t'|, m, max), max, if m == l + 1 then k else -1) {
      assert RowSized(t[m], Least(|t|, m, max), max, if m == l then xj else -1);
      if m == l {
        forall z | 0 <= z < |t'[m]| ensures Least(|t'|, m, max) <= |t'[m][z].ents| < max {
          if z > j {
            assert t'[m][z] == t[m][z + 1];
          }
        }
      }
    }
  }

  lemma {:induction false} SizedCollapse(t: Tower, max: nat, j: int)
    requires 4 <= max && |t| > 1 && Sized(t, max, |t| - 1, j)
    ensures Sized(t[..|t| - 1], max, -1, -1)
  {
    hide Flat;
    var t' := t[..|t| - 1];
    forall m | 0 <= m < |t'| ensures RowSized(t'[m], Least(|t'|, m, max), max, -1) {
      assert RowSized(t[m], Least(|t|, m, max), max, -1);
    }
  }

  /** Legal sizes mean that only a lone root leaf can be empty. */
  lemma {:induction false} FilledBySize(t: Tower, max: nat, l: int, j: int)
    requires 4 <= max && |t| > 0 && Sized(t, max, l, j) && |t[|t| - 1]| == 1
    requires 0 <= l < |t| && 0 <= j < |t[l]| && |t| > 1 ==> t[l][j].ents != []
    ensures Filled(t)
  {
    hide Flat;
    if |t| > 1 {
      forall m | 0 <= m < |t| ensures NonEmpty(t[m]) {
        assert RowSized(t[m], Least(|t|, m, max), max, if m == l then j else -1);
      }
    }
  }

  // ----- the steps -----

  /** Frame conditions of a step that changes only the entries of one page. */
  lemma {:induction false} BodySetEnts(pages: Pages, lvl: map<int, nat>, t: Tower, next: int, l: nat, j: nat,
                                       ents: seq<Entry>)
    requires Body(pages, lvl, t, next) && l < |t| && j < |t[l]|
    requires l > 0 ==> BoxParents(pages, t[l][j].(ents := ents))
    ensures t[l][j].page in pages
    ensures Body(SetEnts(pages, t[l][j].page, ents), lvl, SetBox(t, l, j, t[l][j].(ents := ents)), next)
  {
    hide Flat;
    RepSetEnts(pages, lvl, t, l, j, ents);
    ParentsSetEnts(pages, t, l, j, ents);
  }

  lemma {:induction false} LeafStep(pages: Pages, lvl: map<int, nat>, t: Tower, next: int, last: int, j: nat,
                                    ents: seq<Entry>)
    requires Frame(pages, lvl, t, Hdr(next, last), -1) && j < |t[0]|
    requires Sorted(Flat(t[0][j := t[0][j].(ents := ents)]))
    requires Filled(SetBox(t, 0, j, t[0][j].(ents := ents)))
    ensures t[0][j].page in pages
    ensures var t', pages' := SetBox(t, 0, j, t[0][j].(ents := ents)), SetEnts(pages, t[0][j].page, ents);
            && Frame(pages', lvl, t', Hdr(next, last), 0)
            && (|t| > 1 ==> LinkedButKey(t'[1], t'[0], j))
            && (Head(t'[0][j]) == Head(t[0][j]) ==> Frame(pages', lvl, t', Hdr(next, last), -1))
  {
    hide Flat;
    BodySetEnts(pages, lvl, t, next, 0, j, ents);
    var t', pages' := SetBox(t, 0, j, t[0][j].(ents := ents)), SetEnts(pages, t[0][j].page, ents);
    LeafChange(t, j, t[0][j].(ents := ents));
    ChainSame(pages, pages', t[0], t'[0]);
  }

  lemma {:induction false} KeyStep(pages: Pages, lvl: map<int, nat>, t: Tower, next: int, last: int, l: nat, c: nat,
                                   j: nat, i: nat)
    requires Frame(pages, lvl, t, Hdr(next, last), l) && l + 1 < |t| && LinkedButKey(t[l + 1], t[l], c)
    requires j < |t[l + 1]| && i < |t[l + 1][j].ents| && c == Off(t[l + 1], j) + i
    requires t[l + 1][j].ents[i].rid == Rid(t[l][c].page, -1)
    ensures t[l + 1][j].page in pages
    ensures var ents := t[l + 1][j].ents[i := Head(t[l][c])];
            var t', pages' := SetBox(t, l + 1, j, t[l + 1][j].(ents := ents)), SetEnts(pages, t[l + 1][j].page, ents);
            && Frame(pages', lvl, t', Hdr(next, last), l + 1)
            && (l + 2 < |t| ==> LinkedButKey(t'[l + 2], t'[l + 1], j))
  {
    hide Flat;
    var b := t[l + 1][j];
    var ents := b.ents[i := Head(t[l][c])];
    assert RowParents(pages, t[l + 1]) && BoxParents(pages, b);
    SameChildren(pages, b, i, Head(t[l][c]));
    BodySetEnts(pages, lvl, t, next, l + 1, j, ents);
    KeyMovesUp(t, l, c, j, i);
    var t', pages' := SetBox(t, l + 1, j, b.(ents := ents)), SetEnts(pages, b.page, ents);
    ChainSame(pages, pages', t[0], t'[0]);
    FilledSet(t, l + 1, j, b.(ents := ents));
  }

  /** The climb ends where the stored separator is already right. */
  lemma {:induction false} KeyDone(pages: Pages, lvl: map<int, nat>, t: Tower, h: Hdr, l: nat, c: nat)
    requires Frame(pages, lvl, t, h, l) && l + 1 < |t| && LinkedButKey(t[l + 1], t[l], c)
    requires Flat(t[l + 1])[c].key == Head(t[l][c]).key
    ensures Frame(pages, lvl, t, h, -1)
  {
    hide Flat, Sorted, Rep, Parents, Chain, Filled, Links, LinkedButKey;
    KeyAgrees(t, l, c);
  }

  lemma {:induction false} FilledSet(t: Tower, l: nat, j: nat, b: Box)
    requires Filled(t) && l < |t| && j < |t[l]| && b.ents != []
    ensures Filled(SetBox(t, l, j, b))
  {
    hide Flat;
    var t' := SetBox(t, l, j, b);
    forall m | 0 <= m < |t'| ensures NonEmpty(t'[m]) || (|t'| == 1 && |t'[0]| == 1) {
      assert NonEmpty(t[m]) || (|t| == 1 && |t[0]| == 1);
    }
  }

  // ----- split and growth -----

  /** What `split` does to the leaf ring. */
  ghost predicate SplitRing(pages: Pages, pages': Pages, p: int, after: int, q: int) {
    && pages'.Keys == pages.Keys + {q} && q !in pages
    && pages'[q].prev == p && pages'[q].next == after
    && (forall x :: x in pages ==> pages'[x].next == if x == p then q else pages[x].next)
    && (forall x :: x in pages ==> pages'[x].prev == if x == after then q else pages[x].prev)
  }

  ghost predicate SameRing(pages: Pages, pages': Pages) {
    pages.Keys <= pages'.Keys
    && forall x :: x in pages ==> pages'[x].next == pages[x].next && pages'[x].prev == pages[x].prev
  }

  lemma {:induction false} RingKept(pages: Pages, pages': Pages, row: seq<Box>)
    requires Chain(pages, row) && SameRing(pages, pages')
    ensures Chain(pages', row)
  {
    hide Flat;
    forall i | -1 <= i < |row| ensures ChainAt(pages', row, i) {
      assert ChainAt(pages, row, i);
    }
  }

  lemma {:induction false} LeafRow(pages: Pages, lvl: map<int, nat>, t: Tower)
    requires |t| > 0 && Rep(pages, lvl, t)
    ensures DistinctPages(t[0])
    ensures forall i :: 0 <= i < |t[0]| ==> t[0][i].page in pages && t[0][i].page != LEAF_HEADER_PAGE
  {
    hide Flat;
    assert RowRep(pages, lvl, t[0], 0);
    forall i | 0 <= i < |t[0]| ensures t[0][i].page in pages && t[0][i].page != LEAF_HEADER_PAGE {
      assert BoxRep(pages, lvl, t[0][i], 0);
    }
  }

  lemma {:induction false} SplitFilled(t: Tower, l: nat, j: nat, at: nat, q: int)
    requires Filled(t) && l < |t| && j < |t[l]| && 0 < at < |t[l][j].ents|
    requires |t[|t| - 1]| == 1
    ensures Filled(SplitTower(t, l, j, at, q))
  {
    hide Flat;
    var t' := SplitTower(t, l, j, at, q);
    forall m | 0 <= m < |t'| ensures NonEmpty(t'[m]) {
      assert NonEmpty(t[m]) || (|t| == 1 && |t[0]| == 1);
      forall i | 0 <= i < |t'[m]| ensures t'[m][i].ents != [] {
        if m == l && i > j + 1 {
          assert t'[m][i] == t[m][i - 1];
        }
      }
    }
  }

  lemma {:induction false} SplitStep(pages: Pages, pages': Pages, lvl: map<int, nat>, t: Tower, next: int, last: int,
                                     l: nat, j: nat, at: nat)
    requires Frame(pages, lvl, t, Hdr(next, last), -1) && |t[|t| - 1]| == 1
    requires l < |t| && j < |t[l]| && 0 < at < |t[l][j].ents|
    requires SplitEnts(pages, pages', t[l][j].page, next, at)
    requires Moved(pages, pages', if l == 0 then [] else t[l][j].ents[at..], next)
    requires if l == 0 then SplitRing(pages, pages', t[0][j].page, Ring(t[0], j + 1), next) else SameRing(pages, pages')
    ensures var t' := SplitTower(t, l, j, at, next);
            Frame(pages', lvl[next := l], t', Hdr(next + 1, t'[0][|t'[0]| - 1].page), l)
  {
    hide Flat;
    var t' := SplitTower(t, l, j, at, next);
    SplitRep(pages, pages', lvl, t, l, j, at, next);
    SplitParents(pages, pages', lvl, t, l, j, at, next);
    SplitLinks(t, l, j, at, next);
    SplitFilled(t, l, j, at, next);
    LeafRow(pages, lvl, t);
    if l == 0 {
      SplitChain(pages, pages', t[0], j, t'[0][j], t'[0][j + 1]);
    } else {
      RingKept(pages, pages', t[0]);
    }
  }

  /** `q`, at place `c + 1` of row `l`, is the new right sibling of `p`, and its parent does not know it yet. */
  ghost predicate HalfDone(pages: Pages, t: Tower, root: int, max: nat, l: nat, c: nat, p: int, q: int) {
    && l < |t| && c + 1 < |t[l]|
    && match t[l][c] case Box(page, ents) =>
         && page == p && t[l][c + 1].page == q
         && p in pages && q in pages && pages[q].parent == pages[p].parent
         && Sized(t, max, -1, -1) && max / 2 <= |ents| && max / 2 <= |t[l][c + 1].ents|
         && if l + 1 == |t| then |t[l]| == 2 && c == 0 && p == root && pages[p].parent == NO_PAGE
            else LinkedButHole(t[l + 1], t[l], c + 1) && Topped(pages, t, root)
  }

  /** All that `split` does to the pages: `q` is the new right half of `p`. */
  ghost predicate SplitResult(pages: Pages, pages': Pages, p: int, q: int, at: nat) {
    && p in pages && q !in pages
    && match pages[p] case Node(isLeaf, parent, _, next, ents) =>
         && SplitEnts(pages, pages', p, q, at)
         && Moved(pages, pages', if isLeaf then [] else ents[at..], q)
         && (if isLeaf then SplitRing(pages, pages', p, next, q) else SameRing(pages, pages'))
         && pages'[q].parent == parent
  }

  lemma {:induction false} ChildFacts(pages: Pages, lvl: map<int, nat>, t: Tower, l: nat, j: nat, x: nat)
    requires Rep(pages, lvl, t) && Parents(pages, t) && Links(t, -1) && 1 <= l < |t| && j < |t[l]| && x < |t[l][j].ents|
    ensures t[l][j].ents[x].rid.pageNo != t[l][j].page
    ensures t[l][j].ents[x].rid.pageNo in pages
    ensures pages[t[l][j].ents[x].rid.pageNo].parent == t[l][j].page && t[l][j].page != NO_PAGE
  {
    hide Flat;
    ChildPlace(t, l, j, x);
    assert RowParents(pages, t[l]) && BoxParents(pages, t[l][j]) && BoxRep(pages, lvl, t[l][j], l);
    BoxRepOther(pages, lvl, t, l, j, l - 1, Off(t[l], j) + x);
  }

  /** A page is not its own child, and the root is nobody's child. */
  lemma {:induction false} NotChild(pages: Pages, lvl: map<int, nat>, t: Tower, l: nat, j: nat, from: nat, p: int)
    requires Rep(pages, lvl, t) && Parents(pages, t) && Links(t, -1) && 1 <= l < |t| && j < |t[l]| &&
             from <= |t[l][j].ents|
    requires p == t[l][j].page || (p in pages && pages[p].parent == NO_PAGE)
    ensures !IsChild(p, t[l][j].ents[from..])
  {
    hide Flat;
    var moved := t[l][j].ents[from..];
    forall a | 0 <= a < |moved| ensures moved[a].rid.pageNo != p {
      ChildFacts(pages, lvl, t, l, j, from + a);
    }
  }

  lemma {:induction false} SplitWhole(pages: Pages, pages': Pages, lvl: map<int, nat>, t: Tower, next: int, last: int,
                                      root: int,
                                      max: nat, l: nat, j: nat)
    requires 4 <= max && Frame(pages, lvl, t, Hdr(next, last), -1) && Topped(pages, t, root)
    requires l < |t| && j < |t[l]| && Sized(t, max, l, j) && |t[l][j].ents| == max
    requires SplitResult(pages, pages', t[l][j].page, next, max / 2)
    ensures var t' := SplitTower(t, l, j, max / 2, next);
            && |t'| > 0 && |t'[0]| > 0
            && Frame(pages', lvl[next := l], t', Hdr(next + 1, t'[0][|t'[0]| - 1].page), l)
            && HalfDone(pages', t', root, max, l, j, t[l][j].page, next)
            && Flat(t'[0]) == Flat(t[0]) && Count(t') == Count(t) + 1
  {
    hide Flat;
    assert BoxRep(pages, lvl, t[l][j], l);
    if l == 0 {
      assert ChainAt(pages, t[0], j);
    }
    SplitStep(pages, pages', lvl, t, next, last, l, j, max / 2);
    SplitHalfDone(pages, pages', lvl, t, root, max, l, j, next);
    SplitShape(t, max, l, j, next);
  }

  lemma {:induction false} SplitShape(t: Tower, max: nat, l: nat, j: nat, q: int)
    requires 4 <= max && Links(t, -1) && l < |t| && j < |t[l]| && Sized(t, max, l, j) && |t[l][j].ents| == max
    ensures var t' := SplitTower(t, l, j, max / 2, q);
            && |t'| == |t| && |t'[l]| == |t[l]| + 1
            && t'[l][j].page == t[l][j].page && t'[l][j + 1].page == q
            && max / 2 <= |t'[l][j].ents| && max / 2 <= |t'[l][j + 1].ents|
            && Sized(t', max, -1, -1) && (l + 1 < |t| ==> LinkedButHole(t'[l + 1], t'[l], j + 1))
            && Flat(t'[0]) == Flat(t[0]) && Count(t') == Count(t) + 1
  {
    hide Flat;
    var t' := SplitTower(t, l, j, max / 2, q);
    SplitLinks(t, l, j, max / 2, q);
    SizedSplit(t, max, l, j, q);
    CountSet(t, l, t'[l]);
  }

  lemma {:induction false} SplitHalfDone(pages: Pages, pages': Pages, lvl: map<int, nat>, t: Tower, root: int, max: nat,
                                         l: nat, j: nat, q: int)
    requires 4 <= max && Rep(pages, lvl, t) && Parents(pages, t) && Links(t, -1) && Topped(pages, t, root)
    requires l < |t| && j < |t[l]| && Sized(t, max, l, j) && |t[l][j].ents| == max
    requires SplitEnts(pages, pages', t[l][j].page, q, max / 2)
    requires Moved(pages, pages', if l == 0 then [] else t[l][j].ents[max / 2..], q)
    requires pages'[q].parent == pages[t[l][j].page].parent
    ensures HalfDone(pages', SplitTower(t, l, j, max / 2, q), root, max, l, j, t[l][j].page, q)
    ensures Flat(SplitTower(t, l, j, max / 2, q)[0]) == Flat(t[0])
    ensures Count(SplitTower(t, l, j, max / 2, q)) == Count(t) + 1
  {
    hide Flat, Sized, Count;
    var p := t[l][j].page;
    SplitShape(t, max, l, j, q);
    if l > 0 {
      NotChild(pages, lvl, t, l, j, max / 2, p);
      NotChild(pages, lvl, t, l, j, max / 2, root);
    }
    assert pages'[p].parent == pages[p].parent && pages'[root].parent == NO_PAGE;
    if l + 1 < |t| {
      ToppedKept(pages, pages', t, SplitTower(t, l, j, max / 2, q), root);
    }
  }

  lemma {:induction false} ToppedSet(pages: Pages, t: Tower, root: int, l: nat, j: nat, ents: seq<Entry>)
    requires Topped(pages, t, root) && l < |t| && j < |t[l]| && t[l][j].page in pages
    ensures Topped(SetEnts(pages, t[l][j].page, ents), SetBox(t, l, j, t[l][j].(ents := ents)), root)
  {
  }

  lemma {:induction false} ToppedKept(pages: Pages, pages': Pages, t: Tower, t': Tower, root: int)
    requires Topped(pages, t, root) && |t'| == |t| && t'[|t| - 1] == t[|t| - 1]
    requires root in pages' && pages'[root].parent == NO_PAGE
    ensures Topped(pages', t', root)
  {
    hide Flat;
  }

  /** Inserting the new child into its parent. */
  lemma {:induction false} FillStep(pages: Pages, lvl: map<int, nat>, t: Tower, next: int, last: int, l: nat, c: nat,
                                    j: nat, i: nat)
    requires Frame(pages, lvl, t, Hdr(next, last), l) && l + 1 < |t| && LinkedButHole(t[l + 1], t[l], c + 1)
    requires j < |t[l + 1]| && i < |t[l + 1][j].ents| && c == Off(t[l + 1], j) + i
    requires t[l][c + 1].page in pages && pages[t[l][c + 1].page].parent == t[l + 1][j].page
    ensures t[l + 1][j].page in pages
    ensures var ents := Insert(t[l + 1][j].ents, i + 1, Head(t[l][c + 1]));
            Frame(SetEnts(pages, t[l + 1][j].page, ents), lvl, SetBox(t, l + 1, j, t[l + 1][j].(ents := ents)),
                  Hdr(next, last), -1)
  {
    hide Flat;
    var b := t[l + 1][j];
    var ents := Insert(b.ents, i + 1, Head(t[l][c + 1]));
    assert RowParents(pages, t[l + 1]) && BoxParents(pages, b);
    MoreChildren(pages, b, i + 1, Head(t[l][c + 1]));
    BodySetEnts(pages, lvl, t, next, l + 1, j, ents);
    FillHole(t, l, c, j, i);
    var t', pages' := SetBox(t, l + 1, j, b.(ents := ents)), SetEnts(pages, b.page, ents);
    ChainSame(pages, pages', t[0], t'[0]);
    FilledSet(t, l + 1, j, b.(ents := ents));
  }

  lemma {:induction false} MoreChildren(pages: Pages, b: Box, i: nat, e: Entry)
    requires BoxParents(pages, b) && i <= |b.ents|
    requires e.rid.pageNo in pages && pages[e.rid.pageNo].parent == b.page
    ensures BoxParents(pages, b.(ents := Insert(b.ents, i, e)))
  {
    hide Flat;
    var b' := b.(ents := Insert(b.ents, i, e));
    forall a | 0 <= a < |b'.ents|
      ensures b'.ents[a].rid.pageNo in pages && pages[b'.ents[a].rid.pageNo].parent == b'.page
    {
      assert b'.ents[a] == if a < i then b.ents[a] else if a == i then e else b.ents[a - 1];
    }
  }

  /** What creating a new root does to the pages. */
  ghost predicate RootPages(pages: Pages, pages': Pages, p: int, r: int, q: int, es: seq<Entry>) {
    && p in pages && r in pages && q !in pages
    && pages'.Keys == pages.Keys + {q}
    && pages'[q].ents == es && !pages'[q].isLeaf && pages'[q].parent == NO_PAGE
    && forall x :: x in pages ==> pages'[x] == if x == p || x == r then pages[x].(parent := q) else pages[x]
  }

  lemma {:induction false} NewRootBody(pages: Pages, pages': Pages, lvl: map<int, nat>, t: Tower, next: int)
    requires |t| > 0 && |t[|t| - 1]| == 2 && Body(pages, lvl, t, next) && Links(t, |t| - 1)
    requires RootPages(pages, pages', t[|t| - 1][0].page, t[|t| - 1][1].page, next, Heads(t[|t| - 1]))
    ensures Body(pages', lvl[next := |t|], t + [[Box(next, Heads(t[|t| - 1]))]], next + 1)
  {
    hide Flat;
    var top, n := t[|t| - 1], |t|;
    var t', lvl' := t + [[Box(next, Heads(top))]], lvl[next := n];
    assert RowRep(pages, lvl, top, n - 1);
    forall m | 0 <= m < |t'| ensures RowRep(pages', lvl', t'[m], m) {
      if m < n {
        assert RowRep(pages, lvl, t[m], m);
        forall i | 0 <= i < |t'[m]| ensures BoxRep(pages', lvl', t'[m][i], m) {
          assert BoxRep(pages, lvl, t[m][i], m);
        }
      }
    }
    forall m | 1 <= m < |t'| ensures RowParents(pages', t'[m]) {
      if m == n {
        assert BoxRep(pages, lvl, top[0], n - 1) && BoxRep(pages, lvl, top[1], n - 1);
        assert BoxParents(pages', t'[m][0]);
      } else {
        TopNotChild(pages, pages', lvl, t, next, m);
      }
    }
  }

  /** The two halves of the old root are nobody's children. */
  lemma {:induction false} TopNotChild(pages: Pages, pages': Pages, lvl: map<int, nat>, t: Tower, next: int, m: nat)
    requires |t| > 0 && |t[|t| - 1]| == 2 && Body(pages, lvl, t, next) && Links(t, |t| - 1) && 1 <= m < |t|
    requires RootPages(pages, pages', t[|t| - 1][0].page, t[|t| - 1][1].page, next, Heads(t[|t| - 1]))
    ensures RowParents(pages', t[m])
  {
    hide Flat;
    assert RowParents(pages, t[m]);
    forall i | 0 <= i < |t[m]| ensures BoxParents(pages', t[m][i]) {
      assert BoxParents(pages, t[m][i]);
      forall a | 0 <= a < |t[m][i].ents|
        ensures t[m][i].ents[a].rid.pageNo in pages' && pages'[t[m][i].ents[a].rid.pageNo].parent == t[m][i].page
      {
        LowChild(pages, lvl, t, m, i, a, 0);
        LowChild(pages, lvl, t, m, i, a, 1);
      }
    }
  }

  lemma {:induction false} LowChild(pages: Pages, lvl: map<int, nat>, t: Tower, m: nat, i: nat, a: nat, z: nat)
    requires |t| > 0 && Rep(pages, lvl, t) && Links(t, |t| - 1) && z < |t[|t| - 1]|
    requires 1 <= m < |t| && i < |t[m]| && a < |t[m][i].ents|
    ensures t[m][i].ents[a].rid.pageNo != t[|t| - 1][z].page
  {
    hide Flat;
    forall x | 0 <= x < |t| - 1 ensures LinkAt(t, x) {
    }
    assert Links(t, -1);
    ChildPlace(t, m, i, a);
    BoxRepOther(pages, lvl, t, m - 1, Off(t[m], i) + a, |t| - 1, z);
  }

  lemma {:induction false} NewRootStep(pages: Pages, pages': Pages, lvl: map<int, nat>, t: Tower, next: int, last: int)
    requires |t| > 0 && |t[|t| - 1]| == 2 && Frame(pages, lvl, t, Hdr(next, last), |t| - 1)
    requires RootPages(pages, pages', t[|t| - 1][0].page, t[|t| - 1][1].page, next, Heads(t[|t| - 1]))
    ensures var t' := t + [[Box(next, Heads(t[|t| - 1]))]];
            Frame(pages', lvl[next := |t|], t', Hdr(next + 1, last), -1) && Topped(pages', t', next)
  {
    hide Flat;
    NewRootBody(pages, pages', lvl, t, next);
    NewRootLinks(t, next);
    RingKept(pages, pages', t[0]);
    var t' := t + [[Box(next, Heads(t[|t| - 1]))]];
    forall m | 0 <= m < |t'| ensures NonEmpty(t'[m]) {
      if m < |t| {
        assert NonEmpty(t[m]);
      }
    }
  }

  // ----- what a half-done split needs next -----

  /** Before the root grows: the two halves of the old root and their first keys. */
  lemma {:induction false} GrowReady(pages: Pages, lvl: map<int, nat>, t: Tower, h: Hdr, root: int, max: nat, p: int,
                                     q: int)
    requires |t| > 0 && 4 <= max && Frame(pages, lvl, t, h, |t| - 1) && HalfDone(pages, t, root, max, |t| - 1, 0, p, q)
    ensures p in pages && q in pages && p != q && pages[p].ents != [] && h.next !in pages
    ensures |t[|t| - 1]| == 2 && Heads(t[|t| - 1]) == [Entry(pages[p].ents[0].key, Rid(p, -1)), Head(t[|t| - 1][1])]
    ensures Head(t[|t| - 1][1]).rid == Rid(q, -1)
  {
    hide Flat, Sized, Links, Parents, Filled, Chain, Sorted;
    var row := t[|t| - 1];
    assert RowRep(pages, lvl, row, |t| - 1);
    assert BoxRep(pages, lvl, row[0], |t| - 1);
    assert Heads(row) == [Head(row[0]), Head(row[1])];
  }

  lemma {:induction false} GrowWhole(pages: Pages, pages': Pages, lvl: map<int, nat>, t: Tower, next: int, last: int,
                                     root: int, max: nat,
                                     p: int, q: int)
    requires |t| > 0 && 4 <= max && Frame(pages, lvl, t, Hdr(next, last), |t| - 1)
    requires HalfDone(pages, t, root, max, |t| - 1, 0, p, q)
    requires RootPages(pages, pages', p, q, next, Heads(t[|t| - 1]))
    ensures var t' := t + [[Box(next, Heads(t[|t| - 1]))]];
            && Frame(pages', lvl[next := |t|], t', Hdr(next + 1, last), -1) && Topped(pages', t', next)
            && Sized(t', max, -1, -1) && Count(t') == Count(t) + 1
  {
    hide Flat, Frame, RootPages, Heads, Topped;
    NewRootStep(pages, pages', lvl, t, next, last);
    CountPush(t, [Box(next, Heads(t[|t| - 1]))]);
    assert RowSized(t[|t| - 1], max / 2, max, -1) by {
      assert RowSized(t[|t| - 1], Least(|t|, |t| - 1, max), max, -1);
    }
    HeadsLength(t[|t| - 1]);
    SizedNewRoot(t, max, next, Heads(t[|t| - 1]));
  }

  lemma {:induction false} FrameLast(pages: Pages, lvl: map<int, nat>, t: Tower, h: Hdr, skip: int)
    requires Frame(pages, lvl, t, h, skip)
    ensures |t| > 0 && |t[0]| > 0 && h.last == t[0][|t[0]| - 1].page
  {
  }

  lemma {:induction false} HeadsLength(row: seq<Box>)
    ensures |Heads(row)| == |row|
  {
  }

  lemma {:induction false} OnlyRootIsOrphan(pages: Pages, lvl: map<int, nat>, t: Tower, h: Hdr, root: int, max: nat,
                                            l: nat, c: nat, p: int, q: int)
    requires Frame(pages, lvl, t, h, l) && HalfDone(pages, t, root, max, l, c, p, q) && pages[p].parent == NO_PAGE
    ensures l + 1 == |t| && c == 0
  {
    hide Flat, Sized, Filled, Chain, Sorted;
    if l + 1 < |t| {
      var j, i := HolePlace(pages, lvl, t, h, root, max, l, c, p, q);
    }
  }

  /** Where the parent of a half-done split keeps its left half. */
  lemma {:induction false} HolePlace(pages: Pages, lvl: map<int, nat>, t: Tower, h: Hdr, root: int, max: nat,
                                     l: nat, c: nat, p: int, q: int) returns (j: nat, i: nat)
    requires Frame(pages, lvl, t, h, l) && HalfDone(pages, t, root, max, l, c, p, q)
    requires l + 1 < |t| || pages[p].parent != NO_PAGE
    ensures l + 1 < |t| && j < |t[l + 1]| && i < |t[l + 1][j].ents| && c == Off(t[l + 1], j) + i
    ensures p in pages && pages[p].parent == t[l + 1][j].page && pages[p].parent in pages && pages[p].parent != NO_PAGE
    ensures pages[pages[p].parent].ents == t[l + 1][j].ents
    ensures IsChild(p, t[l + 1][j].ents) && OnlyPlace(t[l + 1][j].ents, p, i)
    ensures q in pages && pages[q].parent == pages[p].parent
    ensures Head(t[l][c + 1]).rid == Rid(q, -1)
  {
    hide Flat, Sized, Filled, Chain, Sorted, Links, Off;
    var upper, rest := t[l + 1], Remove(t[l], c + 1);
    assert RowRep(pages, lvl, t[l], l);
    LinkedButHoleRids(upper, t[l], c + 1);
    assert RowParents(pages, upper);
    j, i := ParentBox(pages, upper, rest, c);
    assert rest[c] == t[l][c];
    assert RowRep(pages, lvl, upper, l + 1) && BoxRep(pages, lvl, upper[j], l + 1);
    var ents := upper[j].ents;
    assert ents[i].rid.pageNo == p;
    forall x | 0 <= x < |ents| && ents[x].rid.pageNo == p ensures x == i {
      ChildOnce(upper, rest, j, x, j, i);
    }
  }

  lemma {:induction false} FillWhole(pages: Pages, lvl: map<int, nat>, t: Tower, next: int, last: int, root: int,
                                     max: nat,
                                     l: nat, c: nat, p: int, q: int, j: nat, i: nat)
    requires 4 <= max && Frame(pages, lvl, t, Hdr(next, last), l) && HalfDone(pages, t, root, max, l, c, p, q) &&
             l + 1 < |t|
    requires j < |t[l + 1]| && i < |t[l + 1][j].ents| && c == Off(t[l + 1], j) + i
    requires pages[q].parent == t[l + 1][j].page
    ensures t[l + 1][j].page in pages
    ensures var ents := Insert(t[l + 1][j].ents, i + 1, Head(t[l][c + 1]));
            var t', pages' := SetBox(t, l + 1, j, t[l + 1][j].(ents := ents)), SetEnts(pages, t[l + 1][j].page, ents);
            && Frame(pages', lvl, t', Hdr(next, last), -1) && Topped(pages', t', root)
            && Sized(t', max, l + 1, j) && Count(t') == Count(t)
            && |t'| == |t| && t'[0] == t[0] && t'[l + 1] == t[l + 1][j := t[l + 1][j].(ents := ents)]
            && Least(|t'|, l + 1, max) <= |ents| <= max
  {
    hide Flat, Frame, Sized, Topped, Off, Count;
    FillStep(pages, lvl, t, next, last, l, c, j, i);
    var b := t[l + 1][j].(ents := Insert(t[l + 1][j].ents, i + 1, Head(t[l][c + 1])));
    SizedAt(t, max, -1, -1, l + 1, j);
    SizedSet(t, max, l + 1, j, b);
    CountSet(t, l + 1, t[l + 1][j := b]);
    ToppedSet(pages, t, root, l + 1, j, b.ents);
  }

  lemma {:induction false} SplitTowerRows(t: Tower, l: nat, j: nat, at: nat, q: int)
    requires l < |t| && j < |t[l]| && at <= |t[l][j].ents|
    ensures |SplitTower(t, l, j, at, q)| == |t|
    ensures forall m :: 0 <= m < |t| && m != l ==> SplitTower(t, l, j, at, q)[m] == t[m]
  {
  }

  lemma {:induction false} HalfHeads(pages: Pages, lvl: map<int, nat>, t: Tower, h: Hdr, root: int, max: nat, l: nat,
                                     c: nat, p: int, q: int)
    requires 4 <= max && Frame(pages, lvl, t, h, l) && HalfDone(pages, t, root, max, l, c, p, q)
    ensures l < |t| && c + 1 < |t[l]| && p in pages && q in pages && pages[q].ents != [] &&
            pages[q].ents[0].key == Head(t[l][c + 1]).key
    ensures t[l][c + 1].page == q && pages[q].ents == t[l][c + 1].ents
  {
    hide Flat, Sized, Links, Parents, Filled, Chain, Sorted;
    assert RowRep(pages, lvl, t[l], l) && BoxRep(pages, lvl, t[l][c + 1], l);
  }

  // ----- leaf insertion and removal -----

  lemma {:induction false} InsertLeaf(pages: Pages, lvl: map<int, nat>, t: Tower, next: int, last: int, root: int,
                                      max: nat,
                                      j: nat, pos: nat, e: Entry)
    requires 4 <= max && Frame(pages, lvl, t, Hdr(next, last), -1) && Topped(pages, t, root) && Sized(t, max, -1, -1)
    requires j < |t[0]| && pos <= |t[0][j].ents| && LowerSpot(Flat(t[0]), Off(t[0], j) + pos, e.key)
    requires e.key !in ToMap(Flat(t[0]))
    ensures t[0][j].page in pages
    ensures var ents := Insert(t[0][j].ents, pos, e);
            var t', pages' := SetBox(t, 0, j, t[0][j].(ents := ents)), SetEnts(pages, t[0][j].page, ents);
            && |t'| == |t| && t'[0] == t[0][j := t[0][j].(ents := ents)]
            && Frame(pages', lvl, t', Hdr(next, last), 0) && (|t'| > 1 ==> LinkedButKey(t'[1], t'[0], j))
            && (pos > 0 ==> Frame(pages', lvl, t', Hdr(next, last), -1))
            && Topped(pages', t', root) && Sized(t', max, 0, j) && Count(t') == Count(t)
            && Least(|t'|, 0, max) <= |ents| <= max
            && Sorted(Flat(t'[0])) && ToMap(Flat(t'[0])) == ToMap(Flat(t[0]))[e.key := e.rid]
  {
    hide Flat, Sized, Topped, Off, Count, Rep, Parents, Links, Chain, LowerSpot, Sorted;
    var b := t[0][j].(ents := Insert(t[0][j].ents, pos, e));
    var spot := Off(t[0], j) + pos;
    FlatInsertEntry(t[0], j, pos, e);
    SpotPresent(Flat(t[0]), spot, e.key);
    InsertAtSpot(Flat(t[0]), spot, e);
    FilledSet(t, 0, j, b);
    LeafStep(pages, lvl, t, next, last, j, b.ents);
    SizedAt(t, max, -1, -1, 0, j);
    SizedSet(t, max, 0, j, b);
    CountSet(t, 0, t[0][j := b]);
    ToppedSet(pages, t, root, 0, j, b.ents);
  }

  /** What splitting a leaf means for its row and for `last_leaf_`. */
  lemma {:induction false} SplitLeafRow(pages: Pages, lvl: map<int, nat>, t: Tower, h: Hdr, j: nat, at: nat)
    requires |t| > 0 && Frame(pages, lvl, t, h, -1) && j < |t[0]| && at <= |t[0][j].ents|
    ensures Sorted(t[0][j].ents)
    ensures t[0][j].page == h.last <==> j == |t[0]| - 1
    ensures forall q: int ::
              var t' := SplitTower(t, 0, j, at, q);
              && |t'| == |t| && |t'[0]| == |t[0]| + 1
              && t'[0][j] == Box(t[0][j].page, t[0][j].ents[..at]) && t'[0][j + 1] == Box(q, t[0][j].ents[at..])
              && t'[0][|t[0]|].page == if j == |t[0]| - 1 then q else h.last
  {
    hide Flat;
    assert RowRep(pages, lvl, t[0], 0);
    SortedBox(t[0], j);
  }

  lemma {:induction false} LeafPage(pages: Pages, lvl: map<int, nat>, t: Tower, h: Hdr, skip: int, j: nat)
    requires Frame(pages, lvl, t, h, skip) && j < |t[0]|
    ensures t[0][j].page in pages && pages[t[0][j].page].ents == t[0][j].ents
  {
    hide Flat;
    assert RowRep(pages, lvl, t[0], 0) && BoxRep(pages, lvl, t[0][j], 0);
  }

  /** Looking a key up in the right half of a split leaf. */
  lemma {:induction false} RightHalfSpot(ents: seq<Entry>, at: nat, pos: nat, x: int)
    requires at < |ents| && pos < |ents|
    requires Sorted(ents) && LowerSpot(ents[at..], x, ents[pos].key)
    ensures 0 <= x < |ents| - at && (ents[at + x].key == ents[pos].key <==> at <= pos)
  {
    var right := ents[at..];
    assert right[0] == ents[at];
    assert at <= pos ==> right[pos - at] == ents[pos];
    assert x < |right| ==> right[x] == ents[at + x];
  }

  // ----- borrow, merge and collapse -----

  lemma {:induction false} ShiftStep(pages: Pages, pages': Pages, lvl: map<int, nat>, t: Tower, next: int, last: int,
                                     max: nat,
                  l: nat, j: nat, x: seq<Entry>, y: seq<Entry>, k: nat, i: nat, d: nat, from: nat, to: nat)
    requires 4 <= max && Frame(pages, lvl, t, Hdr(next, last), -1) && |t[|t| - 1]| == 1
    requires l + 1 < |t| && j + 1 < |t[l]| && k < |t[l + 1]| && i + 1 < |t[l + 1][k].ents|
    requires j == Off(t[l + 1], k) + i
    requires j <= d <= j + 1 && from <= to <= |t[l][d].ents|
    requires if d == j then
               x == t[l][j].ents[..from] && to == |t[l][j].ents| && y == t[l][j].ents[from..] + t[l][j + 1].ents
             else from == 0 && x == t[l][j].ents + t[l][j + 1].ents[..to] && y == t[l][j + 1].ents[to..]
    requires Sized(t, max, l, j + (j + 1 - d)) && max / 2 <= |x| < max && max / 2 <= |y| < max && t[l][j].ents != []
    requires ShiftEnts(pages, pages', t[l][j].page, x, t[l][j + 1].page, y, t[l + 1][k].page, i + 1,
                       Head(t[l][j + 1].(ents := y)))
    requires Moved(pages, pages', if l == 0 then [] else t[l][d].ents[from..to], t[l][j + (j + 1 - d)].page)
    requires SameRing(pages, pages')
    ensures Frame(pages', lvl, ShiftTower(t, l, j, x, y, k, i), Hdr(next, last), -1)
    ensures Sized(ShiftTower(t, l, j, x, y, k, i), max, -1, -1)
    ensures Flat(ShiftTower(t, l, j, x, y, k, i)[0]) == Flat(t[0])
    ensures Count(ShiftTower(t, l, j, x, y, k, i)) == Count(t)
  {
    hide Flat, Sized, Rep, Parents, Links, Filled, Chain, Moved, SameRing, Sorted, Count, ShiftTower, Off;
    ChildPlace(t, l + 1, k, i + 1);
    ShiftRep(pages, pages', lvl, t, l, j, x, y, k, i);
    ShiftParents(pages, pages', lvl, t, l, j, x, y, k, i, d, from, to);
    SizedShift(t, max, l, j, x, y, k, i, j + (j + 1 - d));
    ShiftPure(t, max, l, j, x, y, k, i, d, from, to);
    ShiftChain(pages, pages', t, l, j, x, y, k, i);
  }

  lemma {:induction false} ShiftChain(pages: Pages, pages': Pages, t: Tower, l: nat, j: nat, x: seq<Entry>,
                                      y: seq<Entry>, k: nat, i: nat)
    requires l + 1 < |t| && j + 1 < |t[l]| && k < |t[l + 1]| && i + 1 < |t[l + 1][k].ents|
    requires Chain(pages, t[0]) && SameRing(pages, pages') && pages'.Keys == pages.Keys
    ensures Chain(pages', ShiftTower(t, l, j, x, y, k, i)[0])
    ensures |ShiftTower(t, l, j, x, y, k, i)| == |t| && |ShiftTower(t, l, j, x, y, k, i)[0]| == |t[0]|
    ensures forall z :: 0 <= z < |t[0]| ==> ShiftTower(t, l, j, x, y, k, i)[0][z].page == t[0][z].page
  {
    var t': Tower := ShiftTower(t, l, j, x, y, k, i);
    ChainSame(pages, pages', t[0], t'[0]);
  }

  lemma {:induction false} ShiftPure(t: Tower, max: nat, l: nat, j: nat, x: seq<Entry>, y: seq<Entry>, k: nat, i: nat,
                                     d: nat, from: nat, to: nat)
    requires 4 <= max && |t| > 0 && Links(t, -1) && |t[|t| - 1]| == 1
    requires l + 1 < |t| && j + 1 < |t[l]| && k < |t[l + 1]| && i + 1 < |t[l + 1][k].ents|
    requires j == Off(t[l + 1], k) + i
    requires j <= d <= j + 1 && from <= to <= |t[l][d].ents|
    requires if d == j then
               x == t[l][j].ents[..from] && to == |t[l][j].ents| && y == t[l][j].ents[from..] + t[l][j + 1].ents
             else from == 0 && x == t[l][j].ents + t[l][j + 1].ents[..to] && y == t[l][j + 1].ents[to..]
    requires t[l][j].ents != [] && x != [] && Sized(ShiftTower(t, l, j, x, y, k, i), max, -1, -1)
    ensures Links(ShiftTower(t, l, j, x, y, k, i), -1) && Filled(ShiftTower(t, l, j, x, y, k, i))
    ensures Flat(ShiftTower(t, l, j, x, y, k, i)[0]) == Flat(t[0])
    ensures Count(ShiftTower(t, l, j, x, y, k, i)) == Count(t)
  {
    hide Flat;
    var t' := ShiftTower(t, l, j, x, y, k, i);
    assert x + y == t[l][j].ents + t[l][j + 1].ents;
    ShiftLinks(t, l, j, x, y, k, i);
    FilledBySize(t', max, -1, -1);
    CountSet(t, l, t'[l]);
    CountSet(t[l := t'[l]], l + 1, t'[l + 1]);
  }

  /** What `coalesce` does to the leaf ring: `r`, between `p` and `after`, is bypassed. */
  ghost predicate MergeRing(pages: Pages, pages': Pages, p: int, r: int, after: int) {
    && pages'.Keys == pages.Keys
    && (forall x :: x in pages && x != r ==> pages'[x].next == if x == p then after else pages[x].next)
    && (forall x :: x in pages && x != r ==> pages'[x].prev == if x == after then p else pages[x].prev)
  }

  lemma {:induction false} MergeStep(pages: Pages, pages': Pages, lvl: map<int, nat>, t: Tower, next: int, last: int,
                                     max: nat,
                  l: nat, j: nat, k: nat, i: nat, xj: nat)
    requires 4 <= max && Frame(pages, lvl, t, Hdr(next, last), -1) && |t[|t| - 1]| == 1
    requires l + 1 < |t| && j + 1 < |t[l]| && k < |t[l + 1]| && i + 1 < |t[l + 1][k].ents|
    requires j == Off(t[l + 1], k) + i
    requires Sized(t, max, l, xj) && j <= xj <= j + 1 && t[l][j].ents != []
    requires max / 2 <= |t[l][j].ents| + |t[l][j + 1].ents| < max
    requires MergeEnts(pages, pages', t[l][j].page, t[l][j + 1].page, t[l + 1][k].page, i + 1)
    requires Moved(pages, pages', if l == 0 then [] else t[l][j + 1].ents, t[l][j].page)
    requires if l == 0 then MergeRing(pages, pages', t[0][j].page, t[0][j + 1].page, Ring(t[0], j + 2))
             else SameRing(pages, pages')
    ensures var t' := MergeTower(t, l, j, k, i);
            && Frame(pages', lvl, t', Hdr(next, t'[0][|t'[0]| - 1].page), -1)
            && Sized(t', max, l + 1, k)
            && Flat(t'[0]) == Flat(t[0]) && Count(t') == Count(t) - 1
  {
    hide Flat, Sized, Rep, Parents, Links, Filled, Chain, Moved, SameRing, Sorted, Count, Off;
    var t' := MergeTower(t, l, j, k, i);
    MergeRep(pages, pages', lvl, t, l, j, k, i);
    MergeParents(pages, pages', lvl, t, l, j, k, i);
    MergeLinks(t, l, j, k, i);
    SizedMerge(t, max, l, j, k, i, xj);
    FilledBySize(t', max, l + 1, k);
    LeafRow(pages, lvl, t);
    if l == 0 {
      MergeChain(pages, pages', t[0], j, t'[0][j]);
    } else {
      MergeInnerChain(pages, pages', t, l, j, k, i);
    }
    CountSet(t, l, t'[l]);
    CountSet(t[l := t'[l]], l + 1, t'[l + 1]);
  }

  lemma {:induction false} MergeInnerChain(pages: Pages, pages': Pages, t: Tower, l: nat, j: nat, k: nat, i: nat)
    requires 0 < l < |t| - 1 && j + 1 < |t[l]| && k < |t[l + 1]| && i + 1 < |t[l + 1][k].ents|
    requires Chain(pages, t[0]) && SameRing(pages, pages')
    ensures Chain(pages', MergeTower(t, l, j, k, i)[0])
  {
    RingKept(pages, pages', t[0]);
  }

  /** The root hands over to its only child. */
  lemma {:induction false} CollapseStep(pages: Pages, pages': Pages, lvl: map<int, nat>, t: Tower, next: int, last: int,
                                        max: nat, root: int, c: int)
    requires 4 <= max && |t| > 1 && Frame(pages, lvl, t, Hdr(next, last), -1) && Topped(pages, t, root)
    requires Sized(t, max, |t| - 1, 0) && |t[|t| - 1][0].ents| == 1 && c == t[|t| - 1][0].ents[0].rid.pageNo
    requires c in pages && pages'.Keys == pages.Keys && pages'[c] == pages[c].(parent := NO_PAGE)
    requires forall x :: x in pages && x != c && x != root ==> pages'[x] == pages[x]
    requires root != c && SameRing(pages, pages')
    ensures var t' := t[..|t| - 1];
            && Frame(pages', lvl, t', Hdr(next, last), -1) && Topped(pages', t', c)
            && Sized(t', max, -1, -1) && Count(t') == Count(t) - 1
  {
    hide Flat;
    var n := |t| - 1;
    var t' := t[..n];
    assert t == t' + [t[n]];
    CountPush(t', t[n]);
    SizedCollapse(t, max, 0);
    ChildPlace(t, n, 0, 0);
    assert LinkAt(t, n - 1);
    FlatSingle(t[n][0]);
    assert t[n] == [t[n][0]];
    assert |t[n - 1]| == 1 && t[n - 1][0].page == c;
    CollapseBody(pages, pages', lvl, t, next, root, c);
    forall m | 0 <= m < |t'| - 1 ensures LinkAt(t', m) {
      assert LinkAt(t, m);
    }
    FilledBySize(t', max, -1, -1);
    RingKept(pages, pages', t[0]);
  }

  lemma {:induction false} CollapseBody(pages: Pages, pages': Pages, lvl: map<int, nat>, t: Tower, next: int, root: int,
                                        c: int)
    requires |t| > 1 && Body(pages, lvl, t, next) && Links(t, -1)
    requires |t[|t| - 1]| == 1 && t[|t| - 1][0].page == root
    requires |t[|t| - 2]| == 1 && t[|t| - 2][0].page == c
    requires c in pages && pages'.Keys == pages.Keys && pages'[c] == pages[c].(parent := NO_PAGE)
    requires forall x :: x in pages && x != c && x != root ==> pages'[x] == pages[x]
    ensures Body(pages', lvl, t[..|t| - 1], next)
  {
    hide Flat;
    var n := |t| - 1;
    var t' := t[..n];
    forall m | 0 <= m < |t'| ensures RowRep(pages', lvl, t'[m], m) {
      assert RowRep(pages, lvl, t[m], m);
      forall i | 0 <= i < |t'[m]| ensures BoxRep(pages', lvl, t'[m][i], m) {
        assert BoxRep(pages, lvl, t[m][i], m);
        BoxRepOther(pages, lvl, t, m, i, n, 0);
      }
    }
    forall m | 1 <= m < |t'| ensures RowParents(pages', t'[m]) {
      assert RowParents(pages, t[m]);
      forall i | 0 <= i < |t'[m]| ensures BoxParents(pages', t'[m][i]) {
        assert BoxParents(pages, t[m][i]);
        forall a | 0 <= a < |t[m][i].ents|
          ensures t[m][i].ents[a].rid.pageNo in pages' && pages'[t[m][i].ents[a].rid.pageNo].parent == t[m][i].page
        {
          ChildPlace(t, m, i, a);
          BoxRepOther(pages, lvl, t, m - 1, Off(t[m], i) + a, n - 1, 0);
          BoxRepOther(pages, lvl, t, m - 1, Off(t[m], i) + a, n, 0);
        }
      }
    }
  }

  // ----- what deletion leaves behind, and how it is repaired -----

  /** Page `j` of row `l` may be one entry short. */
  ghost predicate Under(t: Tower, max: nat, l: nat, j: nat) {
    && l < |t| && j < |t[l]| && Sized(t, max, l, j)
    && match t[l][j] case Box(_, ents) =>
         && |ents| < max && (l + 1 < |t| ==> max / 2 - 1 <= |ents|) && (l + 1 == |t| && l > 0 ==> 1 <= |ents|)
  }

  lemma {:induction false} RootFacts(pages: Pages, lvl: map<int, nat>, t: Tower, h: Hdr, root: int, max: nat)
    requires 4 <= max && Frame(pages, lvl, t, h, -1) && Topped(pages, t, root) && Under(t, max, |t| - 1, 0)
    ensures |t| > 0 && root in pages && pages[root].isLeaf == (|t| == 1)
    ensures |t| == 1 ==> root == INIT_ROOT_PAGE
    ensures |t| > 1 ==> pages[root].ents == t[|t| - 1][0].ents && pages[root].ents != [] && Sized(t, max, |t| - 1, 0)
    ensures |t| > 1 ==> pages[root].ents[0].rid.pageNo in pages && pages[root].ents[0].rid.pageNo != root
    ensures |pages[root].ents| != 1 || |t| == 1 ==> Sized(t, max, -1, -1)
  {
    hide Flat, Filled, Chain, Sorted;
    var n := |t| - 1;
    assert RowRep(pages, lvl, t[n], n) && BoxRep(pages, lvl, t[n][0], n);
    if n > 0 {
      ChildFacts(pages, lvl, t, n, 0, 0);
    }
    if |t[n][0].ents| != 1 || n == 0 {
      SizedExact(t, max, n, 0);
    }
  }

  /** The right sibling `r` gives its first entry to `p`; `u` is their parent, with `p` in slot 0. */
  ghost predicate BorrowRight(pages: Pages, pages': Pages, p: int, r: int, u: int) {
    && p in pages && r in pages && u in pages && |pages[r].ents| > 1 && |pages[u].ents| > 1
    && match pages[r] case Node(isLeaf, _, _, _, ents) =>
         && ShiftEnts(pages, pages', p, pages[p].ents + ents[..1], r, ents[1..], u, 1,
                      pages[u].ents[1].(key := ents[1].key))
         && Moved(pages, pages', if pages[p].isLeaf then [] else ents[0..1], p)
         && SameRing(pages, pages')
  }

  /** The left sibling `p` gives its last entry to `r`, which sits in slot `i` of their parent `u`. */
  ghost predicate BorrowLeft(pages: Pages, pages': Pages, p: int, r: int, u: int, i: nat) {
    && p in pages && r in pages && u in pages && |pages[p].ents| > 1 && i < |pages[u].ents|
    && match pages[p] case Node(isLeaf, _, _, _, ents) =>
         && ShiftEnts(pages, pages', p, ents[..|ents| - 1], r, ents[|ents| - 1..] + pages[r].ents, u, i,
                      pages[u].ents[i].(key := ents[|ents| - 1].key))
         && Moved(pages, pages', if pages[r].isLeaf then [] else ents[|ents| - 1..|ents|], r)
         && SameRing(pages, pages')
  }

  lemma {:induction false} ShiftFacts(pages: Pages, pages': Pages, p: int, x: seq<Entry>, r: int, y: seq<Entry>, u: int,
                                      i: nat, e: Entry)
    requires ShiftEnts(pages, pages', p, x, r, y, u, i, e)
    ensures pages'.Keys == pages.Keys && pages'[p].ents == x && pages'[r].ents == y
    ensures pages'[p].isLeaf == pages[p].isLeaf && pages'[r].isLeaf == pages[r].isLeaf
  {
  }

  /** Telling at most one child about its new parent keeps entries and ring. */
  lemma {:induction false} Reparented(pages: Pages, mid: Pages, pages': Pages, p: int, x: seq<Entry>, r: int,
                                      y: seq<Entry>, u: int, i: nat,
                                      e: Entry, moved: seq<Entry>, q: int)
    requires ShiftEnts(pages, mid, p, x, r, y, u, i, e) && SameRing(pages, mid) && |moved| <= 1
    requires forall z :: z in mid ==> mid[z].parent == pages[z].parent
    requires moved != [] ==> moved[0].rid.pageNo in mid
    requires pages' == if moved == [] then mid else mid[moved[0].rid.pageNo := mid[moved[0].rid.pageNo].(parent := q)]
    ensures ShiftEnts(pages, pages', p, x, r, y, u, i, e) && SameRing(pages, pages') && Moved(pages, pages', moved, q)
  {
    forall z | z in pages ensures pages'[z].parent == if IsChild(z, moved) then q else pages[z].parent {
      if moved != [] && z == moved[0].rid.pageNo {
        assert IsChild(z, moved);
      }
    }
  }

  /** All that merging `r` into its left sibling `p` does to the pages; `r` was in slot `i` of `u`. */
  ghost predicate MergeResult(pages: Pages, pages': Pages, p: int, r: int, u: int, i: nat) {
    && p in pages && r in pages && u in pages
    && match pages[r] case Node(isLeaf, _, _, next, ents) =>
         && MergeEnts(pages, pages', p, r, u, i)
         && Moved(pages, pages', if isLeaf then [] else ents, p)
         && if isLeaf then MergeRing(pages, pages', p, r, next) else SameRing(pages, pages')
  }

  ghost predicate InnerMerged(pages: Pages, mid: Pages, p: int, r: int) {
    && p in pages && r in pages && mid.Keys == pages.Keys
    && forall x :: x in pages ==>
         mid[x] == pages[x].(ents := if x == p then pages[p].ents + pages[r].ents else pages[x].ents,
                             parent := if IsChild(x, pages[r].ents) then p else pages[x].parent)
  }

  ghost predicate LeafMerged(pages: Pages, mid: Pages, p: int, r: int) {
    && p in pages && r in pages && mid.Keys == pages.Keys && mid[r] == pages[r]
    && forall x :: x in pages && x != r ==>
         mid[x] == pages[x].(ents := if x == p then pages[p].ents + pages[r].ents else pages[x].ents,
                             next := if x == p then pages[r].next else pages[x].next,
                             prev := if x == pages[r].next then p else pages[x].prev)
  }

  lemma {:induction false} InnerMergeDone(pages: Pages, mid: Pages, p: int, r: int, u: int, i: nat)
    requires InnerMerged(pages, mid, p, r) && u in pages && u != p && u != r && p != r && i < |pages[u].ents| &&
             !pages[r].isLeaf
    ensures u in mid && mid[u].ents == pages[u].ents
    ensures MergeResult(pages, SetEnts(mid, u, Remove(mid[u].ents, i)), p, r, u, i)
  {
    hide IsChild;
    assert mid[u].ents == pages[u].ents;
  }

  lemma {:induction false} LeafMergeDone(pages: Pages, mid: Pages, p: int, r: int, u: int, i: nat)
    requires LeafMerged(pages, mid, p, r) && u in pages && u != p && u != r && p != r && i < |pages[u].ents| &&
             pages[r].isLeaf
    ensures u in mid && mid[u].ents == pages[u].ents
    ensures MergeResult(pages, SetEnts(mid, u, Remove(mid[u].ents, i)), p, r, u, i)
  {
    hide IsChild;
    assert mid[u].ents == pages[u].ents;
    NoChildren();
  }

  lemma {:induction false} NoChildren()
    ensures forall p :: !IsChild(p, [])
  {
  }

  /** The place of an underfull page in its parent, and the pages around it. */
  lemma {:induction false} SiblingPlace(pages: Pages, lvl: map<int, nat>, t: Tower, h: Hdr, max: nat, l: nat, j: nat)
    returns (k: nat, i: nat)
    requires 4 <= max && Frame(pages, lvl, t, h, -1) && Under(t, max, l, j) && l + 1 < |t|
    ensures k < |t[l + 1]| && i < |t[l + 1][k].ents| && j == Off(t[l + 1], k) + i && 1 < |t[l + 1][k].ents|
    ensures t[l][j].page in pages && pages[t[l][j].page].parent == t[l + 1][k].page && t[l + 1][k].page != NO_PAGE
    ensures IsChild(t[l][j].page, t[l + 1][k].ents) && OnlyPlace(t[l + 1][k].ents, t[l][j].page, i)
    ensures t[l + 1][k].page in pages && pages[t[l + 1][k].page].ents == t[l + 1][k].ents
  {
    hide Flat, Off, Filled, Chain, Sorted;
    assert LinkAt(t, l);
    LinkedRids(t[l + 1], t[l]);
    assert RowParents(pages, t[l + 1]);
    k, i := ParentBox(pages, t[l + 1], t[l], j);
    assert RowRep(pages, lvl, t[l + 1], l + 1) && BoxRep(pages, lvl, t[l + 1][k], l + 1) && RowRep(pages, lvl, t[l], l);
    SizedAt(t, max, l, j, l + 1, k);
    var ents := t[l + 1][k].ents;
    forall x | 0 <= x < |ents| && ents[x].rid.pageNo == t[l][j].page ensures x == i {
      ChildOnce(t[l + 1], t[l], k, x, k, i);
    }
  }

  /** Two neighbouring children `x` and `x + 1` of one page, in slots `i` and `i + 1`. */
  ghost predicate Pair(pages: Pages, t: Tower, l: nat, x: nat, k: nat, i: nat) {
    && l + 1 < |t| && x + 1 < |t[l]| && k < |t[l + 1]| && i + 1 < |t[l + 1][k].ents| && x == Off(t[l + 1], k) + i
    && match t[l + 1][k] case Box(u, ents) =>
         && ents[i].rid.pageNo == t[l][x].page && ents[i + 1].rid == Rid(t[l][x + 1].page, -1)
         && t[l][x].page in pages && t[l][x + 1].page in pages && u in pages
         && t[l][x].page != t[l][x + 1].page && t[l][x].page != u && t[l][x + 1].page != u
         && pages[t[l][x].page].ents == t[l][x].ents && pages[t[l][x + 1].page].ents == t[l][x + 1].ents
         && pages[u].ents == ents
         && pages[t[l][x].page].isLeaf == (l == 0) && pages[t[l][x + 1].page].isLeaf == (l == 0)
         && (l > 0 ==> ChildrenIn(pages, t[l][x].ents) && ChildrenIn(pages, t[l][x + 1].ents))
         && (l == 0 ==>
               && pages[t[l][x + 1].page].prev == t[l][x].page && pages[t[l][x + 1].page].next == Ring(t[0], x + 2)
               && Ring(t[0], x + 2) in pages && Ring(t[0], x + 2) != t[l][x + 1].page)
  }

  lemma {:induction false} PairFacts(pages: Pages, lvl: map<int, nat>, t: Tower, h: Hdr, l: nat, x: nat, k: nat, i: nat)
    requires Frame(pages, lvl, t, h, -1)
    requires l + 1 < |t| && k < |t[l + 1]| && i + 1 < |t[l + 1][k].ents| && x == Off(t[l + 1], k) + i
    ensures Pair(pages, t, l, x, k, i)
  {
    hide Flat, Off, Filled, Sorted;
    ChildPlace(t, l + 1, k, i);
    ChildPlace(t, l + 1, k, i + 1);
    ChildRid(t, l + 1, k, i + 1);
    assert BoxRep(pages, lvl, t[l][x], l) && BoxRep(pages, lvl, t[l][x + 1], l) &&
           BoxRep(pages, lvl, t[l + 1][k], l + 1);
    BoxRepOther(pages, lvl, t, l, x, l, x + 1);
    BoxRepOther(pages, lvl, t, l, x, l + 1, k);
    BoxRepOther(pages, lvl, t, l, x + 1, l + 1, k);
    if l == 0 {
      LeafRow(pages, lvl, t);
      assert ChainAt(pages, t[0], x) && ChainAt(pages, t[0], x + 1);
    } else {
      assert RowParents(pages, t[l]) && BoxParents(pages, t[l][x]) && BoxParents(pages, t[l][x + 1]);
    }
  }

  lemma {:induction false} ChildRid(t: Tower, l: nat, k: nat, a: nat)
    requires Links(t, -1) && 1 <= l < |t| && k < |t[l]| && a < |t[l][k].ents|
    ensures Off(t[l], k) + a < |t[l - 1]| && t[l][k].ents[a].rid == Rid(t[l - 1][Off(t[l], k) + a].page, -1)
  {
    hide Flat;
    assert LinkAt(t, l - 1);
    FlatAt(t[l], k);
    assert Heads(t[l - 1])[Off(t[l], k) + a] == Head(t[l - 1][Off(t[l], k) + a]);
  }

  lemma {:induction false} PairPages(pages: Pages, t: Tower, l: nat, x: nat, k: nat, i: nat)
    requires Pair(pages, t, l, x, k, i)
    ensures l + 1 < |t| && x + 1 < |t[l]| && k < |t[l + 1]| && i + 1 < |t[l + 1][k].ents|
    ensures t[l + 1][k].ents[i].rid.pageNo == t[l][x].page && t[l + 1][k].ents[i + 1].rid.pageNo == t[l][x + 1].page
    ensures t[l][x].page in pages && t[l][x + 1].page in pages
    ensures pages[t[l][x].page].ents == t[l][x].ents && pages[t[l][x + 1].page].ents == t[l][x + 1].ents
  {
    hide Off;
  }

  lemma {:induction false} UnderFacts(pages: Pages, lvl: map<int, nat>, t: Tower, h: Hdr, root: int, max: nat, l: nat,
                                      j: nat)
    requires 4 <= max && Frame(pages, lvl, t, h, -1) && Topped(pages, t, root) && Under(t, max, l, j)
    ensures |t| > 0 && t[l][j].page in pages && pages[t[l][j].page].ents == t[l][j].ents
    ensures pages[t[l][j].page].parent == NO_PAGE <==> l + 1 == |t|
    ensures l + 1 == |t| ==> j == 0 && t[l][j].page == root
  {
    hide Flat, Off, Filled, Chain, Sorted;
    assert RowRep(pages, lvl, t[l], l) && BoxRep(pages, lvl, t[l][j], l);
    if l + 1 < |t| {
      var k, i := SiblingPlace(pages, lvl, t, h, max, l, j);
    }
  }

  lemma {:induction false} ToppedSame(pages: Pages, pages': Pages, t: Tower, t': Tower, root: int)
    requires Topped(pages, t, root) && |t'| == |t| && |t'[|t| - 1]| == 1 && t'[|t| - 1][0].page == t[|t| - 1][0].page
    requires root in pages' && pages'[root].parent == NO_PAGE
    ensures Topped(pages', t', root)
  {
  }

  /** The root keeps no parent when entries move between pages below it. */
  lemma {:induction false} RootStays(pages: Pages, pages': Pages, lvl: map<int, nat>, t: Tower, root: int,
                                     l: nat, d: nat, from: nat, to: nat, q: int)
    requires Rep(pages, lvl, t) && Parents(pages, t) && Links(t, -1) && Topped(pages, t, root)
    requires l < |t| && d < |t[l]| && from <= to <= |t[l][d].ents|
    requires Moved(pages, pages', if l == 0 then [] else t[l][d].ents[from..to], q)
    ensures root in pages' && pages'[root].parent == NO_PAGE
  {
    if l > 0 {
      var moved := t[l][d].ents[from..to];
      forall a | 0 <= a < |moved| ensures moved[a].rid.pageNo != root {
        ChildFacts(pages, lvl, t, l, d, from + a);
      }
    }
  }

  lemma {:induction false} BorrowRightReady(pages: Pages, t: Tower, max: nat, l: nat, j: nat, k: nat)
    requires 4 <= max && Pair(pages, t, l, j, k, 0) && Under(t, max, l, j)
    requires |t[l][j].ents| < max / 2 && |t[l][j].ents| + |t[l][j + 1].ents| >= 2 * (max / 2)
    ensures var p, r, u := t[l][j].page, t[l][j + 1].page, t[l + 1][k].page;
            && p in pages && r in pages && u in pages && p != r && p != u && r != u
            && |pages[r].ents| > 1 && |pages[u].ents| > 1
            && (pages[p].isLeaf || pages[r].ents[0].rid.pageNo in pages)
  {
    hide Off;
  }

  lemma {:induction false} BorrowLeftReady(pages: Pages, t: Tower, max: nat, l: nat, j: nat, k: nat, i: nat)
    requires 4 <= max && j > 0 && i > 0 && Pair(pages, t, l, j - 1, k, i - 1) && Under(t, max, l, j)
    requires |t[l][j].ents| < max / 2 && |t[l][j].ents| + |t[l][j - 1].ents| >= 2 * (max / 2)
    ensures var p, r, u := t[l][j - 1].page, t[l][j].page, t[l + 1][k].page;
            && p in pages && r in pages && u in pages && p != r && p != u && r != u
            && |pages[p].ents| > 1 && i < |pages[u].ents|
            && (pages[r].isLeaf || pages[p].ents[|pages[p].ents| - 1].rid.pageNo in pages)
  {
    hide Off;
  }

  lemma {:induction false} BorrowRightWhole(pages: Pages, pages': Pages, lvl: map<int, nat>, t: Tower, next: int,
                                            last: int, root: int,
                                            max: nat, l: nat, j: nat, k: nat)
    requires 4 <= max && Frame(pages, lvl, t, Hdr(next, last), -1) && Topped(pages, t, root) && Under(t, max, l, j)
    requires Pair(pages, t, l, j, k, 0)
    requires |t[l][j].ents| < max / 2 && |t[l][j].ents| + |t[l][j + 1].ents| >= 2 * (max / 2)
    requires BorrowRight(pages, pages', t[l][j].page, t[l][j + 1].page, t[l + 1][k].page)
    ensures |t[l][j + 1].ents| > 1
    ensures var t' := ShiftTower(t, l, j, t[l][j].ents + t[l][j + 1].ents[..1], t[l][j + 1].ents[1..], k, 0);
            && Frame(pages', lvl, t', Hdr(next, last), -1) && Topped(pages', t', root) && Sized(t', max, -1, -1)
            && |t'| > 0 && Flat(t'[0]) == Flat(t[0]) && Count(t') == Count(t)
  {
    hide Flat, Off, Sized, Rep, Parents, Links, Filled, Chain, Sorted, Count, Moved, SameRing, ShiftEnts;
    var x, y := t[l][j].ents + t[l][j + 1].ents[..1], t[l][j + 1].ents[1..];
    SizedAt(t, max, l, j, l, j + 1);
    ShiftStep(pages, pages', lvl, t, next, last, max, l, j, x, y, k, 0, j + 1, 0, 1);
    RootStays(pages, pages', lvl, t, root, l, j + 1, 0, 1, t[l][j].page);
    ToppedSame(pages, pages', t, ShiftTower(t, l, j, x, y, k, 0), root);
  }

  lemma {:induction false} BorrowLeftWhole(pages: Pages, pages': Pages, lvl: map<int, nat>, t: Tower, next: int,
                                           last: int, root: int,
                                           max: nat, l: nat, j: nat, k: nat, i: nat)
    requires 4 <= max && Frame(pages, lvl, t, Hdr(next, last), -1) && Topped(pages, t, root) && Under(t, max, l, j)
    requires j > 0 && i > 0 && Pair(pages, t, l, j - 1, k, i - 1)
    requires |t[l][j].ents| < max / 2 && |t[l][j].ents| + |t[l][j - 1].ents| >= 2 * (max / 2)
    requires BorrowLeft(pages, pages', t[l][j - 1].page, t[l][j].page, t[l + 1][k].page, i)
    ensures |t[l][j - 1].ents| > 1
    ensures var n := |t[l][j - 1].ents| - 1;
            var t' := ShiftTower(t, l, j - 1, t[l][j - 1].ents[..n], t[l][j - 1].ents[n..] + t[l][j].ents, k, i - 1);
            && Frame(pages', lvl, t', Hdr(next, last), -1) && Topped(pages', t', root) && Sized(t', max, -1, -1)
            && |t'| > 0 && Flat(t'[0]) == Flat(t[0]) && Count(t') == Count(t)
  {
    hide Flat, Off, Sized, Rep, Parents, Links, Filled, Chain, Sorted, Count, Moved, SameRing, ShiftEnts;
    var n := |t[l][j - 1].ents| - 1;
    var x, y := t[l][j - 1].ents[..n], t[l][j - 1].ents[n..] + t[l][j].ents;
    SizedAt(t, max, l, j, l, j - 1);
    ShiftStep(pages, pages', lvl, t, next, last, max, l, j - 1, x, y, k, i - 1, j - 1, n, n + 1);
    RootStays(pages, pages', lvl, t, root, l, j - 1, n, n + 1, t[l][j].page);
    ToppedSame(pages, pages', t, ShiftTower(t, l, j - 1, x, y, k, i - 1), root);
  }

  lemma {:induction false} MergeReady(pages: Pages, t: Tower, max: nat, l: nat, x: nat, k: nat, i: nat)
    requires Pair(pages, t, l, x, k, i)
    ensures var p, r, u := t[l][x].page, t[l][x + 1].page, t[l + 1][k].page;
            && p in pages && r in pages && u in pages && p != r && p != u && r != u
            && i + 1 < |pages[u].ents| && pages[p].isLeaf == pages[r].isLeaf
            && if pages[r].isLeaf then pages[r].prev == p && pages[r].next in pages && pages[r].next != r
               else ChildrenIn(pages, pages[p].ents) && ChildrenIn(pages, pages[r].ents)
    ensures pages[t[l][x].page].isLeaf == (l == 0)
    ensures pages[t[l][x].page].ents == t[l][x].ents && pages[t[l][x + 1].page].ents == t[l][x + 1].ents
  {
    hide Off;
  }

  lemma {:induction false} MergeWhole(pages: Pages, pages': Pages, lvl: map<int, nat>, t: Tower, next: int, last: int,
                                      root: int,
                                      max: nat, l: nat, x: nat, k: nat, i: nat, xj: nat)
    requires 4 <= max && Frame(pages, lvl, t, Hdr(next, last), -1) && Topped(pages, t, root) && Under(t, max, l, xj) &&
             x <= xj <= x + 1
    requires Pair(pages, t, l, x, k, i)
    requires |t[l][xj].ents| < max / 2 && |t[l][x].ents| + |t[l][x + 1].ents| < 2 * (max / 2)
    requires MergeResult(pages, pages', t[l][x].page, t[l][x + 1].page, t[l + 1][k].page, i + 1)
    ensures var t' := MergeTower(t, l, x, k, i);
            && |t'| == |t| && |t'[0]| > 0
            && Frame(pages', lvl, t', Hdr(next, if l == 0 && t[0][x + 1].page == last then t[0][x].page else last), -1)
            && Topped(pages', t', root) && Under(t', max, l + 1, k) && t'[l + 1][k].page == t[l + 1][k].page
            && Flat(t'[0]) == Flat(t[0]) && Count(t') == Count(t) - 1
  {
    hide Flat, Off, Sized, Parents, Links, Filled, Chain, Sorted, Count, Moved, SameRing, MergeEnts, MergeRing;
    var t' := MergeTower(t, l, x, k, i);
    SizedAt(t, max, l, xj, l, if xj == x then x + 1 else x);
    SizedAt(t, max, l, xj, l + 1, k);
    MergeStep(pages, pages', lvl, t, next, last, max, l, x, k, i, xj);
    var n := |t[l][x + 1].ents|;
    assert t[l][x + 1].ents[0..n] == t[l][x + 1].ents;
    RootStays(pages, pages', lvl, t, root, l, x + 1, 0, n, t[l][x].page);
    ToppedSame(pages, pages', t, t', root);
    assert RowRep(pages, lvl, t[0], 0);
  }

  /** Removing an entry from a leaf. */
  lemma {:induction false} RemoveLeaf(pages: Pages, lvl: map<int, nat>, t: Tower, next: int, last: int, root: int,
                                      max: nat, j: nat, pos: nat)
    requires 4 <= max && Frame(pages, lvl, t, Hdr(next, last), -1) && Topped(pages, t, root) && Sized(t, max, -1, -1)
    requires j < |t[0]| && pos < |t[0][j].ents|
    ensures t[0][j].page in pages
    ensures var ents := Remove(t[0][j].ents, pos);
            var t', pages' := SetBox(t, 0, j, t[0][j].(ents := ents)), SetEnts(pages, t[0][j].page, ents);
            && |t'| == |t| && t'[0] == t[0][j := t[0][j].(ents := ents)]
            && Frame(pages', lvl, t', Hdr(next, last), 0) && (|t'| > 1 ==> LinkedButKey(t'[1], t'[0], j))
            && (pos > 0 ==> Frame(pages', lvl, t', Hdr(next, last), -1))
            && Topped(pages', t', root) && Sized(t', max, 0, j) && Count(t') == Count(t)
            && Under(t', max, 0, j)
            && Sorted(Flat(t'[0])) && ToMap(Flat(t'[0])) == ToMap(Flat(t[0])) - {t[0][j].ents[pos].key}
  {
    hide Flat, Sized, Off, Count, Rep, Parents, Links, Chain, Sorted;
    var b := t[0][j].(ents := Remove(t[0][j].ents, pos));
    var spot := Off(t[0], j) + pos;
    FlatRemoveEntry(t[0], j, pos);
    FlatAt(t[0], j);
    RemoveAt(Flat(t[0]), spot);
    SizedAt(t, max, -1, -1, 0, j);
    SizedSet(t, max, 0, j, b);
    var t' := SetBox(t, 0, j, b);
    FilledBySize(t', max, 0, j);
    LeafStep(pages, lvl, t, next, last, j, b.ents);
    CountSet(t, 0, t[0][j := b]);
    ToppedSet(pages, t, root, 0, j, b.ents);
  }

  /** Rewriting separators above a leaf does not change how full the leaf is. */
  lemma {:induction false} UnderAgain(t: Tower, t': Tower, max: nat, j: nat)
    requires Under(t, max, 0, j) && |t'| == |t| && t'[0] == t[0] && Sized(t', max, 0, j)
    ensures Under(t', max, 0, j)
  {
    hide Sized;
  }
}

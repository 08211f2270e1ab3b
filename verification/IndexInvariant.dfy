/**
 The invariant of the index file and what each structural step does to it.

 The state is the map of pages. Beside it stand the ghost tower `t` of rows, and `lvl`, the depth
 each page was created for (a page never changes its depth). Everything here is about values, the
 class in `IndexHandle.dfy` calls these lemmas.
 */
module IndexInvariant {
  import opened Sequences
  import opened IndexRows

  const NO_PAGE := -1
  const LEAF_HEADER_PAGE := 1
  const INIT_ROOT_PAGE := 2

  type Pages = map<int, Node>
  type Tower = seq<seq<Box>>

  // ----- what the pages hold -----

  ghost predicate BoxRep(pages: Pages, lvl: map<int, nat>, b: Box, l: nat) {
    && b.page in pages && b.page in lvl && lvl[b.page] == l && INIT_ROOT_PAGE <= b.page
    && pages[b.page].ents == b.ents
    && pages[b.page].isLeaf == (l == 0)
  }

  ghost predicate RowRep(pages: Pages, lvl: map<int, nat>, row: seq<Box>, l: nat) {
    && (forall j :: 0 <= j < |row| ==> BoxRep(pages, lvl, row[j], l))
    && (forall i, j :: 0 <= i < j < |row| ==> row[i].page != row[j].page)
  }

  ghost predicate Rep(pages: Pages, lvl: map<int, nat>, t: Tower) {
    forall l :: 0 <= l < |t| ==> RowRep(pages, lvl, t[l], l)
  }

  /** Every child of `b` names `b` as its parent. */
  ghost predicate BoxParents(pages: Pages, b: Box) {
    forall i :: 0 <= i < |b.ents| ==>
      b.ents[i].rid.pageNo in pages && pages[b.ents[i].rid.pageNo].parent == b.page
  }

  ghost predicate RowParents(pages: Pages, row: seq<Box>) {
    forall j :: 0 <= j < |row| ==> BoxParents(pages, row[j])
  }

  ghost predicate Parents(pages: Pages, t: Tower) {
    forall l :: 1 <= l < |t| ==> RowParents(pages, t[l])
  }

  /** Page numbers are handed out in increasing order. */
  ghost predicate Allocated(pages: Pages, lvl: map<int, nat>, next: int) {
    && lvl.Keys <= pages.Keys
    && LEAF_HEADER_PAGE in pages && INIT_ROOT_PAGE < next
    && LEAF_HEADER_PAGE !in lvl
    && forall p :: p in pages ==> p < next
  }

  ghost predicate Body(pages: Pages, lvl: map<int, nat>, t: Tower, next: int) {
    Rep(pages, lvl, t) && Parents(pages, t) && Allocated(pages, lvl, next)
  }

  // ----- how rows index each other -----

  ghost predicate LinkAt(t: Tower, l: int)
    requires 0 <= l < |t| - 1
  {
    Linked(t[l + 1], t[l])
  }

  /** All rows are linked, except possibly the rows `skip` and `skip + 1`. */
  ghost predicate Links(t: Tower, skip: int) {
    forall l :: 0 <= l < |t| - 1 && l != skip ==> LinkAt(t, l)
  }

  /** As `Linked`, but the key kept for child `c` may be out of date. */
  ghost predicate LinkedButKey(upper: seq<Box>, lower: seq<Box>, c: nat) {
    && c < |lower| && |Flat(upper)| == |lower|
    && Flat(upper)[c].rid == Rid(lower[c].page, -1)
    && Flat(upper) == Heads(lower)[c := Flat(upper)[c]]
  }

  /** As `Linked`, but `lower[c]` is not in the upper row yet. */
  ghost predicate LinkedButHole(upper: seq<Box>, lower: seq<Box>, c: nat) {
    c < |lower| && Flat(upper) == Remove(Heads(lower), c)
  }

  ghost predicate Filled(t: Tower) {
    forall l :: 0 <= l < |t| ==> NonEmpty(t[l]) || (|t| == 1 && |t[0]| == 1)
  }

  // ----- page sizes -----

  /** Least number of entries of a page at depth `l`; the root is exempt from half-full. */
  function Least(height: nat, l: nat, max: nat): nat {
    if l + 1 < height then max / 2 else if l > 0 then 2 else 0
  }

  ghost predicate RowSized(row: seq<Box>, least: nat, max: nat, but: int) {
    forall j :: 0 <= j < |row| && j != but ==> least <= |row[j].ents| < max
  }

  /** All pages have legal sizes, except possibly page `xj` of row `xl`. */
  ghost predicate Sized(t: Tower, max: nat, xl: int, xj: int) {
    forall l :: 0 <= l < |t| ==>
      RowSized(t[l], Least(|t|, l, max), max, if l == xl then xj else -1)
  }

  // ----- the leaf chain -----

  /** Page at place `i` of the ring; both ends are the leaf header page. */
  function Ring(row: seq<Box>, i: int): int {
    if 0 <= i < |row| then row[i].page else LEAF_HEADER_PAGE
  }

  ghost predicate ChainAt(pages: Pages, row: seq<Box>, i: int) {
    && Ring(row, i) in pages && Ring(row, i + 1) in pages
    && pages[Ring(row, i)].next == Ring(row, i + 1)
    && pages[Ring(row, i + 1)].prev == Ring(row, i)
  }

  ghost predicate Chain(pages: Pages, row: seq<Box>) {
    forall i :: -1 <= i < |row| ==> ChainAt(pages, row, i)
  }

  ghost function Count(t: Tower): nat {
    if t == [] then 0 else |t[0]| + Count(t[1..])
  }

  // ----- the whole invariant -----

  ghost predicate Topped(pages: Pages, t: Tower, root: int) {
    && |t| > 0 && |t[|t| - 1]| == 1 && t[|t| - 1][0].page == root
    && root in pages && pages[root].parent == NO_PAGE
  }

  /** The page counter of the file and the header field `last_leaf_`. */
  datatype Hdr = Hdr(next: int, last: int)

  /** The invariant without sizes, with the link above row `skip` left open. */
  ghost predicate Frame(pages: Pages, lvl: map<int, nat>, t: Tower, h: Hdr, skip: int) {
    match h
    case Hdr(next, last) =>
      && |t| > 0 && |t[0]| > 0
      && Body(pages, lvl, t, next) && Links(t, skip) && Filled(t)
      && Sorted(Flat(t[0])) && Chain(pages, t[0])
      && t[0][0].page == INIT_ROOT_PAGE && last == t[0][|t[0]| - 1].page
  }

  // ----- page updates -----

  function SetEnts(pages: Pages, p: int, ents: seq<Entry>): Pages
    requires p in pages
  {
    pages[p := pages[p].(ents := ents)]
  }

  ghost function SetBox(t: Tower, l: nat, j: nat, b: Box): Tower
    requires l < |t| && j < |t[l]|
  {
    t[l := t[l][j := b]]
  }

  lemma {:induction false} SetBoxRows(t: Tower, l: nat, j: nat, b: Box)
    requires l < |t| && j < |t[l]|
    ensures |SetBox(t, l, j, b)| == |t| && SetBox(t, l, j, b)[l] == t[l][j := b]
    ensures forall m :: 0 <= m < |t| && m != l ==> SetBox(t, l, j, b)[m] == t[m]
  {
  }

  lemma {:induction false} BoxRepOther(pages: Pages, lvl: map<int, nat>, t: Tower, l: nat, j: nat, m: nat, i: nat)
    requires Rep(pages, lvl, t)
    requires l < |t| && j < |t[l]| && m < |t| && i < |t[m]| && (l != m || j != i)
    ensures t[l][j].page != t[m][i].page
  {
    assert BoxRep(pages, lvl, t[l][j], l);
    assert BoxRep(pages, lvl, t[m][i], m);
  }

  lemma {:induction false} RepSetEnts(pages: Pages, lvl: map<int, nat>, t: Tower, l: nat, j: nat, ents: seq<Entry>)
    requires Rep(pages, lvl, t) && l < |t| && j < |t[l]|
    ensures t[l][j].page in pages
    ensures Rep(SetEnts(pages, t[l][j].page, ents), lvl, SetBox(t, l, j, t[l][j].(ents := ents)))
  {
    assert BoxRep(pages, lvl, t[l][j], l);
    var p := t[l][j].page;
    var pages' := SetEnts(pages, p, ents);
    var t' := SetBox(t, l, j, t[l][j].(ents := ents));
    forall m | 0 <= m < |t'| ensures RowRep(pages', lvl, t'[m], m) {
      forall i | 0 <= i < |t'[m]| ensures BoxRep(pages', lvl, t'[m][i], m) {
        assert BoxRep(pages, lvl, t[m][i], m);
        if m != l || i != j {
          BoxRepOther(pages, lvl, t, l, j, m, i);
        }
      }
      assert RowRep(pages, lvl, t[m], m);
    }
  }

  /** Entries of a page may change as long as its children still name it. */
  lemma {:induction false} ParentsSetEnts(pages: Pages, t: Tower, l: nat, j: nat, ents: seq<Entry>)
    requires Parents(pages, t) && l < |t| && j < |t[l]| && t[l][j].page in pages
    requires l > 0 ==> BoxParents(pages, t[l][j].(ents := ents))
    ensures Parents(SetEnts(pages, t[l][j].page, ents), SetBox(t, l, j, t[l][j].(ents := ents)))
  {
    var pages' := SetEnts(pages, t[l][j].page, ents);
    var t' := SetBox(t, l, j, t[l][j].(ents := ents));
    forall m | 1 <= m < |t'| ensures RowParents(pages', t'[m]) {
      assert RowParents(pages, t[m]);
      forall i | 0 <= i < |t'[m]| ensures BoxParents(pages', t'[m][i]) {
        assert BoxParents(pages, if m == l && i == j then t[l][j].(ents := ents) else t[m][i]);
      }
    }
  }

  lemma {:induction false} ChainSame(pages: Pages, pages': Pages, row: seq<Box>, row': seq<Box>)
    requires Chain(pages, row) && |row'| == |row|
    requires forall j :: 0 <= j < |row| ==> row'[j].page == row[j].page
    requires pages'.Keys == pages.Keys
    requires forall p :: p in pages ==> pages'[p].next == pages[p].next && pages'[p].prev == pages[p].prev
    ensures Chain(pages', row')
  {
    forall i | -1 <= i < |row'| ensures ChainAt(pages', row', i) {
      assert ChainAt(pages, row, i);
      assert Ring(row', i) == Ring(row, i) && Ring(row', i + 1) == Ring(row, i + 1);
    }
  }
}

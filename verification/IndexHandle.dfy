/**
 The B+ tree of `src/index/ix_index_handle.cpp`, one method per function of the source.
 */
module IndexHandle {
  import opened Options
  import opened Sequences
  import opened IndexRows
  import opened IndexInvariant
  import opened IndexTower
  import opened IndexPages
  import opened IndexSearch
  import opened IndexSteps
  import opened IndexCursor

  class IxIndexHandle {
    var pages: Pages
    var rootPage: int
    var firstLeaf: int
    var lastLeaf: int
    var numPages: int
    var nextPage: int  // the next page number the disk manager hands out for this file
    const btreeOrder: nat

    ghost var t: Tower
    ghost var lvl: map<int, nat>

    function MaxSize(): nat {
      btreeOrder + 1
    }

    function MinSize(): nat {
      MaxSize() / 2
    }

    /** The invariant apart from sizes and the root, see `Frame`. */
    ghost predicate Core(skip: int, last: int)
      reads this
    {
      && btreeOrder > 2
      && Frame(pages, lvl, t, Hdr(nextPage, last), skip)
      && firstLeaf == INIT_ROOT_PAGE
      && numPages == 2 + Count(t)
    }

    ghost predicate Valid()
      reads this
    {
      Core(-1, lastLeaf) && Topped(pages, t, rootPage) && Sized(t, MaxSize(), -1, -1)
    }

    /** All entries in key order. */
    ghost function Contents(): (s: seq<Entry>)
      reads this
      requires Valid()
      ensures Sorted(s)
    {
      Flat(t[0])
    }

    ghost function AsMap(): map<int, Rid>
      reads this
      requires Valid()
    {
      ToMap(Contents())
    }

    constructor (order: nat)
      requires order > 2
      ensures Valid() && AsMap() == map[] && btreeOrder == order
      ensures rootPage == INIT_ROOT_PAGE && numPages == 3
    {
      btreeOrder := order;
      pages := map[LEAF_HEADER_PAGE := Node(true, NO_PAGE, INIT_ROOT_PAGE, INIT_ROOT_PAGE, []),
                   INIT_ROOT_PAGE := Node(true, NO_PAGE, LEAF_HEADER_PAGE, LEAF_HEADER_PAGE, [])];
      rootPage, firstLeaf, lastLeaf := INIT_ROOT_PAGE, INIT_ROOT_PAGE, INIT_ROOT_PAGE;
      numPages, nextPage := 3, 3;
      t := [[Box(INIT_ROOT_PAGE, [])]];
      lvl := map[INIT_ROOT_PAGE := 0];
      new;
      FlatSingle(Box(INIT_ROOT_PAGE, []));
      assert t[1..] == [];
      assert BoxRep(pages, lvl, t[0][0], 0);
      assert RowRep(pages, lvl, t[0], 0);
      assert RowSized(t[0], Least(1, 0, MaxSize()), MaxSize(), -1);
      forall i | -1 <= i < 1 ensures ChainAt(pages, t[0], i) {
      }
    }

    // ----- reading -----

    /** Walks from the root to the leaf where `key` belongs. */
    method FindLeafPage(key: int) returns (p: int, ghost j: nat)
      requires Valid()
      ensures j < |t[0]| && t[0][j].page == p && p in pages
      ensures pages[p].ents == t[0][j].ents && pages[p].isLeaf && Covers(t[0], j, key)
      ensures Sorted(pages[p].ents)
    {
      hide Flat, Frame, Sized, Count, Covers, Sorted;
      p, j := rootPage, 0;
      ghost var l := |t| - 1;
      RootCovers(t[l], key);
      while !pages[p].isLeaf
        invariant 0 <= l < |t| && j < |t[l]| && t[l][j].page == p && p in pages && Covers(t[l], j, key)
        decreases l
      {
        DescendStep(l, j);
        var r := NodeUpperBound(pages[p].ents, key);
        CoversDown(t[l], t[l - 1], j, r - 1, key);
        p := pages[p].ents[r - 1].rid.pageNo;
        j := Off(t[l], j) + (r - 1);
        l := l - 1;
        PageFacts(l, j);
      }
      PageFacts(l, j);
    }

    lemma {:induction false} PageFacts(l: nat, j: nat)
      requires Valid() && l < |t| && j < |t[l]|
      ensures t[l][j].page in pages && pages[t[l][j].page].ents == t[l][j].ents
      ensures pages[t[l][j].page].isLeaf == (l == 0) && INIT_ROOT_PAGE <= t[l][j].page
      ensures l == 0 ==> Sorted(t[0][j].ents)
    {
      assert BoxRep(pages, lvl, t[l][j], l);
      SortedBox(t[0], if l == 0 then j else 0);
    }

    lemma {:induction false} DescendStep(l: nat, j: nat)
      requires Valid() && l < |t| && j < |t[l]| && t[l][j].page in pages && !pages[t[l][j].page].isLeaf
      ensures l > 0 && pages[t[l][j].page].ents == t[l][j].ents && Sorted(t[l][j].ents) && NonEmpty(t[l])
      ensures NonEmpty(t[l - 1]) && Linked(t[l], t[l - 1])
    {
      hide Flat;
      assert BoxRep(pages, lvl, t[l][j], l);
      assert NonEmpty(t[l]) && NonEmpty(t[l - 1]);
      forall m | 0 <= m < l ensures Linked(t[m + 1], t[m]) && NonEmpty(t[m]) {
        assert LinkAt(t, m);
      }
      SortedRow(t, l);
      SortedBox(t[l], j);
    }

    /** Where `key` is, or would be, inside its leaf and among all entries. */
    lemma {:induction false} LeafSpot(j: nat, pos: nat, key: int)
      requires Valid() && j < |t[0]| && Covers(t[0], j, key) && LowerSpot(t[0][j].ents, pos, key)
      ensures LowerSpot(Contents(), Off(t[0], j) + pos, key)
      ensures pos < |t[0][j].ents| && t[0][j].ents[pos].key == key <==> key in AsMap()
      ensures key in AsMap() ==> AsMap()[key] == t[0][j].ents[pos].rid
    {
      assert NonEmpty(t[0]) || (|t| == 1 && |t[0]| == 1);
      RowSpot(t[0], j, pos, key);
    }

    method GetValue(key: int) returns (found: bool, rid: Rid)
      requires Valid()
      ensures found == (key in AsMap())
      ensures found ==> rid == AsMap()[key]
    {
      var p, j := FindLeafPage(key);
      var pos := NodeLowerBound(pages[p].ents, key);
      LeafSpot(j, pos, key);
      if pos == |pages[p].ents| || pages[p].ents[pos].key != key {
        return false, Rid(NO_PAGE, NO_PAGE);
      }
      return true, pages[p].ents[pos].rid;
    }

    /** Index of `child` among the entries of `parent`. */
    method FindChild(parent: int, child: int) returns (i: nat)
      requires parent in pages && IsChild(child, pages[parent].ents)
      ensures i < |pages[parent].ents| && pages[parent].ents[i].rid.pageNo == child
    {
      i := 0;
      while pages[parent].ents[i].rid.pageNo != child
        invariant i < |pages[parent].ents|
        invariant exists x :: i <= x < |pages[parent].ents| && pages[parent].ents[x].rid.pageNo == child
        decreases |pages[parent].ents| - i
      {
        i := i + 1;
      }
    }

    /** A page's parent pointer leads to the box above it, and `FindChild` to its place there. */
    lemma {:induction false} ParentPlace(l: nat, c: nat) returns (j: nat, i: nat)
      requires Core(l, lastLeaf) && l + 1 < |t| && c < |t[l]|
      requires RidsLinked(t[l + 1], t[l])
      ensures j < |t[l + 1]| && i < |t[l + 1][j].ents| && c == Off(t[l + 1], j) + i
      ensures Flat(t[l + 1])[c] == t[l + 1][j].ents[i] && t[l + 1][j].ents[i].rid.pageNo == t[l][c].page
      ensures t[l][c].page in pages && pages[t[l][c].page].parent == t[l + 1][j].page
      ensures pages[t[l][c].page].ents == t[l][c].ents && t[l][c].ents != []
      ensures t[l + 1][j].page in pages && pages[t[l + 1][j].page].ents == t[l + 1][j].ents
      ensures INIT_ROOT_PAGE <= t[l + 1][j].page
      ensures OnlyPlace(t[l + 1][j].ents, t[l][c].page, i)
    {
      assert RowParents(pages, t[l + 1]);
      j, i := ParentBox(pages, t[l + 1], t[l], c);
      assert RowRep(pages, lvl, t[l + 1], l + 1) && BoxRep(pages, lvl, t[l + 1][j], l + 1);
      assert RowRep(pages, lvl, t[l], l) && BoxRep(pages, lvl, t[l][c], l) && NonEmpty(t[l]);
      var ents := t[l + 1][j].ents;
      forall x | 0 <= x < |ents| && ents[x].rid.pageNo == t[l][c].page ensures x == i {
        ChildOnce(t[l + 1], t[l], j, x, j, i);
      }
    }

    // ----- separators -----

    /** One turn of the loop in `MaintainParent`. */
    method RaiseKey(curr: int, ghost l: nat, ghost c: nat, ghost xl: int, ghost xj: int)
      returns (done: bool, ghost j: nat)
      requires Core(l, lastLeaf) && Topped(pages, t, rootPage) && Sized(t, MaxSize(), xl, xj)
      requires l + 1 < |t| && c < |t[l]| && t[l][c].page == curr && LinkedButKey(t[l + 1], t[l], c)
      modifies `pages, `t
      ensures |t| == old(|t|) && t[0] == old(t[0]) && j < |t[l + 1]|
      ensures Topped(pages, t, rootPage) && Sized(t, MaxSize(), xl, xj)
      ensures done ==> Core(-1, lastLeaf)
      ensures !done ==> Core(l + 1, lastLeaf) && (l + 2 < |t| ==> LinkedButKey(t[l + 2], t[l + 1], j))
      ensures curr in pages && t[l + 1][j].page == pages[curr].parent && pages[curr].parent in pages
    {
      hide Flat, Off, Frame, Sized, Topped, LinkedButKey, RidsLinked, Count, SetBox;
      LinkedButKeyRids(t[l + 1], t[l], c);
      ghost var i;
      j, i := ParentPlace(l, c);
      var parent := pages[curr].parent;
      assert IsChild(curr, pages[parent].ents);
      var rank := FindChild(parent, curr);
      if pages[parent].ents[rank].key == pages[curr].ents[0].key {
        KeyDone(pages, lvl, t, Hdr(nextPage, lastLeaf), l, c);
        done := true;
      } else {
        done := false;
        LinkedButKeyRid(t[l + 1], t[l], c);
        KeyStep(pages, lvl, t, nextPage, lastLeaf, l, c, j, i);
        SetKeySizes(t, MaxSize(), xl, xj, l + 1, j, i, Head(t[l][c]));
        ToppedSet(pages, t, rootPage, l + 1, j, t[l + 1][j].ents[i := Head(t[l][c])]);
        SetBoxRows(t, l + 1, j, t[l + 1][j].(ents := t[l + 1][j].ents[i := Head(t[l][c])]));
        var ents := pages[parent].ents;
        pages := SetEnts(pages, parent, ents[rank := Entry(pages[curr].ents[0].key, ents[rank].rid)]);
        t := SetBox(t, l + 1, j, t[l + 1][j].(ents := t[l + 1][j].ents[i := Head(t[l][c])]));
      }
    }

    /** Writes the first key of `node` into its ancestors until one already has it. */
    method MaintainParent(node: int, ghost c: nat, ghost xl: int, ghost xj: int)
      requires Core(0, lastLeaf) && Topped(pages, t, rootPage) && Sized(t, MaxSize(), xl, xj)
      requires c < |t[0]| && t[0][c].page == node && (|t| > 1 ==> LinkedButKey(t[1], t[0], c))
      modifies `pages, `t
      ensures Core(-1, lastLeaf) && Topped(pages, t, rootPage) && Sized(t, MaxSize(), xl, xj)
      ensures t[0] == old(t[0]) && |t| == old(|t|)
    {
      hide Flat, Frame, Sized, LinkedButKey, Count;
      var curr := node;
      ghost var l: nat, j: nat := 0, c;
      StartsInPages(c);
      while pages[curr].parent != NO_PAGE
        invariant l < |t| && j < |t[l]| && t[l][j].page == curr && curr in pages
        invariant Core(l, lastLeaf) && Topped(pages, t, rootPage) && Sized(t, MaxSize(), xl, xj)
        invariant l + 1 < |t| ==> LinkedButKey(t[l + 1], t[l], j)
        invariant t[0] == old(t[0]) && |t| == old(|t|)
        decreases |t| - l
      {
        var done;
        done, j := RaiseKey(curr, l, j, xl, xj);
        if done {
          return;
        }
        curr := pages[curr].parent;
        l := l + 1;
      }
      ChainEnds(l, j);
    }

    lemma {:induction false} StartsInPages(c: nat)
      requires Core(0, lastLeaf) && c < |t[0]|
      ensures t[0][c].page in pages
    {
      assert BoxRep(pages, lvl, t[0][c], 0);
    }

    /** Only the root has no parent, so an open separator above it is no separator at all. */
    lemma {:induction false} ChainEnds(l: nat, j: nat)
      requires Core(l, lastLeaf) && l < |t| && j < |t[l]| && t[l][j].page in pages
      requires l + 1 < |t| ==> LinkedButKey(t[l + 1], t[l], j)
      requires pages[t[l][j].page].parent == NO_PAGE
      ensures Core(-1, lastLeaf)
    {
      if l + 1 < |t| {
        LinkedButKeyRids(t[l + 1], t[l], j);
        var x, y := ParentPlace(l, j);
        assert false;
      }
      LinksPatch(t, t, l, l, l, -1);
    }

    // ----- splitting -----

    /** A fresh, zeroed page. */
    method CreateNode() returns (q: int)
      modifies `pages, `numPages, `nextPage
      ensures q == old(nextPage) && nextPage == old(nextPage) + 1 && numPages == old(numPages) + 1
      ensures pages == old(pages)[q := Node(false, 0, 0, 0, [])]
    {
      numPages := numPages + 1;
      q := nextPage;
      nextPage := nextPage + 1;
      pages := pages[q := Node(false, 0, 0, 0, [])];
    }

    /** Makes `node` the parent of its children `from..to`. */
    method MaintainChildren(node: int, from: nat, to: nat)
      requires node in pages && from <= to <= |pages[node].ents|
      requires forall i :: 0 <= i < |pages[node].ents| ==> pages[node].ents[i].rid.pageNo in pages
      modifies `pages
      ensures pages.Keys == old(pages).Keys
      ensures forall x :: x in pages ==>
                pages[x] ==
                if IsChild(x, old(pages)[node].ents[from..to]) then old(pages)[x].(parent := node) else old(pages)[x]
    {
      ghost var ents := pages[node].ents;
      var i := from;
      while i < to
        invariant from <= i <= to && pages.Keys == old(pages).Keys && pages[node].ents == ents
        invariant forall x :: x in pages ==>
                    pages[x] ==
                    if IsChild(x, ents[from..i]) then old(pages)[x].(parent := node) else old(pages)[x]
      {
        var child := pages[node].ents[i].rid.pageNo;
        ChildrenGrow(ents, from, i);
        pages := pages[child := pages[child].(parent := node)];
        i := i + 1;
      }
    }

    /** Puts the new leaf `q` between `p` and its successor. */
    method LinkSibling(p: int, q: int)
      requires p in pages && q in pages && pages[p].next in pages && p != q && pages[p].next != q
      modifies `pages
      ensures pages.Keys == old(pages).Keys
      ensures pages[q] == old(pages)[q].(prev := p, next := old(pages)[p].next)
      ensures forall x :: x in pages && x != q ==>
                pages[x] == old(pages)[x].(next := if x == p then q else old(pages)[x].next,
                                           prev := if x == old(pages)[p].next then q else old(pages)[x].prev)
    {
      pages := pages[q := pages[q].(prev := p, next := pages[p].next)];
      pages := pages[p := pages[p].(next := q)];
      var after := pages[q].next;
      pages := pages[after := pages[after].(prev := q)];
    }

    /** The pages right after the entries were divided, before children are told. */
    method MoveUpperHalf(p: int, q: int, at: nat)
      requires p in pages && q in pages && p != q && at <= |pages[p].ents|
      modifies `pages
      ensures pages == old(pages)[q := old(pages)[q].(isLeaf := old(pages)[p].isLeaf, parent := old(pages)[p].parent,
                                                      ents := old(pages)[p].ents[at..])]
                                 [p := old(pages)[p].(ents := old(pages)[p].ents[..at])]
    {
      pages := pages[q := pages[q].(isLeaf := pages[p].isLeaf, parent := pages[p].parent, ents := pages[p].ents[at..])];
      pages := pages[p := pages[p].(ents := pages[p].ents[..at])];
    }

    /** `split` on pages alone. */
    method SplitPage(p: int) returns (q: int)
      requires p in pages && MinSize() <= |pages[p].ents| && forall x :: x in pages ==> x < nextPage
      requires if pages[p].isLeaf then pages[p].next in pages && pages[p].next != p
               else forall i :: 0 <= i < |pages[p].ents| ==> pages[p].ents[i].rid.pageNo in pages
      modifies `pages, `numPages, `nextPage
      ensures q == old(nextPage) && nextPage == old(nextPage) + 1 && numPages == old(numPages) + 1
      ensures SplitResult(old(pages), pages, p, q, MinSize())
    {
      q := CreateNode();
      var at := MinSize();
      if pages[p].isLeaf {
        LinkSibling(p, q);
        MoveUpperHalf(p, q, at);
      } else {
        MoveUpperHalf(p, q, at);
        ghost var ents := pages[q].ents;
        assert ents[0..|ents|] == ents;
        MaintainChildren(q, 0, |pages[q].ents|);
      }
    }

    /** Divides the full page `p` in two and returns the new right half. */
    method Split(p: int, ghost l: nat, ghost j: nat) returns (q: int)
      requires Core(-1, lastLeaf) && Topped(pages, t, rootPage) && Sized(t, MaxSize(), l, j)
      requires l < |t| && j < |t[l]| && t[l][j].page == p && |t[l][j].ents| == MaxSize()
      modifies `pages, `numPages, `nextPage, `t, `lvl
      ensures t == SplitTower(old(t), l, j, MinSize(), q)
      ensures Core(l, t[0][|t[0]| - 1].page) && HalfDone(pages, t, rootPage, MaxSize(), l, j, p, q)
      ensures Flat(t[0]) == Flat(old(t[0]))
      ensures q == old(nextPage)
    {
      hide Frame, HalfDone, Sized, Topped, SplitTower, SplitResult, Flat, Count;
      SplitReady(l, j);
      q := SplitPage(p);
      SplitWhole(old(pages), pages, lvl, t, old(nextPage), lastLeaf, rootPage, MaxSize(), l, j);
      t := SplitTower(t, l, j, MinSize(), q);
      lvl := lvl[q := l];
    }

    /** The pages around a full page are as `SplitPage` expects them. */
    lemma {:induction false} SplitReady(l: nat, j: nat)
      requires Core(-1, lastLeaf) && l < |t| && j < |t[l]|
      ensures t[l][j].page in pages && pages[t[l][j].page].ents == t[l][j].ents
      ensures pages[t[l][j].page].isLeaf == (l == 0)
      ensures forall x :: x in pages ==> x < nextPage
      ensures l == 0 ==>
                pages[t[l][j].page].next == Ring(t[0], j + 1) && Ring(t[0], j + 1) in pages &&
                Ring(t[0], j + 1) != t[l][j].page
      ensures l > 0 ==> forall i :: 0 <= i < |t[l][j].ents| ==> t[l][j].ents[i].rid.pageNo in pages
    {
      assert BoxRep(pages, lvl, t[l][j], l);
      if l == 0 {
        LeafRow(pages, lvl, t);
        assert ChainAt(pages, t[0], j);
      } else {
        assert RowParents(pages, t[l]) && BoxParents(pages, t[l][j]);
      }
    }

    // ----- inserting -----

    /** A new page with `p` and `q` as its two children. */
    method RootOver(p: int, key: int, q: int) returns (r: int)
      requires p in pages && q in pages && p != q && pages[p].ents != [] && nextPage !in pages
      modifies `pages, `numPages, `nextPage
      ensures r == old(nextPage) && nextPage == old(nextPage) + 1 && numPages == old(numPages) + 1
      ensures RootPages(old(pages), pages, p, q, r,
                        [Entry(old(pages)[p].ents[0].key, Rid(p, -1)), Entry(key, Rid(q, -1))])
    {
      r := CreateNode();
      pages := pages[r := Node(false, NO_PAGE, NO_PAGE, NO_PAGE,
                               [Entry(pages[p].ents[0].key, Rid(p, -1)), Entry(key, Rid(q, -1))])];
      pages := pages[p := pages[p].(parent := r)];
      pages := pages[q := pages[q].(parent := r)];
    }

    /** The old root was split: a new root takes the two halves as its children. */
    method GrowRoot(p: int, key: int, q: int)
      requires |t| > 0 && Core(|t| - 1, lastLeaf) && HalfDone(pages, t, rootPage, MaxSize(), |t| - 1, 0, p, q)
      requires key == Head(t[|t| - 1][1]).key && pages[p].parent == NO_PAGE
      modifies this
      ensures Valid() && |t| == old(|t|) + 1 && t[..|t| - 1] == old(t)
      ensures lastLeaf == old(lastLeaf)
    {
      hide Frame, HalfDone, Sized, Topped, Flat, Count, Heads, RootPages;
      GrowReady(pages, lvl, t, Hdr(nextPage, lastLeaf), rootPage, MaxSize(), p, q);
      var r := RootOver(p, key, q);
      rootPage := r;
      GrowWhole(old(pages), pages, lvl, t, old(nextPage), lastLeaf, old(rootPage), MaxSize(), p, q);
      lvl := lvl[r := |t|];
      t := t + [[Box(r, Heads(t[|t| - 1]))]];
    }

    /** Adds the new page `q` to the parent of `p`, splitting upwards as far as needed. */
    method InsertIntoParent(p: int, key: int, q: int, ghost l: nat, ghost c: nat)
      requires Core(l, lastLeaf) && HalfDone(pages, t, rootPage, MaxSize(), l, c, p, q)
      requires key == Head(t[l][c + 1]).key
      modifies this
      ensures Valid() && t[0] == old(t[0]) && lastLeaf == old(lastLeaf)
      decreases |t| - l
    {
      hide Frame, HalfDone, Sized, Topped, Flat, Count, Off, SetBox, SplitTower;
      HalfHeads(pages, lvl, t, Hdr(nextPage, lastLeaf), rootPage, MaxSize(), l, c, p, q);
      if pages[p].parent == NO_PAGE {
        OnlyRootIsOrphan(pages, lvl, t, Hdr(nextPage, lastLeaf), rootPage, MaxSize(), l, c, p, q);
        GrowRoot(p, key, q);
      } else {
        ghost var j, i := HolePlace(pages, lvl, t, Hdr(nextPage, lastLeaf), rootPage, MaxSize(), l, c, p, q);
        var parent := pages[p].parent;
        var rank := FindChild(parent, p);
        FillWhole(pages, lvl, t, nextPage, lastLeaf, rootPage, MaxSize(), l, c, p, q, j, i);
        pages := SetEnts(pages, parent, Insert(pages[parent].ents, rank + 1, Entry(key, Rid(q, -1))));
        t := SetBox(t, l + 1, j, t[l + 1][j].(ents := Insert(t[l + 1][j].ents, i + 1, Head(t[l][c + 1]))));
        if |pages[parent].ents| == MaxSize() {
          SplitTowerRows(t, l + 1, j, MinSize(), nextPage);
          FrameLast(pages, lvl, t, Hdr(nextPage, lastLeaf), -1);
          var s := Split(parent, l + 1, j);
          HalfHeads(pages, lvl, t, Hdr(nextPage, lastLeaf), rootPage, MaxSize(), l + 1, j, parent, s);
          InsertIntoParent(parent, pages[s].ents[0].key, s, l + 1, j);
        } else {
          SizedExact(t, MaxSize(), l + 1, j);
        }
      }
    }

    /** The leaf where an entry is stored. */
    ghost predicate StoredAt(page: int, e: Entry)
      reads this
    {
      && |t| > 0 && INIT_ROOT_PAGE <= page && page in pages && pages[page].isLeaf && e in pages[page].ents
      && exists j :: 0 <= j < |t[0]| && t[0][j].page == page
    }

    lemma {:induction false} StoredIn(j: nat, i: nat)
      requires Valid() && j < |t[0]| && i < |t[0][j].ents|
      ensures StoredAt(t[0][j].page, t[0][j].ents[i])
    {
      PageFacts(0, j);
    }

    /** The leaf `p` is full: splits it and returns the half that holds `key`. */
    method SplitLeaf(p: int, key: int, ghost j: nat, ghost pos: nat) returns (page: int)
      requires Core(-1, lastLeaf) && Topped(pages, t, rootPage) && Sized(t, MaxSize(), 0, j)
      requires j < |t[0]| && t[0][j].page == p && |t[0][j].ents| == MaxSize()
      requires pos < |t[0][j].ents| && t[0][j].ents[pos].key == key
      modifies this
      ensures Valid() && Flat(t[0]) == old(Flat(t[0])) && StoredAt(page, old(t[0][j].ents[pos]))
    {
      hide Frame, Sized, Topped, Flat, Count, SplitTower, HalfDone, Sorted, StoredAt, LowerSpot;
      FrameLast(pages, lvl, t, Hdr(nextPage, lastLeaf), -1);
      SplitLeafRow(pages, lvl, t, Hdr(nextPage, lastLeaf), j, MinSize());
      var q := Split(p, 0, j);
      if p == lastLeaf {
        lastLeaf := q;
      }
      HalfHeads(pages, lvl, t, Hdr(nextPage, lastLeaf), rootPage, MaxSize(), 0, j, p, q);
      InsertIntoParent(p, pages[q].ents[0].key, q, 0, j);
      FrameLast(pages, lvl, t, Hdr(nextPage, lastLeaf), -1);
      PageFacts(0, j + 1);
      var x := NodeLowerBound(pages[q].ents, key);
      RightHalfSpot(old(t[0][j].ents), MinSize(), pos, x);
      if pages[q].ents[x].key == key {
        page := q;
        StoredIn(j + 1, pos - MinSize());
      } else {
        page := p;
        StoredIn(j, pos);
      }
    }

    /** Adds `key` unless it is present; returns the leaf that holds it, or `NO_PAGE`. */
    method InsertEntry(key: int, value: Rid) returns (page: int)
      requires Valid()
      modifies this
      ensures Valid()
      ensures page == NO_PAGE <==> key in old(AsMap())
      ensures page == NO_PAGE ==> unchanged(this)
      ensures page != NO_PAGE ==> AsMap() == old(AsMap())[key := value] && StoredAt(page, Entry(key, value))
    {
      hide Frame, Sized, Topped, Flat, Count, Off, SetBox, SplitTower, HalfDone, Sorted, Covers, ToMap;
      var p, j := FindLeafPage(key);
      var pos := NodeLowerBound(pages[p].ents, key);
      LeafSpot(j, pos, key);
      if pos < |pages[p].ents| && pages[p].ents[pos].key == key {
        return NO_PAGE;
      }
      ghost var e := Entry(key, value);
      InsertLeaf(pages, lvl, t, nextPage, lastLeaf, rootPage, MaxSize(), j, pos, e);
      pages := SetEnts(pages, p, Insert(pages[p].ents, pos, Entry(key, value)));
      t := SetBox(t, 0, j, t[0][j].(ents := Insert(t[0][j].ents, pos, e)));
      if pos == 0 {
        MaintainParent(p, j, 0, j);
      }
      LeafPage(pages, lvl, t, Hdr(nextPage, lastLeaf), -1, j);
      if |pages[p].ents| == MaxSize() {
        page := SplitLeaf(p, key, j, pos);
      } else {
        SizedExact(t, MaxSize(), 0, j);
        StoredIn(j, pos);
        page := p;
      }
    }

    // ----- deleting -----

    /** After a removal at the root: an inner root with one child hands over to it. */
    method AdjustRoot(p: int)
      requires Core(-1, lastLeaf) && Topped(pages, t, rootPage) && p == rootPage
      requires Under(t, MaxSize(), |t| - 1, 0)
      modifies this
      ensures Valid() && Flat(t[0]) == old(Flat(t[0])) && lastLeaf == old(lastLeaf)
    {
      hide Frame, Sized, Topped, Flat, Count, Under;
      RootFacts(pages, lvl, t, Hdr(nextPage, lastLeaf), rootPage, MaxSize());
      if pages[p].isLeaf && |pages[p].ents| == 0 {
        rootPage := INIT_ROOT_PAGE;
      } else if !pages[p].isLeaf && |pages[p].ents| == 1 {
        var child := pages[p].ents[0].rid.pageNo;
        pages := SetEnts(pages, p, []);
        rootPage := child;
        pages := pages[child := pages[child].(parent := NO_PAGE)];
        numPages := numPages - 1;
        CollapseStep(old(pages), pages, lvl, t, nextPage, lastLeaf, MaxSize(), p, child);
        t := t[..|t| - 1];
      }
    }

    /** Three pages get new entries. */
    method SetThree(p: int, x: seq<Entry>, r: int, y: seq<Entry>, u: int, i: nat, e: Entry)
      requires p in pages && r in pages && u in pages && p != r && p != u && r != u && i < |pages[u].ents|
      modifies `pages
      ensures ShiftEnts(old(pages), pages, p, x, r, y, u, i, e) && SameRing(old(pages), pages)
      ensures forall z :: z in pages ==> pages[z].parent == old(pages)[z].parent
    {
      pages := SetEnts(pages, p, x);
      pages := SetEnts(pages, r, y);
      pages := SetEnts(pages, u, pages[u].ents[i := e]);
    }

    /** `maintain_child` for one child: inner pages only. */
    method MaintainChild(node: int, i: nat)
      requires node in pages && i < |pages[node].ents| &&
               (pages[node].isLeaf || pages[node].ents[i].rid.pageNo in pages)
      modifies `pages
      ensures pages == if old(pages)[node].isLeaf then old(pages)
                       else
                         var c := old(pages)[node].ents[i].rid.pageNo;
                         old(pages)[c := old(pages)[c].(parent := node)]
    {
      if !pages[node].isLeaf {
        var child := pages[node].ents[i].rid.pageNo;
        pages := pages[child := pages[child].(parent := node)];
      }
    }

    /** Moves the first entry of the right sibling to the end of `node`. */
    method BorrowFromRight(node: int, neighbor: int, parent: int)
      requires node in pages && neighbor in pages && parent in pages
      requires neighbor != node && neighbor != parent && node != parent
      requires |pages[neighbor].ents| > 1 && 1 < |pages[parent].ents|
      requires pages[node].isLeaf || pages[neighbor].ents[0].rid.pageNo in pages
      modifies `pages
      ensures BorrowRight(old(pages), pages, node, neighbor, parent)
    {
      hide ShiftEnts, SameRing, Moved;
      ghost var moved := if pages[node].isLeaf then [] else pages[neighbor].ents[0..1];
      var ents := pages[neighbor].ents;
      SetThree(node, pages[node].ents + ents[..1], neighbor, ents[1..], parent, 1,
               pages[parent].ents[1].(key := ents[1].key));
      ghost var mid := pages;
      ShiftFacts(old(pages), mid, node, old(pages)[node].ents + ents[..1], neighbor, ents[1..], parent, 1,
                 old(pages)[parent].ents[1].(key := ents[1].key));
      MaintainChild(node, |pages[node].ents| - 1);
      Reparented(old(pages), mid, pages, node, old(pages)[node].ents + ents[..1], neighbor, ents[1..], parent, 1,
                 old(pages)[parent].ents[1].(key := ents[1].key), moved, node);
    }

    /** Moves the last entry of the left sibling to the front of `node`. */
    method BorrowFromLeft(neighbor: int, node: int, parent: int, index: nat)
      requires node in pages && neighbor in pages && parent in pages
      requires neighbor != node && neighbor != parent && node != parent
      requires |pages[neighbor].ents| > 1 && index < |pages[parent].ents|
      requires pages[node].isLeaf || pages[neighbor].ents[|pages[neighbor].ents| - 1].rid.pageNo in pages
      modifies `pages
      ensures BorrowLeft(old(pages), pages, neighbor, node, parent, index)
    {
      hide ShiftEnts, SameRing, Moved;
      var ents := pages[neighbor].ents;
      var n := |ents| - 1;
      ghost var moved := if pages[node].isLeaf then [] else ents[n..|ents|];
      SetThree(neighbor, ents[..n], node, ents[n..] + pages[node].ents, parent, index,
               pages[parent].ents[index].(key := ents[n].key));
      ghost var mid := pages;
      ShiftFacts(old(pages), mid, neighbor, ents[..n], node, ents[n..] + old(pages)[node].ents, parent, index,
                 old(pages)[parent].ents[index].(key := ents[n].key));
      MaintainChild(node, 0);
      Reparented(old(pages), mid, pages, neighbor, ents[..n], node, ents[n..] + old(pages)[node].ents, parent, index,
                 old(pages)[parent].ents[index].(key := ents[n].key), moved, node);
    }

    /** Takes `leaf` out of the leaf ring. */
    method EraseLeaf(leaf: int)
      requires leaf in pages && pages[leaf].prev in pages && pages[leaf].next in pages
      requires pages[leaf].prev != leaf && pages[leaf].next != leaf
      modifies `pages
      ensures pages.Keys == old(pages).Keys && pages[leaf] == old(pages)[leaf]
      ensures forall x :: x in pages && x != leaf ==>
                pages[x] == old(pages)[x].(
                  next := if x == old(pages)[leaf].prev then old(pages)[leaf].next else old(pages)[x].next,
                  prev := if x == old(pages)[leaf].next then old(pages)[leaf].prev else old(pages)[x].prev)
    {
      var prev := pages[leaf].prev;
      pages := pages[prev := pages[prev].(next := pages[leaf].next)];
      var next := pages[leaf].next;
      pages := pages[next := pages[next].(prev := pages[leaf].prev)];
    }

    /** Moves the entries of inner page `right` to `left`. */
    method MergeInner(left: int, right: int)
      requires left in pages && right in pages && left != right
      requires ChildrenIn(pages, pages[left].ents) && ChildrenIn(pages, pages[right].ents)
      modifies `pages
      ensures InnerMerged(old(pages), pages, left, right)
    {
      hide IsChild;
      var n := |pages[left].ents|;
      pages := SetEnts(pages, left, pages[left].ents + pages[right].ents);
      assert pages[left].ents[n..|pages[left].ents|] == pages[right].ents;
      MaintainChildren(left, n, |pages[left].ents|);
    }

    /** Moves the entries of leaf `right` to `left` and unchains `right`. */
    method MergeLeaf(left: int, right: int)
      requires left in pages && right in pages && left != right
      requires pages[right].prev == left && pages[right].next in pages && pages[right].next != right
      modifies `pages
      ensures LeafMerged(old(pages), pages, left, right)
    {
      pages := SetEnts(pages, left, pages[left].ents + pages[right].ents);
      EraseLeaf(right);
    }

    /** Moves all entries of `right` to `left` and forgets `right`. */
    method MergePages(left: int, right: int, parent: int, index: nat)
      requires left in pages && right in pages && parent in pages && left != right && left != parent && right != parent
      requires index < |pages[parent].ents| && pages[left].isLeaf == pages[right].isLeaf
      requires if pages[right].isLeaf then
                 pages[right].prev == left && pages[right].next in pages && pages[right].next != right
               else ChildrenIn(pages, pages[left].ents) && ChildrenIn(pages, pages[right].ents)
      modifies `pages, `numPages, `lastLeaf
      ensures MergeResult(old(pages), pages, left, right, parent, index)
      ensures numPages == old(numPages) - 1
      ensures lastLeaf == if old(pages)[right].isLeaf && right == old(lastLeaf) then left else old(lastLeaf)
    {
      hide IsChild, ChildrenIn, InnerMerged, LeafMerged, MergeResult;
      if !pages[right].isLeaf {
        MergeInner(left, right);
        InnerMergeDone(old(pages), pages, left, right, parent, index);
      } else {
        MergeLeaf(left, right);
        LeafMergeDone(old(pages), pages, left, right, parent, index);
        if right == lastLeaf {
          lastLeaf := left;
        }
      }
      numPages := numPages - 1;
      pages := SetEnts(pages, parent, Remove(pages[parent].ents, index));
    }

    /** Evens out `node` and a sibling that can spare an entry; `index` is the slot of `node` in `parent`. */
    method Redistribute(neighbor: int, node: int, parent: int, index: nat, ghost l: nat, ghost j: nat, ghost k: nat)
      requires Core(-1, lastLeaf) && Topped(pages, t, rootPage) && Under(t, MaxSize(), l, j)
      requires l + 1 < |t| && k < |t[l + 1]| && t[l + 1][k].page == parent && t[l][j].page == node
      requires if index == 0 then Pair(pages, t, l, j, k, 0) && t[l][j + 1].page == neighbor
               else j > 0 && Pair(pages, t, l, j - 1, k, index - 1) && t[l][j - 1].page == neighbor
      requires |pages[node].ents| < MinSize() && |pages[node].ents| + |pages[neighbor].ents| >= 2 * MinSize()
      modifies this
      ensures Valid() && Flat(t[0]) == old(Flat(t[0]))
    {
      hide Frame, Sized, Topped, Flat, Count, Off, ShiftTower, BorrowLeft, BorrowRight, ChildrenIn, Under;
      if index == 0 {
        BorrowRightReady(pages, t, MaxSize(), l, j, k);
        BorrowFromRight(node, neighbor, parent);
        BorrowRightWhole(old(pages), pages, lvl, t, nextPage, lastLeaf, rootPage, MaxSize(), l, j, k);
        t := ShiftTower(t, l, j, t[l][j].ents + t[l][j + 1].ents[..1], t[l][j + 1].ents[1..], k, 0);
      } else {
        BorrowLeftReady(pages, t, MaxSize(), l, j, k, index);
        BorrowFromLeft(neighbor, node, parent, index);
        BorrowLeftWhole(old(pages), pages, lvl, t, nextPage, lastLeaf, rootPage, MaxSize(), l, j, k, index);
        ghost var n := |t[l][j - 1].ents| - 1;
        t := ShiftTower(t, l, j - 1, t[l][j - 1].ents[..n], t[l][j - 1].ents[n..] + t[l][j].ents, k, index - 1);
      }
    }

    /** Merges `node` and a sibling into the left one of the two, then looks after their parent. */
    method Coalesce(neighbor: int, node: int, parent: int, index: nat, ghost l: nat, ghost j: nat, ghost k: nat)
      requires Core(-1, lastLeaf) && Topped(pages, t, rootPage) && Under(t, MaxSize(), l, j)
      requires l + 1 < |t| && k < |t[l + 1]| && t[l + 1][k].page == parent && t[l][j].page == node
      requires if index == 0 then Pair(pages, t, l, j, k, 0) && t[l][j + 1].page == neighbor
               else j > 0 && Pair(pages, t, l, j - 1, k, index - 1) && t[l][j - 1].page == neighbor
      requires |pages[node].ents| < MinSize() && |pages[node].ents| + |pages[neighbor].ents| < 2 * MinSize()
      modifies this
      ensures Valid() && Flat(t[0]) == old(Flat(t[0]))
      decreases |t| - l, 0
    {
      hide Frame, Sized, Topped, Flat, Count, Off, MergeTower, MergeResult, ChildrenIn, Under;
      var left, right, i := neighbor, node, index;
      if index == 0 {
        left, right, i := node, neighbor, 1;
      }
      ghost var x := if index == 0 then j else j - 1;
      MergeReady(pages, t, MaxSize(), l, x, k, i - 1);
      MergePages(left, right, parent, i);
      MergeWhole(old(pages), pages, lvl, t, nextPage, old(lastLeaf), rootPage, MaxSize(), l, x, k, i - 1, j);
      t := MergeTower(t, l, x, k, i - 1);
      CoalesceOrRedistribute(parent, l + 1, k);
    }

    /** Repairs page `p` after it lost an entry. */
    method CoalesceOrRedistribute(p: int, ghost l: nat, ghost j: nat)
      requires Core(-1, lastLeaf) && Topped(pages, t, rootPage) && Under(t, MaxSize(), l, j) && t[l][j].page == p
      modifies this
      ensures Valid() && Flat(t[0]) == old(Flat(t[0]))
      decreases |t| - l, 1
    {
      hide Frame, Sized, Topped, Flat, Count, Off, Pair;
      UnderFacts(pages, lvl, t, Hdr(nextPage, lastLeaf), rootPage, MaxSize(), l, j);
      if pages[p].parent == NO_PAGE {
        AdjustRoot(p);
        return;
      }
      if |pages[p].ents| >= MinSize() {
        SizedExact(t, MaxSize(), l, j);
        return;
      }
      ghost var k, i := SiblingPlace(pages, lvl, t, Hdr(nextPage, lastLeaf), MaxSize(), l, j);
      var parent := pages[p].parent;
      var index := FindChild(parent, p);
      PairFacts(pages, lvl, t, Hdr(nextPage, lastLeaf), l, if i == 0 then j else j - 1, k, if i == 0 then 0 else i - 1);
      PairPages(pages, t, l, if i == 0 then j else j - 1, k, if i == 0 then 0 else i - 1);
      var neighbor := pages[parent].ents[if index == 0 then 1 else index - 1].rid.pageNo;
      if |pages[p].ents| + |pages[neighbor].ents| >= MinSize() * 2 {
        Redistribute(neighbor, p, parent, index, l, j, k);
      } else {
        Coalesce(neighbor, p, parent, index, l, j, k);
      }
    }

    /** Removes `key` if it is present. */
    method DeleteEntry(key: int) returns (found: bool)
      requires Valid()
      modifies this
      ensures Valid()
      ensures found == (key in old(AsMap()))
      ensures !found ==> unchanged(this)
      ensures AsMap() == old(AsMap()) - {key}
    {
      hide Frame, Sized, Topped, Flat, Count, Off, SetBox, Sorted, Covers, ToMap, Under;
      var p, j := FindLeafPage(key);
      var pos := NodeLowerBound(pages[p].ents, key);
      LeafSpot(j, pos, key);
      if pos == |pages[p].ents| || pages[p].ents[pos].key != key {
        assert AsMap() == AsMap() - {key};
        return false;
      }
      RemoveLeaf(pages, lvl, t, nextPage, lastLeaf, rootPage, MaxSize(), j, pos);
      pages := SetEnts(pages, p, Remove(pages[p].ents, pos));
      t := SetBox(t, 0, j, t[0][j].(ents := Remove(t[0][j].ents, pos)));
      ghost var t1 := t;
      if pos == 0 {
        MaintainParent(p, j, 0, j);
      }
      UnderAgain(t1, t, MaxSize(), j);
      CoalesceOrRedistribute(p, 0, j);
      return true;
    }

    // ----- cursors -----

    /** `iid` is the cursor at place `pos` of the contents. */
    ghost predicate IsCursor(iid: Iid, pos: int)
      reads this
    {
      && |t| > 0
      && exists j: nat :: Cursor(t[0], j, iid.slotNo) && t[0][j].page == iid.pageNo && pos == Off(t[0], j) + iid.slotNo
    }

    /** What a leaf tells about its neighbours. */
    lemma {:induction false} LeafFacts(j: nat)
      requires Valid() && j < |t[0]|
      ensures Solid(t[0]) && t[0][j].page in pages && pages[t[0][j].page].ents == t[0][j].ents &&
              pages[t[0][j].page].isLeaf
      ensures t[0][j].page == lastLeaf <==> j + 1 == |t[0]|
      ensures t[0][j].page == firstLeaf <==> j == 0
      ensures j + 1 < |t[0]| ==> pages[t[0][j].page].next == t[0][j + 1].page
      ensures j > 0 ==> pages[t[0][j].page].prev == t[0][j - 1].page
    {
      hide Flat;
      assert NonEmpty(t[0]) || (|t| == 1 && |t[0]| == 1);
      assert RowRep(pages, lvl, t[0], 0) && BoxRep(pages, lvl, t[0][j], 0);
      assert ChainAt(pages, t[0], j) && ChainAt(pages, t[0], j - 1);
    }

    /** A slot of leaf `j`, or its end, as a proper cursor. */
    method Settle(p: int, pos: nat, ghost j: nat) returns (iid: Iid)
      requires Valid() && j < |t[0]| && t[0][j].page == p && p in pages && pages[p].ents == t[0][j].ents
      requires pos <= |pages[p].ents|
      ensures IsCursor(iid, Off(t[0], j) + pos)
    {
      hide Flat, Off, Frame, Sized, Count;
      LeafFacts(j);
      if pos == |pages[p].ents| {
        if p == lastLeaf {
          iid := Iid(p, pos);
        } else {
          iid := Iid(pages[p].next, 0);
          NextLeafCursor(t[0], j);
          assert Cursor(t[0], j + 1, 0);
        }
      } else {
        iid := Iid(p, pos);
      }
    }

    /** Cursor of the first entry whose key is at least `key`. */
    method LowerBound(key: int) returns (iid: Iid, ghost pos: int)
      requires Valid()
      ensures IsCursor(iid, pos) && LowerSpot(Contents(), pos, key)
    {
      hide Flat, Off, Frame, Sized, Count;
      var p, j := FindLeafPage(key);
      var x := NodeLowerBound(pages[p].ents, key);
      LeafSpot(j, x, key);
      iid := Settle(p, x, j);
      pos := Off(t[0], j) + x;
    }

    /** Cursor of the first entry whose key exceeds `key`. */
    method UpperBound(key: int) returns (iid: Iid, ghost pos: int)
      requires Valid()
      ensures IsCursor(iid, pos) && UpperSpot(Contents(), pos, key)
    {
      hide Flat, Off, Frame, Sized, Count, Covers;
      var p, j := FindLeafPage(key);
      var x := NodeUpperBound(pages[p].ents, key);
      if x == 1 && key < pages[p].ents[0].key {
        x := x - 1;
      }
      UpperFixed(pages[p].ents, x, key);
      UpperLeafSpot(j, x, key);
      iid := Settle(p, x, j);
      pos := Off(t[0], j) + x;
    }

    lemma {:induction false} UpperLeafSpot(j: nat, x: nat, key: int)
      requires Valid() && j < |t[0]| && Covers(t[0], j, key) && UpperSpot(t[0][j].ents, x, key)
      ensures UpperSpot(Contents(), Off(t[0], j) + x, key)
    {
      hide Flat, Off;
      LeafFacts(j);
      FlatUpperSpot(t[0], j, x, key);
    }

    /** Cursor of the first entry. */
    method LeafBegin() returns (iid: Iid)
      requires Valid()
      ensures IsCursor(iid, 0)
    {
      LeafFacts(0);
      OffEnds(t[0]);
      iid := Iid(firstLeaf, 0);
      assert Cursor(t[0], 0, 0);
    }

    /** Cursor behind the last entry. */
    method LeafEnd() returns (iid: Iid)
      requires Valid()
      ensures IsCursor(iid, |Contents()|)
    {
      hide Flat;
      ghost var j := |t[0]| - 1;
      LeafFacts(j);
      FlatAt(t[0], j);
      OffEnds(t[0]);
      iid := Iid(lastLeaf, |pages[lastLeaf].ents|);
      assert Cursor(t[0], j, |t[0][j].ents|);
    }

    /** The rid at a cursor; the end of the last leaf has none. */
    method GetRid(iid: Iid, ghost pos: nat) returns (r: Option<Rid>)
      requires Valid() && IsCursor(iid, pos)
      ensures pos <= |Contents()|
      ensures r == if pos < |Contents()| then Some(Contents()[pos].rid) else None
    {
      hide Flat, Off, Frame, Sized, Count;
      ghost var j: nat :| Cursor(t[0], j, iid.slotNo) && t[0][j].page == iid.pageNo && pos == Off(t[0], j) + iid.slotNo;
      CursorRange(t[0], j, iid.slotNo);
      CursorAt(t[0], j, iid.slotNo);
      LeafFacts(j);
      if iid.slotNo >= |pages[iid.pageNo].ents| {
        return None;
      }
      return Some(pages[iid.pageNo].ents[iid.slotNo].rid);
    }

    /** The cursor one place back; there is none before the first entry. */
    method PrevIid(iid: Iid, ghost pos: nat) returns (prev: Iid)
      requires Valid() && IsCursor(iid, pos) && pos > 0
      ensures IsCursor(prev, pos - 1)
    {
      hide Flat, Off, Frame, Sized, Count;
      ghost var j: nat :| Cursor(t[0], j, iid.slotNo) && t[0][j].page == iid.pageNo && pos == Off(t[0], j) + iid.slotNo;
      LeafFacts(j);
      var slot := iid.slotNo - 1;
      if slot >= 0 {
        assert Cursor(t[0], j, slot);
        return Iid(iid.pageNo, slot);
      }
      OffEnds(t[0]);
      LeafFacts(j - 1);
      FlatAt(t[0], j - 1);
      var before := pages[iid.pageNo].prev;
      assert Cursor(t[0], j - 1, |t[0][j - 1].ents| - 1);
      return Iid(before, |pages[before].ents| - 1);
    }

    /** The rid just before a cursor. */
    method PrevRid(iid: Iid, ghost pos: nat) returns (r: Option<Rid>)
      requires Valid() && IsCursor(iid, pos) && pos > 0
      ensures pos <= |Contents()| && r == Some(Contents()[pos - 1].rid)
    {
      hide Flat, Off, Frame, Sized, Count, Cursor, IsCursor;
      CursorPlace(iid, pos);
      var prev := PrevIid(iid, pos);
      r := GetRid(prev, pos - 1);
    }

    lemma {:induction false} CursorPlace(iid: Iid, pos: nat)
      requires Valid() && IsCursor(iid, pos)
      ensures pos <= |Contents()|
    {
      hide Flat, Off;
      var j: nat :| Cursor(t[0], j, iid.slotNo) && t[0][j].page == iid.pageNo && pos == Off(t[0], j) + iid.slotNo;
      CursorAt(t[0], j, iid.slotNo);
    }
  }
}

/**
 The pages of a heap file and the list of those with room: values behind `src/record/rm_file_handle.cpp`.
 */
module HeapPages {
  import opened Options
  import opened Sequences
  import opened Bitmap

  const NO_PAGE := -1
  const FIRST_RECORD_PAGE := 1

  datatype Rid = Rid(pageNo: int, slotNo: int)

  type Bytes = seq<int>

  /** Page header, bitmap and slots. */
  datatype Page = Page(next: int, num: int, bitmap: seq<bv8>, slots: seq<Bytes>)

  type Pages = map<int, Page>

  /** The record count of a page is the population of its bitmap. */
  ghost predicate PageOk(pg: Page, n: nat) {
    |pg.slots| == n && n <= 8 * |pg.bitmap| && pg.num == |Live(pg.bitmap, n)|
  }

  ghost predicate PagesOk(pages: Pages, numPages: int, n: nat) {
    && numPages >= FIRST_RECORD_PAGE
    && (forall p :: p in pages <==> FIRST_RECORD_PAGE <= p < numPages)
    && (forall p :: p in pages ==> PageOk(pages[p], n))
  }

  /** What a slot holds. */
  function Look(pages: Pages, r: Rid): Option<Bytes> {
    if
      && r.pageNo in pages && 0 <= r.slotNo < 8 * |pages[r.pageNo].bitmap| && r.slotNo < |pages[r.pageNo].slots|
      && IsSet(pages[r.pageNo].bitmap, r.slotNo)
    then Some(pages[r.pageNo].slots[r.slotNo]) else None
  }

  // ----- the free list -----

  /** Head and pointers are pages or nothing. */
  ghost predicate Linked(pages: Pages, head: int) {
    (head == NO_PAGE || head in pages) && forall p :: p in pages ==> pages[p].next == NO_PAGE || pages[p].next in pages
  }

  /** Following `next` from `head` gives `chain`. */
  ghost predicate Follows(pages: Pages, head: int, chain: seq<int>)
    decreases |chain|
  {
    if chain == [] then head == NO_PAGE
    else head == chain[0] && head in pages && Follows(pages, pages[head].next, chain[1..])
  }

  /** The list from `head` holds every page with room, once, and no full page. */
  ghost predicate FreeList(pages: Pages, n: nat, head: int, chain: seq<int>) {
    Follows(pages, head, chain) && Distinct(chain) && forall p :: p in pages ==> (pages[p].num < n <==> p in chain)
  }

  ghost predicate HasFreeList(pages: Pages, n: nat, head: int) {
    exists list :: FreeList(pages, n, head, list)
  }

  lemma {:induction false} ChainInPages(pages: Pages, head: int, chain: seq<int>)
    requires Follows(pages, head, chain)
    ensures forall p :: p in chain ==> p in pages
    decreases |chain|
  {
    if chain != [] {
      ChainInPages(pages, pages[head].next, chain[1..]);
      assert chain == [chain[0]] + chain[1..];
    }
  }

  /** Pages outside the chain do not matter. */
  lemma {:induction false} FollowsSame(a: Pages, b: Pages, head: int, chain: seq<int>)
    requires Follows(a, head, chain) && forall p :: p in chain ==> p in b && (p in a ==> a[p].next == b[p].next)
    ensures Follows(b, head, chain)
    decreases |chain|
  {
    if chain != [] {
      assert chain == [chain[0]] + chain[1..];
      assert chain[0] in chain;
      FollowsSame(a, b, a[head].next, chain[1..]);
    }
  }

  /** The pointers determine the chain. */
  lemma {:induction false} ChainUnique(pages: Pages, head: int, a: seq<int>, b: seq<int>)
    requires Follows(pages, head, a) && Follows(pages, head, b) && NO_PAGE !in pages
    ensures a == b
    decreases |a|
  {
    if a != [] {
      ChainUnique(pages, pages[head].next, a[1..], b[1..]);
      assert a == [a[0]] + a[1..] && b == [b[0]] + b[1..];
    }
  }

  lemma {:induction false} FollowsTail(pages: Pages, head: int, chain: seq<int>, i: nat)
    requires Follows(pages, head, chain) && i < |chain|
    ensures chain[i] in pages && Follows(pages, pages[chain[i]].next, chain[i + 1..])
    decreases i
  {
    if i > 0 {
      FollowsTail(pages, pages[head].next, chain[1..], i - 1);
      assert chain[1..][i..] == chain[i + 1..];
    }
  }

  lemma {:induction false} TailDistinct(chain: seq<int>)
    requires Distinct(chain) && chain != []
    ensures Distinct(chain[1..]) && forall p :: p in chain[1..] <==> p in chain && p != chain[0]
  {
    forall p ensures p in chain[1..] <==> p in chain && p != chain[0] {
      if p in chain && p != chain[0] {
        var i :| 0 <= i < |chain| && chain[i] == p;
        assert chain[1..][i - 1] == p;
      }
    }
  }

  // ----- changing one page -----

  lemma {:induction false} SetPageOk(pages: Pages, numPages: int, n: nat, p: int, pg: Page)
    requires PagesOk(pages, numPages, n) && p in pages && PageOk(pg, n)
    ensures PagesOk(pages[p := pg], numPages, n)
  {
    hide PageOk;
  }

  lemma {:induction false} NewPageOk(pages: Pages, numPages: int, n: nat, pg: Page)
    requires PagesOk(pages, numPages, n) && PageOk(pg, n)
    ensures numPages !in pages && PagesOk(pages[numPages := pg], numPages + 1, n)
  {
    hide PageOk;
  }

  /** A page in the list changes, but not its pointer, and stays with room. */
  lemma {:induction false} KeepInList(pages: Pages, n: nat, head: int, chain: seq<int>, p: int, pg: Page)
    requires FreeList(pages, n, head, chain) && p in pages && pg.next == pages[p].next &&
             (pg.num < n <==> pages[p].num < n)
    ensures FreeList(pages[p := pg], n, head, chain)
  {
    ChainInPages(pages, head, chain);
    FollowsSame(pages, pages[p := pg], head, chain);
  }

  /** The first page of the list fills up and leaves. */
  lemma {:induction false} LeaveList(pages: Pages, n: nat, head: int, chain: seq<int>, pg: Page)
    requires FreeList(pages, n, head, chain) && head in pages && NO_PAGE !in pages && pg.next == pages[head].next &&
             pg.num >= n
    ensures chain != [] && FreeList(pages[head := pg], n, pg.next, chain[1..])
  {
    ChainInPages(pages, head, chain);
    TailDistinct(chain);
    FollowsSame(pages, pages[head := pg], pages[head].next, chain[1..]);
  }

  /** A full page gets room and is put in front. */
  lemma {:induction false} EnterList(pages: Pages, n: nat, head: int, chain: seq<int>, p: int, pg: Page)
    requires FreeList(pages, n, head, chain) && (p in pages ==> pages[p].num >= n) && pg.next == head && pg.num < n
    ensures FreeList(pages[p := pg], n, p, [p] + chain)
  {
    ChainInPages(pages, head, chain);
    assert p !in chain;
    FollowsSame(pages, pages[p := pg], head, chain);
    assert ([p] + chain)[1..] == chain;
  }

  /**
   Filling a page that is not the first of the list, and moving the head to its successor: no list holds all pages
   with room any more, since the head of before is lost.
   */
  lemma {:induction false} SkipLoses(pages: Pages, n: nat, head: int, chain: seq<int>, p: int, pg: Page,
                                     other: seq<int>)
    requires FreeList(pages, n, head, chain) && p in pages && p != head && pages[p].num < n && NO_PAGE !in pages
    requires pg.next == pages[p].next && pg.num >= n
    ensures !FreeList(pages[p := pg], n, pg.next, other)
  {
    hide Follows;
    var pages' := pages[p := pg];
    ChainInPages(pages, head, chain);
    var i :| 0 <= i < |chain| && chain[i] == p;
    FollowsTail(pages, head, chain, i);
    HeadOf(pages, head, chain);
    var tail := chain[i + 1..];
    forall q | q in tail ensures q in chain && q != p && q != head {
      var j :| 0 <= j < |tail| && tail[j] == q;
      assert chain[i + 1 + j] == q;
    }
    FollowsSame(pages, pages', pg.next, tail);
    assert head in chain && pages[head].num < n;
    assert head in pages' && pages'[head].num < n && head !in tail;
    if Follows(pages', pg.next, other) {
      ChainUnique(pages', pg.next, tail, other);
    }
  }

  lemma {:induction false} HeadOf(pages: Pages, head: int, chain: seq<int>)
    requires Follows(pages, head, chain) && chain != []
    ensures head == chain[0] && head in pages
  {
  }

  /** A new page alone at the head: the list is right if and only if all other pages are full. */
  lemma {:induction false} OnlyPage(pages: Pages, n: nat, p: int, pg: Page)
    requires p !in pages && p != NO_PAGE && NO_PAGE !in pages && pg.next == NO_PAGE && pg.num < n
    ensures HasFreeList(pages[p := pg], n, p) <==> forall q :: q in pages ==> pages[q].num >= n
    ensures HasFreeList(pages[p := pg], n, p) ==> FreeList(pages[p := pg], n, p, [p])
  {
    hide Follows;
    var pages' := pages[p := pg];
    OneFollows(pages', p);
    if HasFreeList(pages', n, p) {
      var list :| FreeList(pages', n, p, list);
      ChainUnique(pages', p, [p], list);
      forall q | q in pages ensures pages[q].num >= n {
        assert q in pages' && q !in [p];
      }
    }
    if forall q :: q in pages ==> pages[q].num >= n {
      assert FreeList(pages', n, p, [p]);
    }
  }

  lemma {:induction false} OneFollows(pages: Pages, p: int)
    requires p in pages && pages[p].next == NO_PAGE
    ensures Follows(pages, p, [p])
  {
    assert [p][1..] == [];
  }

  lemma {:induction false} EmptyList(pages: Pages, n: nat, chain: seq<int>)
    requires FreeList(pages, n, NO_PAGE, chain) && NO_PAGE !in pages
    ensures forall p :: p in pages ==> pages[p].num >= n
  {
    assert chain == [];
  }

  // ----- scanning -----

  /** The live slots of the pages from `p` on, in order of page and slot. */
  function RidsFrom(pages: Pages, p: int, numPages: int, n: nat): seq<Rid>
    decreases numPages - p
  {
    if p >= numPages then [] else PageRids(pages, p, n, -1) + RidsFrom(pages, p + 1, numPages, n)
  }

  /** The live slots of page `p` behind `curr`. */
  function PageRids(pages: Pages, p: int, n: nat, curr: int): seq<Rid>
    decreases n - curr
  {
    if curr + 1 >= n then []
    else (if Look(pages, Rid(p, curr + 1)).Some? then [Rid(p, curr + 1)] else []) + PageRids(pages, p, n, curr + 1)
  }

  lemma {:induction false} SkipDead(pages: Pages, p: int, n: nat, curr: int, r: int)
    requires curr < r <= n && forall i :: curr < i < r ==> Look(pages, Rid(p, i)).None?
    ensures PageRids(pages, p, n, curr) == PageRids(pages, p, n, r - 1)
    decreases r - curr
  {
    hide Look;
    if curr + 1 < r {
      SkipDead(pages, p, n, curr + 1, r);
    }
  }

  /** The scan order holds exactly the live records. */
  lemma {:induction false} PageRidsAre(pages: Pages, p: int, n: nat, curr: int, r: Rid)
    requires curr >= -1
    ensures r in PageRids(pages, p, n, curr) <==> r.pageNo == p && curr < r.slotNo < n && Look(pages, r).Some?
    decreases n - curr
  {
    hide Look;
    if curr + 1 < n {
      PageRidsAre(pages, p, n, curr + 1, r);
    }
  }

  lemma {:induction false} RidsAre(pages: Pages, p: int, numPages: int, n: nat, r: Rid)
    ensures r in RidsFrom(pages, p, numPages, n) <==>
            p <= r.pageNo < numPages && 0 <= r.slotNo < n && Look(pages, r).Some?
    decreases numPages - p
  {
    hide Look;
    if p < numPages {
      PageRidsAre(pages, p, n, -1, r);
      RidsAre(pages, p + 1, numPages, n, r);
    }
  }

  predicate Before(a: Rid, b: Rid) {
    a.pageNo < b.pageNo || (a.pageNo == b.pageNo && a.slotNo < b.slotNo)
  }

  ghost predicate Ascending(s: seq<Rid>) {
    forall i, j :: 0 <= i < j < |s| ==> Before(s[i], s[j])
  }

  lemma {:induction false} JoinAscending(a: seq<Rid>, b: seq<Rid>)
    requires Ascending(a) && Ascending(b) && forall x, y :: x in a && y in b ==> Before(x, y)
    ensures Ascending(a + b)
  {
    var s := a + b;
    forall i, j | 0 <= i < j < |s| ensures Before(s[i], s[j]) {
      if i < |a| <= j {
        assert a[i] in a && b[j - |a|] in b;
      }
    }
  }

  lemma {:induction false} PageRidsAscend(pages: Pages, p: int, n: nat, curr: int)
    requires curr >= -1
    ensures Ascending(PageRids(pages, p, n, curr))
    decreases n - curr
  {
    hide Look;
    if curr + 1 < n {
      PageRidsAscend(pages, p, n, curr + 1);
      var b := PageRids(pages, p, n, curr + 1);
      forall y | y in b ensures Before(Rid(p, curr + 1), y) {
        PageRidsAre(pages, p, n, curr + 1, y);
      }
      JoinAscending(if Look(pages, Rid(p, curr + 1)).Some? then [Rid(p, curr + 1)] else [], b);
    }
  }

  lemma {:induction false} RidsAscend(pages: Pages, p: int, numPages: int, n: nat)
    ensures Ascending(RidsFrom(pages, p, numPages, n))
    decreases numPages - p
  {
    hide Look;
    if p < numPages {
      PageRidsAscend(pages, p, n, -1);
      RidsAscend(pages, p + 1, numPages, n);
      var a, b := PageRids(pages, p, n, -1), RidsFrom(pages, p + 1, numPages, n);
      forall x, y | x in a && y in b ensures Before(x, y) {
        PageRidsAre(pages, p, n, -1, x);
        RidsAre(pages, p + 1, numPages, n, y);
      }
      JoinAscending(a, b);
    }
  }

  /** A page is scanned as often as its header counts. */
  lemma {:induction false} PageRidsCount(pages: Pages, p: int, n: nat, k: nat)
    requires p in pages && |pages[p].slots| == n && n <= 8 * |pages[p].bitmap| && k <= n
    ensures |PageRids(pages, p, n, -1)| == |Live(pages[p].bitmap, k)| + |PageRids(pages, p, n, k - 1)|
  {
    hide IsSet;
    if k > 0 {
      PageRidsCount(pages, p, n, k - 1);
    }
  }

  /** The records the headers of the pages from `p` on count. */
  ghost function Total(pages: Pages, p: int, numPages: int): int
    decreases numPages - p
  {
    if p >= numPages then 0 else (if p in pages then pages[p].num else 0) + Total(pages, p + 1, numPages)
  }

  lemma {:induction false} TotalCounts(pages: Pages, p: int, numPages: int, n: nat)
    requires PagesOk(pages, numPages, n) && FIRST_RECORD_PAGE <= p
    ensures Total(pages, p, numPages) == |RidsFrom(pages, p, numPages, n)|
    decreases numPages - p
  {
    hide Look, IsSet;
    if p < numPages {
      TotalCounts(pages, p + 1, numPages, n);
      assert PageOk(pages[p], n);
      PageRidsCount(pages, p, n, n);
    }
  }
}

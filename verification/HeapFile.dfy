/**
 `RmFileHandle` and `RmScan`: records in slots of pages, and a scan over them.
 */
module HeapFile {
  import opened Options
  import opened Bitmap
  import opened Sequences
  import opened HeapPages

  datatype Outcome = Done | PageNotExist | RecordNotFound

  // ----- pages after a write -----

  function Filled(pg: Page, s: nat, buf: Bytes): Page
    requires s < 8 * |pg.bitmap| && s < |pg.slots|
  {
    Page(pg.next, pg.num + 1, Set(pg.bitmap, s), pg.slots[s := buf])
  }

  function Emptied(pg: Page, s: nat, next: int): Page
    requires s < 8 * |pg.bitmap|
  {
    Page(next, pg.num - 1, Reset(pg.bitmap, s), pg.slots)
  }

  lemma {:induction false} FilledOk(pg: Page, n: nat, s: nat, buf: Bytes)
    requires PageOk(pg, n) && s < n && !IsSet(pg.bitmap, s)
    ensures PageOk(Filled(pg, s, buf), n) && pg.num < n
  {
    hide IsSet, Set;
    CountSet(pg.bitmap, s, n);
    LiveIs(Set(pg.bitmap, s), n);
  }

  lemma {:induction false} EmptiedOk(pg: Page, n: nat, s: nat, next: int)
    requires PageOk(pg, n) && s < n && IsSet(pg.bitmap, s)
    ensures PageOk(Emptied(pg, s, next), n) && 0 < pg.num <= n
  {
    hide IsSet, Reset;
    CountReset(pg.bitmap, s, n);
    LiveIs(pg.bitmap, n);
  }

  lemma {:induction false} LookFilled(pages: Pages, p: int, s: nat, buf: Bytes)
    requires p in pages && s < 8 * |pages[p].bitmap| && s < |pages[p].slots|
    ensures forall r ::
              Look(pages[p := Filled(pages[p], s, buf)], r) == if r == Rid(p, s) then Some(buf) else Look(pages, r)
  {
    hide IsSet, Set;
    forall r
      ensures Look(pages[p := Filled(pages[p], s, buf)], r) == if r == Rid(p, s) then Some(buf) else Look(pages, r)
    {
      if r.pageNo == p && 0 <= r.slotNo < 8 * |pages[p].bitmap| {
        SetOnly(pages[p].bitmap, s, r.slotNo);
      }
    }
  }

  lemma {:induction false} LookEmptied(pages: Pages, p: int, s: nat, next: int)
    requires p in pages && s < 8 * |pages[p].bitmap|
    ensures forall r ::
              Look(pages[p := Emptied(pages[p], s, next)], r) == if r == Rid(p, s) then None else Look(pages, r)
  {
    hide IsSet, Reset;
    forall r
      ensures Look(pages[p := Emptied(pages[p], s, next)], r) == if r == Rid(p, s) then None else Look(pages, r)
    {
      if r.pageNo == p && 0 <= r.slotNo < 8 * |pages[p].bitmap| {
        ResetOnly(pages[p].bitmap, s, r.slotNo);
      }
    }
  }

  lemma {:induction false} LookEmpty(pages: Pages, p: int, pg: Page, n: nat)
    requires p !in pages && |pg.slots| == n <= 8 * |pg.bitmap| && Live(pg.bitmap, n) == []
    ensures forall r :: Look(pages[p := pg], r) == Look(pages, r)
  {
    hide IsSet;
    LiveIs(pg.bitmap, n);
    forall r ensures Look(pages[p := pg], r) == Look(pages, r) {
      if r.pageNo == p && 0 <= r.slotNo < n {
        assert r.slotNo !in Live(pg.bitmap, n);
      }
    }
  }

  /** The head of the list is a page with room. */
  lemma {:induction false} HeadRoom(pages: Pages, n: nat, head: int, chain: seq<int>)
    requires FreeList(pages, n, head, chain) && head != NO_PAGE
    ensures chain != [] && head == chain[0] && head in pages && pages[head].num < n
  {
    assert chain[0] in chain;
  }

  class RmFileHandle {
    const perPage: nat          // records per page
    const bitmapSize: nat
    var pages: Pages
    var numPages: int
    var firstFree: int
    ghost var chain: seq<int>

    /** Counts and bitmaps agree, and pointers lead to pages. */
    ghost predicate Sound()
      reads this
    {
      0 < perPage <= 8 * bitmapSize && PagesOk(pages, numPages, perPage) && Linked(pages, firstFree)
    }

    /** And the free list holds exactly the pages with room. */
    ghost predicate Valid()
      reads this
    {
      Sound() && FreeList(pages, perPage, firstFree, chain)
    }

    constructor (perPage: nat, bitmapSize: nat)
      requires 0 < perPage <= 8 * bitmapSize
      ensures Valid() && this.perPage == perPage && pages == map[]
    {
      this.perPage, this.bitmapSize := perPage, bitmapSize;
      pages, numPages, firstFree, chain := map[], FIRST_RECORD_PAGE, NO_PAGE, [];
    }

    /**
     A zeroed page, the only one in the list from now on: analyze asks for one whatever the list holds. The list holds
     exactly the pages with room afterwards if and only if no page had room before.
     */
    method CreateNewPageHandle()
      requires Sound()
      modifies this
      ensures Sound() && firstFree == old(numPages) && firstFree !in old(pages) && numPages == old(numPages) + 1
      ensures firstFree in pages && pages == old(pages)[firstFree := pages[firstFree]]
      ensures pages[firstFree].next == NO_PAGE && pages[firstFree].num == 0
      ensures forall r :: Look(pages, r) == Look(old(pages), r)
      ensures HasFreeList(pages, perPage, firstFree) <==> forall p :: p in old(pages) ==> old(pages)[p].num >= perPage
      ensures HasFreeList(pages, perPage, firstFree) ==> Valid()
    {
      hide IsSet, FreeList, HasFreeList;
      var pg := Page(NO_PAGE, 0, seq(bitmapSize, _ => 0), seq(perPage, _ => []));
      EmptyCount(pg.bitmap, perPage);
      NewPageOk(pages, numPages, perPage, pg);
      LookEmpty(pages, numPages, pg, perPage);
      OnlyPage(pages, perPage, numPages, pg);
      pages := pages[numPages := pg];
      chain := [numPages];
      firstFree := numPages;
      numPages := numPages + 1;
    }

    /** The page an insert goes to has room. */
    ghost predicate HeadHasRoom()
      reads this
    {
      firstFree == NO_PAGE || (firstFree in pages && pages[firstFree].num < perPage)
    }

    /**
     Puts a record into the first page of the list. That is a free slot if and only if there is no such page yet or
     the page has room. Otherwise the record lands behind the last slot, and the page counts one record more than it
     can hold.
     */
    method InsertRecord(buf: Bytes) returns (rid: Rid)
      requires Sound()
      modifies this
      ensures rid.pageNo == if old(firstFree) == NO_PAGE then old(numPages) else old(firstFree)
      ensures 0 <= rid.slotNo < perPage <==> old(HeadHasRoom())
      ensures old(HeadHasRoom()) ==> Sound() && Look(old(pages), rid) == None
      ensures old(HeadHasRoom()) ==> forall r :: Look(pages, r) == if r == rid then Some(buf) else Look(old(pages), r)
      ensures forall p :: p in pages <==> p in old(pages) || p == rid.pageNo
      ensures forall p :: p in old(pages) && p != rid.pageNo ==> pages[p] == old(pages)[p]
      ensures !old(HeadHasRoom()) ==> rid == Rid(old(firstFree), perPage) && pages[rid.pageNo].num > perPage && !Sound()
      ensures old(Valid()) ==> old(HeadHasRoom()) && Valid()
    {
      hide IsSet, FreeList, Look, Set;
      if FreeList(pages, perPage, firstFree, chain) {
        if firstFree != NO_PAGE {
          HeadRoom(pages, perPage, firstFree, chain);
        } else {
          EmptyList(pages, perPage, chain);
        }
      }
      if firstFree == NO_PAGE {
        CreateNewPageHandle();
      }
      var p := firstFree;
      assert PageOk(pages[p], perPage);
      FullCount(pages[p].bitmap, perPage);
      var slot := NextBit(false, pages[p].bitmap, perPage, -1);
      rid := Rid(p, slot);
      if slot < perPage {
        assert Look(pages, Rid(p, slot)) == None by {
          Unset(pages, p, slot);
        }
        LookFilled(pages, p, slot, buf);
        FilledOk(pages[p], perPage, slot, buf);
        Place(p, slot, buf);
      } else {
        FilledCount(pages[p], perPage);
        pages := pages[p := Overfull(pages[p], slot)];
        assert !PageOk(pages[p], perPage) by {
          Overcounts(pages[p], perPage);
        }
      }
    }

    /** Sets slot `s` of the first page of the list. */
    method Place(p: int, s: nat, buf: Bytes)
      requires Sound() && p == firstFree && p in pages && s < perPage && s < 8 * |pages[p].bitmap| &&
               s < |pages[p].slots|
      requires !IsSet(pages[p].bitmap, s)
      modifies this
      ensures Sound() && numPages == old(numPages) && (old(Valid()) ==> Valid()) &&
              pages == old(pages)[p := Filled(old(pages)[p], s, buf)]
    {
      hide IsSet, FreeList, Set;
      var pg := Filled(pages[p], s, buf);
      FilledOk(pages[p], perPage, s, buf);
      SetPageOk(pages, numPages, perPage, p, pg);
      FilledCount(pg, perPage);
      if FreeList(pages, perPage, firstFree, chain) {
        if pg.num == perPage {
          LeaveList(pages, perPage, firstFree, chain, pg);
        } else {
          KeepInList(pages, perPage, firstFree, chain, p, pg);
        }
      }
      if pg.num == perPage {
        firstFree := pg.next;
        chain := if chain == [] then [] else chain[1..];
      }
      pages := pages[p := pg];
    }

    /** Page 0 is the file header and never part of a rid; the slot lies in the page. */
    ghost predicate IsRid(rid: Rid)
    {
      rid.pageNo != 0 && 0 <= rid.slotNo < perPage
    }

    method GetRecord(rid: Rid) returns (o: Outcome, buf: Bytes)
      requires Sound() && IsRid(rid)
      ensures o == Done <==> Look(pages, rid).Some?
      ensures o == Done ==> Look(pages, rid) == Some(buf)
      ensures o == PageNotExist <==> !(FIRST_RECORD_PAGE <= rid.pageNo < numPages)
    {
      buf := [];
      if rid.pageNo >= numPages || rid.pageNo < 0 {
        return PageNotExist, buf;
      }
      assert PageOk(pages[rid.pageNo], perPage);
      if !IsSet(pages[rid.pageNo].bitmap, rid.slotNo) {
        return RecordNotFound, buf;
      }
      return Done, pages[rid.pageNo].slots[rid.slotNo];
    }

    method UpdateRecord(rid: Rid, buf: Bytes) returns (o: Outcome)
      requires Sound() && IsRid(rid)
      modifies `pages
      ensures Sound() && (old(Valid()) ==> Valid()) && (o == Done <==> Look(old(pages), rid).Some?)
      ensures o == PageNotExist <==> !(FIRST_RECORD_PAGE <= rid.pageNo < numPages)
      ensures forall r :: Look(pages, r) == if o == Done && r == rid then Some(buf) else Look(old(pages), r)
    {
      hide FreeList, IsSet;
      if rid.pageNo >= numPages || rid.pageNo < 0 {
        return PageNotExist;
      }
      assert PageOk(pages[rid.pageNo], perPage);
      if !IsSet(pages[rid.pageNo].bitmap, rid.slotNo) {
        return RecordNotFound;
      }
      var pg := pages[rid.pageNo].(slots := pages[rid.pageNo].slots[rid.slotNo := buf]);
      SetPageOk(pages, numPages, perPage, rid.pageNo, pg);
      if FreeList(pages, perPage, firstFree, chain) {
        KeepInList(pages, perPage, firstFree, chain, rid.pageNo, pg);
      }
      pages := pages[rid.pageNo := pg];
      return Done;
    }

    /** A page that was full goes to the front of the list. */
    method DeleteRecord(rid: Rid) returns (o: Outcome)
      requires Sound() && IsRid(rid)
      modifies this
      ensures Sound() && (old(Valid()) ==> Valid()) && numPages == old(numPages) &&
              (o == Done <==> Look(old(pages), rid).Some?)
      ensures o == PageNotExist <==> !(FIRST_RECORD_PAGE <= rid.pageNo < numPages)
      ensures forall r :: Look(pages, r) == if o == Done && r == rid then None else Look(old(pages), r)
    {
      hide FreeList, IsSet, Reset, Live;
      if rid.pageNo >= numPages || rid.pageNo < 0 {
        return PageNotExist;
      }
      var p, s := rid.pageNo, rid.slotNo;
      var pg := pages[p];
      assert PageOk(pg, perPage);
      if !IsSet(pg.bitmap, s) {
        return RecordNotFound;
      }
      var next := if pg.num == perPage then firstFree else pg.next;
      EmptiedOk(pg, perPage, s, next);
      LookEmptied(pages, p, s, next);
      SetPageOk(pages, numPages, perPage, p, Emptied(pg, s, next));
      if FreeList(pages, perPage, firstFree, chain) {
        if pg.num == perPage {
          EnterList(pages, perPage, firstFree, chain, p, Emptied(pg, s, next));
        } else {
          KeepInList(pages, perPage, firstFree, chain, p, Emptied(pg, s, next));
        }
      }
      if pg.num == perPage {
        firstFree := p;
        chain := [p] + chain;
      }
      pages := pages[p := Emptied(pg, s, next)];
      return Done;
    }

    /**
     Puts a record where redo, undo and abort say. The slot is right in any case. The free list is lost exactly if the
     record fills a page other than the first of the list.
     */
    method InsertRecordAt(rid: Rid, buf: Bytes) returns (o: Outcome)
      requires Sound() && IsRid(rid)
      modifies `pages, `firstFree
      ensures Sound() && (o == Done <==> FIRST_RECORD_PAGE <= rid.pageNo < numPages)
      ensures forall r :: Look(pages, r) == if o == Done && r == rid then Some(buf) else Look(old(pages), r)
      ensures o == Done && Look(old(pages), rid) == None ==>
                && pages == old(pages)[rid.pageNo := Filled(old(pages)[rid.pageNo], rid.slotNo, buf)]
                && firstFree == if pages[rid.pageNo].num == perPage then pages[rid.pageNo].next else old(firstFree)
      ensures o == Done && old(Valid()) ==>
                (HasFreeList(pages, perPage, firstFree) <==>
                 || Look(old(pages), rid).Some?
                 || old(pages)[rid.pageNo].num + 1 < perPage
                 || rid.pageNo == old(firstFree))
    {
      hide FreeList, IsSet, Set, Live;
      if rid.pageNo >= numPages || rid.pageNo < 0 {
        return PageNotExist;
      }
      var p, s := rid.pageNo, rid.slotNo;
      var pg := pages[p];
      assert PageOk(pg, perPage);
      if !IsSet(pg.bitmap, s) {
        FillSlot(p, s, buf);
      } else {
        LookOverwritten(pages, p, s, buf);
        pg := pg.(slots := pg.slots[s := buf]);
        SetPageOk(pages, numPages, perPage, p, pg);
        if FreeList(pages, perPage, firstFree, chain) {
          KeepInList(pages, perPage, firstFree, chain, p, pg);
        }
        pages := pages[p := pg];
        assert old(Valid()) ==> FreeList(pages, perPage, firstFree, chain);
      }
      return Done;
    }

    /** Sets a free slot of any page, and moves the head of the list if that fills the page. */
    method FillSlot(p: int, s: nat, buf: Bytes)
      requires Sound() && p in pages && s < perPage && Look(pages, Rid(p, s)) == None
      modifies `pages, `firstFree
      ensures Sound() && forall r :: Look(pages, r) == if r == Rid(p, s) then Some(buf) else Look(old(pages), r)
      ensures s < 8 * |old(pages)[p].bitmap| && s < |old(pages)[p].slots| &&
              pages == old(pages)[p := Filled(old(pages)[p], s, buf)]
      ensures firstFree == if pages[p].num == perPage then pages[p].next else old(firstFree)
      ensures old(Valid()) ==>
                (HasFreeList(pages, perPage, firstFree) <==> old(pages)[p].num + 1 < perPage || p == old(firstFree))
    {
      hide FreeList, IsSet, Set, Live, HasFreeList;
      var pg := pages[p];
      assert PageOk(pg, perPage);
      FilledOk(pg, perPage, s, buf);
      var filled := Filled(pg, s, buf);
      FilledCount(filled, perPage);
      LookFilled(pages, p, s, buf);
      SetPageOk(pages, numPages, perPage, p, filled);
      if FreeList(pages, perPage, firstFree, chain) {
        FillAnywhere(pages, perPage, firstFree, chain, p, filled);
      }
      if filled.num == perPage {
        firstFree := filled.next;
      }
      pages := pages[p := filled];
    }
  }

  /** What setting a bit and counting do to a full page. */
  function Overfull(pg: Page, s: nat): Page {
    Page(pg.next, pg.num + 1, SetInside(pg.bitmap, s), pg.slots)
  }

  function SetInside(bitmap: seq<bv8>, s: nat): seq<bv8> {
    if s < 8 * |bitmap| then Set(bitmap, s) else bitmap
  }

  lemma {:induction false} Overcounts(pg: Page, n: nat)
    requires pg.num > n
    ensures !PageOk(pg, n)
  {
    hide IsSet;
    if n <= 8 * |pg.bitmap| {
      LiveIs(pg.bitmap, n);
    }
  }

  /**
   A free list of pages `a` and `b`, each with one slot left. Filling `b` by rid drops both from the list; a plain
   insert starts a new page; filling `a` by rid puts the full page `b` back at the front. The next plain insert goes
   behind the last slot of `b`.
   */
  method LoseRecord(file: RmFileHandle, a: Rid, b: Rid, buf: Bytes) returns (rid: Rid)
    requires file.Valid() && file.IsRid(a) && file.IsRid(b) && Look(file.pages, a) == None &&
             Look(file.pages, b) == None
    requires file.chain == [a.pageNo, b.pageNo] && file.firstFree == a.pageNo && a.pageNo in file.pages &&
             b.pageNo in file.pages
    requires file.pages[a.pageNo].num == file.pages[b.pageNo].num == file.perPage - 1
    modifies file
    ensures rid == Rid(b.pageNo, file.perPage) && !file.Sound()
  {
    hide IsSet, Look, Set, PageOk;
    ghost var n := file.perPage;
    TwoInList(file.pages, a.pageNo, b.pageNo);
    var o := file.InsertRecordAt(b, buf);
    assert file.firstFree == NO_PAGE && file.pages[b.pageNo].num == n;
    rid := file.InsertRecord(buf);
    assert file.pages[a.pageNo].num == n - 1 && file.pages[b.pageNo].num == n;
    o := file.InsertRecordAt(a, buf);
    assert file.firstFree == b.pageNo;
    rid := file.InsertRecord(buf);
  }

  lemma {:induction false} TwoInList(pages: Pages, a: int, b: int)
    requires Follows(pages, a, [a, b]) && Distinct([a, b])
    ensures a in pages && b in pages && pages[a].next == b != a && pages[b].next == NO_PAGE
  {
    assert [a, b][1..] == [b] && [b][1..] == [];
    assert [a, b][0] != [a, b][1];
    assert Follows(pages, b, [b]) && Follows(pages, pages[b].next, []);
  }

  lemma {:induction false} LookOverwritten(pages: Pages, p: int, s: nat, buf: Bytes)
    requires p in pages && s < 8 * |pages[p].bitmap| && s < |pages[p].slots| && IsSet(pages[p].bitmap, s)
    ensures forall r ::
              Look(pages[p := pages[p].(slots := pages[p].slots[s := buf])], r) ==
              if r == Rid(p, s) then Some(buf) else Look(pages, r)
  {
    hide IsSet;
    var pages' := pages[p := pages[p].(slots := pages[p].slots[s := buf])];
    forall r ensures Look(pages', r) == if r == Rid(p, s) then Some(buf) else Look(pages, r) {
      assert r == Rid(r.pageNo, r.slotNo);
    }
  }

  lemma {:induction false} Unset(pages: Pages, p: int, s: nat)
    requires p in pages && (s < 8 * |pages[p].bitmap| ==> !IsSet(pages[p].bitmap, s))
    ensures Look(pages, Rid(p, s)) == None
  {
  }

  lemma {:induction false} FilledCount(pg: Page, n: nat)
    requires PageOk(pg, n)
    ensures pg.num <= n
  {
    hide IsSet;
    LiveIs(pg.bitmap, n);
  }

  /** When filling a slot of an arbitrary page leaves a free list. */
  lemma {:induction false} FillAnywhere(pages: Pages, n: nat, head: int, chain: seq<int>, p: int, pg: Page)
    requires FreeList(pages, n, head, chain) && p in pages && NO_PAGE !in pages && pages[p].num < n &&
             pg.next == pages[p].next && pg.num == pages[p].num + 1
    ensures pg.num < n ==> HasFreeList(pages[p := pg], n, head)
    ensures pg.num == n ==> (HasFreeList(pages[p := pg], n, pg.next) <==> p == head)
  {
    hide FreeList;
    if pg.num < n {
      KeepInList(pages, n, head, chain, p, pg);
    } else if p == head {
      LeaveList(pages, n, head, chain, pg);
    } else {
      var pages' := pages[p := pg];
      forall list ensures !FreeList(pages', n, pg.next, list) {
        SkipLoses(pages, n, head, chain, p, pg, list);
      }
    }
  }

  // ----- scanning -----

  class RmScan {
    const file: RmFileHandle
    var rid: Rid

    ghost predicate AtEnd()
      reads this
    {
      rid.pageNo == NO_PAGE
    }

    ghost predicate Valid()
      reads this, file
    {
      file.Sound() &&
      (AtEnd() ||
       (FIRST_RECORD_PAGE <= rid.pageNo < file.numPages && 0 <= rid.slotNo < file.perPage &&
        Look(file.pages, rid).Some?))
    }

    /** What the scan will still yield, the current record first. */
    ghost function Rest(): seq<Rid>
      reads this, file
    {
      if AtEnd() then []
      else PageRids(file.pages, rid.pageNo, file.perPage, rid.slotNo - 1) +
           RidsFrom(file.pages, rid.pageNo + 1, file.numPages, file.perPage)
    }

    constructor (file: RmFileHandle)
      requires file.Sound()
      ensures Valid() && this.file == file &&
              Rest() == RidsFrom(file.pages, FIRST_RECORD_PAGE, file.numPages, file.perPage)
    {
      this.file := file;
      rid := Rid(FIRST_RECORD_PAGE, -1);
      new;
      if rid.pageNo < file.numPages {
        Advance();
      } else {
        rid := rid.(pageNo := NO_PAGE);
      }
    }

    /** Moves to the first live slot behind the current place. */
    method Advance()
      requires file.Sound() && FIRST_RECORD_PAGE <= rid.pageNo < file.numPages && -1 <= rid.slotNo < file.perPage
      modifies this
      ensures Valid()
      ensures Rest() == PageRids(file.pages, old(rid).pageNo, file.perPage, old(rid).slotNo) +
              RidsFrom(file.pages, old(rid).pageNo + 1, file.numPages, file.perPage)
    {
      hide IsSet, Live, PageRids, RidsFrom;
      ghost var goal := PageRids(file.pages, rid.pageNo, file.perPage, rid.slotNo) +
                        RidsFrom(file.pages, rid.pageNo + 1, file.numPages, file.perPage);
      while true
        invariant FIRST_RECORD_PAGE <= rid.pageNo < file.numPages && -1 <= rid.slotNo < file.perPage
        invariant goal == PageRids(file.pages, rid.pageNo, file.perPage, rid.slotNo) +
                  RidsFrom(file.pages, rid.pageNo + 1, file.numPages, file.perPage)
        decreases file.numPages - rid.pageNo
      {
        var p := rid.pageNo;
        assert PageOk(file.pages[p], file.perPage);
        var slot := NextBit(true, file.pages[p].bitmap, file.perPage, rid.slotNo);
        SkipDead(file.pages, p, file.perPage, rid.slotNo, slot);
        rid := rid.(slotNo := slot);
        if slot < file.perPage {
          return;
        }
        PageDone(file.pages, p, file.perPage, file.numPages);
        rid := rid.(pageNo := p + 1);
        if rid.pageNo >= file.numPages {
          break;
        }
        rid := rid.(slotNo := -1);
      }
      rid := rid.(pageNo := NO_PAGE);
    }

    method Next()
      requires Valid() && !AtEnd()
      modifies this
      ensures Valid() && old(Rest()) == [old(rid)] + Rest()
    {
      hide IsSet, Live, PageRids, RidsFrom, PageOk, Look;
      FirstOfRest(file.pages, rid, file.perPage, RidsFrom(file.pages, rid.pageNo + 1, file.numPages, file.perPage));
      Advance();
    }
  }

  lemma {:induction false} FirstOfRest(pages: Pages, r: Rid, n: nat, more: seq<Rid>)
    requires 0 <= r.slotNo < n && Look(pages, r).Some?
    ensures PageRids(pages, r.pageNo, n, r.slotNo - 1) + more == [r] + (PageRids(pages, r.pageNo, n, r.slotNo) + more)
  {
    hide IsSet;
  }

  lemma {:induction false} PageDone(pages: Pages, p: int, n: nat, numPages: int)
    ensures PageRids(pages, p, n, n - 1) == []
    ensures p + 1 >= numPages ==> RidsFrom(pages, p + 1, numPages, n) == []
    ensures p + 1 < numPages ==>
              RidsFrom(pages, p + 1, numPages, n) == PageRids(pages, p + 1, n, -1) + RidsFrom(pages, p + 2, numPages, n)
  {
  }

  /** A whole scan: every live record once, in the order of pages and slots, as many as the fast count says. */
  method ScanAll(file: RmFileHandle) returns (rids: seq<Rid>)
    requires file.Sound()
    ensures Ascending(rids) && |rids| == Total(file.pages, FIRST_RECORD_PAGE, file.numPages)
    ensures forall r :: r in rids <==> Look(file.pages, r).Some?
  {
    hide IsSet, Live, PageRids, RidsFrom, Look, PageOk;
    var scan := new RmScan(file);
    ghost var all := RidsFrom(file.pages, FIRST_RECORD_PAGE, file.numPages, file.perPage);
    rids := [];
    while scan.rid.pageNo != NO_PAGE
      invariant scan.Valid() && scan.file == file && rids + scan.Rest() == all
      decreases |scan.Rest()|
    {
      ghost var was := rids;
      rids := rids + [scan.rid];
      scan.Next();
      Shift(was, rids[|was|], scan.Rest());
    }
    assert rids == all;
    RidsAscend(file.pages, FIRST_RECORD_PAGE, file.numPages, file.perPage);
    TotalCounts(file.pages, FIRST_RECORD_PAGE, file.numPages, file.perPage);
    forall r ensures r in rids <==> Look(file.pages, r).Some? {
      RidsAre(file.pages, FIRST_RECORD_PAGE, file.numPages, file.perPage, r);
      LiveInside(file.pages, file.numPages, file.perPage, r);
    }
  }

  lemma {:induction false} Shift(a: seq<Rid>, x: Rid, b: seq<Rid>)
    ensures a + [x] + b == a + ([x] + b)
  {
  }

  lemma {:induction false} LiveInside(pages: Pages, numPages: int, n: nat, r: Rid)
    requires PagesOk(pages, numPages, n)
    ensures Look(pages, r).Some? ==> FIRST_RECORD_PAGE <= r.pageNo < numPages && 0 <= r.slotNo < n
  {
    hide IsSet, Live;
  }

  /** `count(*)` from the page headers. */
  method FastCount(file: RmFileHandle) returns (count: int)
    requires file.Sound()
    ensures count == Total(file.pages, FIRST_RECORD_PAGE, file.numPages)
  {
    hide PageOk;
    count := 0;
    var p := FIRST_RECORD_PAGE;
    while p < file.numPages
      invariant FIRST_RECORD_PAGE <= p &&
                count + Total(file.pages, p, file.numPages) == Total(file.pages, FIRST_RECORD_PAGE, file.numPages)
      decreases file.numPages - p
    {
      count := count + file.pages[p].num;
      p := p + 1;
    }
  }

  // ----- how many records fit -----

  const PAGE_SIZE := 4096
  const FILE_HEADER_SIZE := 20
  const PAGE_HEADER_SIZE := 12       // LSN, next free page, number of records
  const MAX_RECORD_SIZE := 512

  /** `create_file`: header, bitmap and records fit into a page, and the bitmap has a bit for each. */
  method Capacity(recordSize: int) returns (o: Option<(nat, nat)>)
    ensures o.None? <==> recordSize < 1 || recordSize > MAX_RECORD_SIZE
    ensures o.Some? ==> var (n, bytes) := o.value;
                        0 < n <= 8 * bytes && PAGE_HEADER_SIZE + bytes + n * recordSize <= PAGE_SIZE
    ensures o.Some? ==> var (n, bytes) := o.value;
                        n * (1 + 8 * recordSize) <= 32601 < (n + 1) * (1 + 8 * recordSize) && 8 * (bytes - 1) < n
  {
    if recordSize < 1 || recordSize > MAX_RECORD_SIZE {
      return None;
    }
    var n := (8 * (PAGE_SIZE - 1 - FILE_HEADER_SIZE) + 1) / (1 + 8 * recordSize);
    Quotient(32601, 1 + 8 * recordSize, n);
    Fits(n, recordSize);
    return Some((n, (n + 7) / 8));
  }

  lemma {:induction false} Quotient(a: nat, d: nat, q: int)
    requires 0 < d <= a && q == a / d
    ensures 0 < q && q * d <= a < (q + 1) * d
  {
  }

  lemma {:induction false} Fits(n: nat, size: nat)
    requires n * (1 + 8 * size) <= 32601
    ensures n + 8 * (n * size) <= 32601
  {
    assert n * (1 + 8 * size) == n + 8 * (n * size);
  }
}

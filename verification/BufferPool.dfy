/**
 The buffer pool of `src/storage/buffer_pool_instance.cpp`: a cache of pages that nobody can tell from the disk.
 */
module BufferPool {
  import opened Options
  import opened Sequences
  import opened ClockReplacer

  const INVALID_PAGE_ID := -1

  datatype PageId = PageId(fd: int, pageNo: int)

  type Data = seq<int>

  /** `Page`: a frame of the pool. */
  datatype Frame = Frame(id: PageId, data: Data, dirty: bool, pinCount: int)

  /** A frame with one user less. */
  function Released(x: Frame, isDirty: bool): Frame {
    Frame(x.id, x.data, x.dirty || isDirty, x.pinCount - 1)
  }

  /** A frame that holds no page, after holding one of a file. */
  function Reset(fd: int): Frame {
    Frame(PageId(fd, INVALID_PAGE_ID), Zeros(), false, 0)
  }

  type Disk = map<PageId, Data>

  const PAGE_SIZE: nat := 4096

  /** `reset_memory`. */
  function Zeros(): Data {
    seq(PAGE_SIZE, _ => 0)
  }

  function DiskAt(disk: Disk, id: PageId): Data {
    if id in disk then disk[id] else Zeros()
  }

  /** What a page holds, for whoever asks the pool. */
  function ContentOf(fs: seq<Frame>, table: map<PageId, int>, disk: Disk, id: PageId): Data {
    if id in table && 0 <= table[id] < |fs| then fs[table[id]].data else DiskAt(disk, id)
  }

  /** The disk when the page of a frame has been written back if need be. */
  function WrittenBack(disk: Disk, x: Frame): Disk {
    if x.dirty then disk[x.id := x.data] else disk
  }

  /** Frame `g` is given to the page of `x`; the page that leaves is written if it is dirty. */
  ghost predicate Replaces(fs: seq<Frame>, table: map<PageId, int>, disk: Disk, fs': seq<Frame>,
                           table': map<PageId, int>, disk': Disk, g: nat, x: Frame) {
    && g < |fs| && fs' == fs[g := x] && table' == (table - {fs[g].id})[x.id := g]
    && disk' == WrittenBack(disk, fs[g])
  }

  /** Every frame is either in the free list or the frame of exactly one cached page. */
  ghost predicate Partition(fs: seq<Frame>, table: map<PageId, int>, free: seq<int>) {
    && Distinct(free)
    && (forall id :: id in table ==>
          0 <= table[id] < |fs| && fs[table[id]].id == id && id.pageNo != INVALID_PAGE_ID && table[id] !in free)
    && (forall f :: f in free ==>
          0 <= f < |fs| && fs[f].id.pageNo == INVALID_PAGE_ID && !fs[f].dirty && fs[f].pinCount == 0)
    && (forall f :: 0 <= f < |fs| ==> f in free || (fs[f].id in table && table[fs[f].id] == f))
  }

  function Count(x: Frame): int {
    if x.pinCount > 0 then 1 else 0
  }

  /** The clock counts a frame as pinned exactly if its page is. */
  ghost predicate Counted(fs: seq<Frame>, counter: seq<int>) {
    |counter| == |fs| && forall f :: 0 <= f < |fs| ==> fs[f].pinCount >= 0 && counter[f] == Count(fs[f])
  }

  /** A page that nobody uses and that is not marked dirty is on disk. */
  ghost predicate CleanOnDisk(fs: seq<Frame>, table: map<PageId, int>, disk: Disk) {
    forall id :: id in table && 0 <= table[id] < |fs| && fs[table[id]].pinCount == 0 && !fs[table[id]].dirty ==>
      fs[table[id]].data == DiskAt(disk, id)
  }

  ghost predicate Pool(fs: seq<Frame>, table: map<PageId, int>, free: seq<int>, disk: Disk, counter: seq<int>) {
    Partition(fs, table, free) && Counted(fs, counter) && CleanOnDisk(fs, table, disk)
  }

  /** No page looks different. */
  ghost predicate SameContents(fs: seq<Frame>, table: map<PageId, int>, disk: Disk, fs': seq<Frame>,
                               table': map<PageId, int>, disk': Disk) {
    forall x :: ContentOf(fs', table', disk', x) == ContentOf(fs, table, disk, x)
  }

  /** No page but `id` looks different. */
  ghost predicate SameOthers(fs: seq<Frame>, table: map<PageId, int>, disk: Disk, fs': seq<Frame>,
                             table': map<PageId, int>, disk': Disk, id: PageId) {
    forall x :: x != id ==> ContentOf(fs', table', disk', x) == ContentOf(fs, table, disk, x)
  }

  predicate PinnedIn(fs: seq<Frame>, table: map<PageId, int>, id: PageId) {
    id in table && 0 <= table[id] < |fs| && fs[table[id]].pinCount > 0
  }

  /** Pinned pages other than `id` stay in their frames, untouched. */
  ghost predicate KeepsPinned(fs: seq<Frame>, table: map<PageId, int>, fs': seq<Frame>, table': map<PageId, int>,
                              id: PageId) {
    forall x :: x != id && PinnedIn(fs, table, x) ==>
      PinnedIn(fs', table', x) && table'[x] == table[x] && fs'[table[x]] == fs[table[x]]
  }

  // ----- replacing a page -----

  /** A frame that may be given away. */
  ghost predicate Unused(fs: seq<Frame>, table: map<PageId, int>, f: int) {
    0 <= f < |fs| && fs[f].pinCount == 0 && (fs[f].id in table ==> table[fs[f].id] == f) &&
    (fs[f].id !in table ==> !fs[f].dirty)
  }

  /** Frame `f` has left the free list, or still holds a page that nobody uses; page `id` is not cached. */
  ghost predicate Ready(fs: seq<Frame>, table: map<PageId, int>, free: seq<int>, disk: Disk, counter: seq<int>, f: int,
                        id: PageId) {
    && Counted(fs, counter) && CleanOnDisk(fs, table, disk) && Distinct(free) && Unused(fs, table, f) && f !in free
    && (forall x :: x in table ==>
          0 <= table[x] < |fs| && fs[table[x]].id == x && x.pageNo != INVALID_PAGE_ID && table[x] !in free)
    && (forall g :: g in free ==>
          0 <= g < |fs| && fs[g].id.pageNo == INVALID_PAGE_ID && !fs[g].dirty && fs[g].pinCount == 0)
    && (forall g :: 0 <= g < |fs| && g != f ==> g in free || (fs[g].id in table && table[fs[g].id] == g))
    && id !in table && id.pageNo != INVALID_PAGE_ID
  }

  lemma {:induction false} ReplacedPool(fs: seq<Frame>, table: map<PageId, int>, free: seq<int>, disk: Disk,
                                        counter: seq<int>, f: int, id: PageId, data: Data)
    requires Ready(fs, table, free, disk, counter, f, id)
    ensures Partition(fs[f := Frame(id, data, false, 1)], (table - {fs[f].id})[id := f], free)
    ensures Counted(fs[f := Frame(id, data, false, 1)], counter[f := 1])
  {
    var fs', table' := fs[f := Frame(id, data, false, 1)], (table - {fs[f].id})[id := f];
    forall x | x in table'
      ensures 0 <= table'[x] < |fs'| && fs'[table'[x]].id == x && x.pageNo != INVALID_PAGE_ID && table'[x] !in free
    {
      assert x != id ==> x in table && x != fs[f].id;
    }
  }

  /** A page other than the old and the new one of frame `f`. */
  lemma {:induction false} Elsewhere(fs: seq<Frame>, table: map<PageId, int>, free: seq<int>, disk: Disk,
                                     counter: seq<int>, f: int, id: PageId, data: Data, x: PageId)
    requires Ready(fs, table, free, disk, counter, f, id) && x != id
    ensures var fs', table' := fs[f := Frame(id, data, false, 1)], (table - {fs[f].id})[id := f];
            var disk' := WrittenBack(disk, fs[f]);
            && ContentOf(fs', table', disk', x) == ContentOf(fs, table, disk, x)
            && (x in table' ==> x in table && table'[x] == table[x] != f && DiskAt(disk', x) == DiskAt(disk, x))
            && (PinnedIn(fs, table, x) ==> x in table')
  {
  }

  /** The pool once frame `f` holds the new page `id`, pinned once. */
  lemma {:induction false} Replaced(fs: seq<Frame>, table: map<PageId, int>, free: seq<int>, disk: Disk,
                                    counter: seq<int>, f: int, id: PageId, data: Data)
    requires Ready(fs, table, free, disk, counter, f, id)
    ensures 0 <= f < |fs| == |counter|
    ensures var fs', table' := fs[f := Frame(id, data, false, 1)], (table - {fs[f].id})[id := f];
            var disk' := WrittenBack(disk, fs[f]);
            && Pool(fs', table', free, disk', counter[f := 1])
            && SameOthers(fs, table, disk, fs', table', disk', id) && KeepsPinned(fs, table, fs', table', id)
  {
    hide Partition, Distinct;
    ReplacedPool(fs, table, free, disk, counter, f, id, data);
    forall x | x != id
      ensures var fs', table' := fs[f := Frame(id, data, false, 1)], (table - {fs[f].id})[id := f];
            var disk' := WrittenBack(disk, fs[f]);
              && ContentOf(fs', table', disk', x) == ContentOf(fs, table, disk, x)
              && (x in table' ==> x in table && table'[x] == table[x] != f && DiskAt(disk', x) == DiskAt(disk, x))
              && (PinnedIn(fs, table, x) ==> x in table')
    {
      Elsewhere(fs, table, free, disk, counter, f, id, data, x);
    }
  }

  /** Without a change of ids, frames and free list stay a partition. */
  lemma {:induction false} SameIds(fs: seq<Frame>, fs': seq<Frame>, table: map<PageId, int>, free: seq<int>, f: int)
    requires Partition(fs, table, free) && |fs'| == |fs| && 0 <= f < |fs| && f !in free
    requires fs'[f].id == fs[f].id && forall g :: 0 <= g < |fs| && g != f ==> fs'[g] == fs[g]
    ensures Partition(fs', table, free)
  {
  }

  lemma {:induction false} CachedFrame(fs: seq<Frame>, table: map<PageId, int>, free: seq<int>, disk: Disk,
                                       counter: seq<int>, id: PageId)
    requires Pool(fs, table, free, disk, counter) && id in table
    ensures 0 <= table[id] < |fs| && fs[table[id]].id == id && table[id] !in free && fs[table[id]].pinCount >= 0 &&
            id.pageNo != INVALID_PAGE_ID
    ensures counter[table[id]] == Count(fs[table[id]])
  {
  }

  lemma {:induction false} Ranges(fs: seq<Frame>, table: map<PageId, int>, free: seq<int>, disk: Disk,
                                  counter: seq<int>)
    requires Pool(fs, table, free, disk, counter)
    ensures forall id :: id in table ==> 0 <= table[id] < |fs|
  {
  }

  /** A change of the frame of page `id`, and of its bytes on disk. */
  lemma {:induction false} SetFrame(fs: seq<Frame>, table: map<PageId, int>, free: seq<int>, disk: Disk,
                                    counter: seq<int>, id: PageId, fr: Frame,
                                    disk': Disk, g: int)
    requires Pool(fs, table, free, disk, counter) && id in table && fr.id == id && fr.pinCount >= 0 && g == table[id]
    requires forall y :: y != id ==> DiskAt(disk', y) == DiskAt(disk, y)
    ensures 0 <= g < |fs| == |counter|
    ensures Pool(fs[g := fr], table, free, disk', counter[g := Count(fr)]) <==>
            (fr.pinCount == 0 && !fr.dirty ==> fr.data == DiskAt(disk', id))
    ensures SameOthers(fs, table, disk, fs[g := fr], table, disk', id) && KeepsPinned(fs, table, fs[g := fr], table, id)
    ensures ContentOf(fs, table, disk, id) == fs[g].data && ContentOf(fs[g := fr], table, disk', id) == fr.data
  {
    hide Distinct;
    SameIds(fs, fs[g := fr], table, free, g);
    forall y | y in table && y != id ensures table[y] != g {
      assert fs[table[y]].id == y;
    }
  }

  /** The frame of a page goes back to the free list. */
  lemma {:induction false} Freed(fs: seq<Frame>, table: map<PageId, int>, free: seq<int>, disk: Disk, id: PageId,
                                 g: int)
    requires Partition(fs, table, free) && CleanOnDisk(fs, table, disk) && id in table && g == table[id] &&
             0 <= g < |fs|
    ensures Partition(fs[g := Reset(id.fd)], table - {id}, free + [g])
    ensures CleanOnDisk(fs[g := Reset(id.fd)], table - {id}, disk)
  {
    hide Zeros;
    var fs', free' := fs[g := Reset(id.fd)], free + [g];
    forall x | x in table && x != id ensures table[x] != g {
      assert fs[table[x]].id == x;
    }
    forall f ensures f in free' <==> f in free || f == g {
      if f in free {
        var i :| 0 <= i < |free| && free[i] == f;
        assert free'[i] == f;
      }
      assert free'[|free|] == g;
    }
  }

  /** The clock still counts the freed frames. */
  lemma {:induction false} CountedStill(fs: seq<Frame>, table: map<PageId, int>, free: seq<int>, disk: Disk,
                                        counter: seq<int>, fs': seq<Frame>, fd: int)
    requires Pool(fs, table, free, disk, counter) && |fs'| == |fs|
    requires forall g :: 0 <= g < |fs| ==> fs'[g] == fs[g] || (fs[g].id.fd == fd && fs'[g].pinCount == 0)
    requires forall id :: id in table && id.fd == fd && 0 <= table[id] < |fs| ==> fs'[table[id]].pinCount == 0
    ensures Counted(fs', counter) <==> forall id :: id in table && id.fd == fd ==> !PinnedIn(fs, table, id)
  {
    if forall id :: id in table && id.fd == fd ==> !PinnedIn(fs, table, id) {
      forall g | 0 <= g < |fs| ensures fs'[g].pinCount >= 0 && counter[g] == Count(fs'[g]) {
        assert counter[g] == Count(fs[g]);
      }
    } else {
      var id :| id in table && id.fd == fd && PinnedIn(fs, table, id);
      assert counter[table[id]] == 1 && Count(fs'[table[id]]) == 0;
    }
  }

  lemma {:induction false} SameAll(fs: seq<Frame>, table: map<PageId, int>, disk: Disk, fs': seq<Frame>,
                                   table': map<PageId, int>, disk': Disk, id: PageId)
    requires SameOthers(fs, table, disk, fs', table', disk', id) &&
             ContentOf(fs, table, disk, id) == ContentOf(fs', table', disk', id)
    ensures SameContents(fs, table, disk, fs', table', disk')
  {
    hide ContentOf;
  }

  /** What `FindVictimPage` returns can be replaced. */
  lemma {:induction false} Replaceable(fs: seq<Frame>, table: map<PageId, int>, free: seq<int>, free': seq<int>,
                                       disk: Disk, counter: seq<int>, f: int, id: PageId)
    requires Pool(fs, table, free, disk, counter) && Unused(fs, table, f) && f !in free'
    requires (forall g :: g in free' ==> g in free) && (forall g :: g in free && g != f ==> g in free')
    ensures id !in table && id.pageNo != INVALID_PAGE_ID && Distinct(free') ==>
              Ready(fs, table, free', disk, counter, f, id)
    ensures counter[f] == 0
  {
  }

  lemma {:induction false} AllFree(fs: seq<Frame>, free: seq<int>, disk: Disk, counter: seq<int>)
    requires |fs| == |free| == |counter| && forall f :: 0 <= f < |fs| ==>
               free[f] == f && counter[f] == 0 && fs[f] == Frame(PageId(0, INVALID_PAGE_ID), Zeros(), false, 0)
    ensures Pool(fs, map[], free, disk, counter)
  {
    forall f | 0 <= f < |fs| ensures f in free {
      assert free[f] == f;
    }
  }

  class BufferPoolInstance {
    const frames: array<Frame>
    const replacer: ClockReplacer
    var pageTable: map<PageId, int>
    var freeList: seq<int>
    var disk: Disk

    ghost predicate Valid()
      reads this, frames, replacer, replacer.pinCounter
    {
      && replacer.Valid() && replacer.size == frames.Length
      && Pool(frames[..], pageTable, freeList, disk, replacer.pinCounter[..])
    }

    /** What a page holds, cached or not. */
    ghost function Content(id: PageId): Data
      reads this, frames
    {
      ContentOf(frames[..], pageTable, disk, id)
    }

    ghost predicate Cached(id: PageId)
      reads this, frames
    {
      id in pageTable && 0 <= pageTable[id] < frames.Length
    }

    ghost predicate Pinned(id: PageId)
      reads this, frames
    {
      Cached(id) && frames[pageTable[id]].pinCount > 0
    }

    constructor (size: nat, disk: Disk)
      requires size > 0
      ensures Valid() && frames.Length == size && pageTable == map[] && this.disk == disk
    {
      frames := new Frame[size](_ => Frame(PageId(0, INVALID_PAGE_ID), Zeros(), false, 0));
      replacer := new ClockReplacer(size);
      pageTable, this.disk := map[], disk;
      freeList := seq(size, i => i);
      new;
      AllFree(frames[..], freeList, disk, replacer.pinCounter[..]);
    }

    /** A free frame if there is one, else one that the clock takes; none if all are pinned. */
    method FindVictimPage() returns (f: Option<nat>)
      requires Valid()
      modifies `freeList, replacer`pointer, replacer.pin
      ensures replacer.Valid() && Distinct(freeList)
      ensures f.Some? <==> old(freeList) != [] || exists g :: 0 <= g < frames.Length && frames[g].pinCount == 0
      ensures f.None? ==> freeList == old(freeList)
      ensures old(freeList) != [] ==>
                f.Some? && f.value == old(freeList)[0] && freeList == old(freeList)[1..] &&
                replacer.pointer == old(replacer.pointer) && replacer.pin[..] == old(replacer.pin[..])
      ensures old(freeList) == [] ==>
                freeList == [] && Takes(old(replacer.pointer), frames.Length, old(replacer.pin[..]), replacer.pin[..],
                                        replacer.pinCounter[..], f)
      ensures f.Some? ==> f.value !in freeList && Unused(frames[..], pageTable, f.value)
      ensures forall g :: g in freeList ==> g in old(freeList)
      ensures forall g :: g in old(freeList) && f != Some(g) ==> g in freeList
    {
      ghost var fs, counter := frames[..], replacer.pinCounter[..];
      if freeList == [] {
        f := replacer.Victim();
        assert forall g :: 0 <= g < |fs| ==> replacer.pinCounter[g] == counter[g] && frames[g] == fs[g];
        return;
      }
      assert freeList[0] in freeList && fs[freeList[0]] == frames[freeList[0]];
      var front: nat := freeList[0];
      freeList := freeList[1..];
      assert front == old(freeList)[0];
      assert forall i :: 1 <= i < |old(freeList)| ==> freeList[i - 1] == old(freeList)[i];
      f := Some(front);
    }

    /** Writes the page of a frame back if it is dirty, and gives the frame to another page. */
    method UpdatePage(f: nat, id: PageId)
      requires f < frames.Length
      modifies `pageTable, `disk, frames
      ensures disk == WrittenBack(old(disk), old(frames[f])) &&
              pageTable == (old(pageTable) - {old(frames[f]).id})[id := f]
      ensures frames[..] == old(frames[..])[f := Frame(id, old(frames[f]).data, false, 0)]
    {
      if frames[f].dirty {
        disk := disk[frames[f].id := frames[f].data];
        frames[f] := frames[f].(dirty := false);
      }
      pageTable := pageTable - {frames[f].id};
      pageTable := pageTable[id := f];
      frames[f] := frames[f].(id := id, pinCount := 0);
    }

    /** The frame of a page, pinned; none exactly if the page is not cached and every frame is pinned. */
    method FetchPage(id: PageId) returns (f: Option<nat>)
      requires Valid() && id.pageNo != INVALID_PAGE_ID
      modifies this, frames, replacer`pointer, replacer.pin, replacer.pinCounter
      ensures Valid() &&
              (f.None? <==> id !in old(pageTable) && forall g :: 0 <= g < frames.Length ==> old(frames[g]).pinCount > 0)
      ensures SameContents(old(frames[..]), old(pageTable), old(disk), frames[..], pageTable, disk)
      ensures KeepsPinned(old(frames[..]), old(pageTable), frames[..], pageTable, id)
      ensures f.Some? ==>
                id in pageTable && pageTable[id] == f.value < frames.Length && frames[f.value].data == old(Content(id))
      ensures f.Some? && id in old(pageTable) ==>
                pageTable == old(pageTable) && disk == old(disk) &&
                frames[..] == old(frames[..])[f.value := old(frames[f.value]).(pinCount :=
                                                old(frames[f.value]).pinCount + 1)]
      ensures f.Some? && id !in old(pageTable) ==>
                Replaces(old(frames[..]), old(pageTable), old(disk), frames[..], pageTable, disk, f.value,
                         Frame(id, DiskAt(old(disk), id), false, 1))
      ensures id !in old(pageTable) && old(freeList) != [] ==>
                f.Some? && f.value == old(freeList)[0] && freeList == old(freeList)[1..]
    {
      hide Pool, SameContents, SameOthers, KeepsPinned;
      if id in pageTable {
        f := PinCached(id);
      } else {
        f := LoadPage(id, DiskAt(disk, id));
        CountsKept(old(frames[..]), old(pageTable), old(freeList), old(disk), old(replacer.pinCounter[..]));
        if f.Some? {
          Loaded(old(frames[..]), old(pageTable), old(disk), frames[..], pageTable, disk, id);
        } else {
          Untouched(old(frames[..]), old(pageTable), old(disk), id);
        }
      }
    }

    /** Pins a page that is in the pool. */
    method PinCached(id: PageId) returns (f: Option<nat>)
      requires Valid() && id in pageTable
      modifies frames, replacer.pin, replacer.pinCounter
      ensures Valid() && f.Some? && pageTable[id] == f.value < frames.Length
      ensures frames[..] ==
              old(frames[..])[f.value := old(frames[f.value]).(pinCount := old(frames[f.value]).pinCount + 1)]
      ensures SameContents(old(frames[..]), pageTable, disk, frames[..], pageTable, disk)
      ensures KeepsPinned(old(frames[..]), pageTable, frames[..], pageTable, id)
    {
      hide Pool, SameContents, SameOthers, KeepsPinned;
      ghost var fs, counter := frames[..], replacer.pinCounter[..];
      CachedFrame(fs, pageTable, freeList, disk, counter, id);
      var g := pageTable[id];
      SetFrame(fs, pageTable, freeList, disk, counter, id, fs[g].(pinCount := fs[g].pinCount + 1), disk, g);
      SameAll(fs, pageTable, disk, fs[g := fs[g].(pinCount := fs[g].pinCount + 1)], pageTable, disk, id);
      frames[g] := frames[g].(pinCount := frames[g].pinCount + 1);
      if frames[g].pinCount == 1 {
        replacer.Pin(g);
      }
      assert frames[..] == fs[g := fs[g].(pinCount := fs[g].pinCount + 1)];
      assert replacer.pinCounter[..] == counter[g := 1];
      return Some(g);
    }

    /** Brings a page with the given bytes into a frame and pins it. */
    method LoadPage(id: PageId, data: Data) returns (f: Option<nat>)
      requires Valid() && id !in pageTable && id.pageNo != INVALID_PAGE_ID
      modifies this, frames, replacer`pointer, replacer.pin, replacer.pinCounter
      ensures Valid() &&
              (f.Some? <==> old(freeList) != [] || exists g :: 0 <= g < frames.Length && old(frames[g]).pinCount == 0)
      ensures f.None? ==>
                frames[..] == old(frames[..]) && pageTable == old(pageTable) && disk == old(disk) &&
                freeList == old(freeList)
      ensures f.Some? ==>
                          Replaces(old(frames[..]), old(pageTable), old(disk), frames[..], pageTable, disk, f.value,
                                   Frame(id, data, false, 1))
      ensures old(freeList) != [] ==> f.Some? && f.value == old(freeList)[0] && freeList == old(freeList)[1..]
      ensures SameOthers(old(frames[..]), old(pageTable), old(disk), frames[..], pageTable, disk, id)
      ensures KeepsPinned(old(frames[..]), old(pageTable), frames[..], pageTable, id)
    {
      hide Pool, Ready, Unused, SameOthers, KeepsPinned, Distinct;
      ghost var fs, table, free, disk0, counter := frames[..], pageTable, freeList, disk, replacer.pinCounter[..];
      f := FindVictimPage();
      Untouched(fs, table, disk0, id);
      if f.Some? {
        var g := f.value;
        Replaceable(fs, table, free, freeList, disk0, counter, g, id);
        Replaced(fs, table, freeList, disk0, counter, g, id, data);
        UpdatePage(g, id);
        frames[g] := frames[g].(data := data);
        replacer.Pin(g);
        frames[g] := frames[g].(pinCount := 1);
        assert frames[..] == fs[g := Frame(id, data, false, 1)];
        assert replacer.pinCounter[..] == counter[g := 1];
      }
    }

    /** A zeroed frame for a page number just allocated. */
    method NewPage(id: PageId) returns (f: Option<nat>)
      requires Valid() && id !in pageTable && id.pageNo != INVALID_PAGE_ID
      modifies this, frames, replacer`pointer, replacer.pin, replacer.pinCounter
      ensures Valid() && (f.None? <==> forall g :: 0 <= g < frames.Length ==> old(frames[g]).pinCount > 0)
      ensures f.Some? ==>
                          Replaces(old(frames[..]), old(pageTable), old(disk), frames[..], pageTable, disk, f.value,
                                   Frame(id, Zeros(), false, 1))
      ensures old(freeList) != [] ==> f.Some? && f.value == old(freeList)[0] && freeList == old(freeList)[1..]
      ensures SameOthers(old(frames[..]), old(pageTable), old(disk), frames[..], pageTable, disk, id)
      ensures KeepsPinned(old(frames[..]), old(pageTable), frames[..], pageTable, id)
    {
      hide Pool, SameOthers, KeepsPinned;
      f := LoadPage(id, Zeros());
      CountsKept(old(frames[..]), old(pageTable), old(freeList), old(disk), old(replacer.pinCounter[..]));
    }

    /** A client writes into a page it has pinned. */
    method WritePage(id: PageId, data: Data)
      requires Valid() && Pinned(id)
      modifies frames
      ensures Valid() && Content(id) == data
      ensures frames[..] == old(frames[..])[pageTable[id] := old(frames[pageTable[id]]).(data := data)]
      ensures SameOthers(old(frames[..]), pageTable, disk, frames[..], pageTable, disk, id)
    {
      hide Pool, SameOthers, KeepsPinned;
      ghost var fs, counter := frames[..], replacer.pinCounter[..];
      CachedFrame(fs, pageTable, freeList, disk, counter, id);
      var g := pageTable[id];
      SetFrame(fs, pageTable, freeList, disk, counter, id, fs[g].(data := data), disk, g);
      frames[g] := frames[g].(data := data);
      assert frames[..] == fs[g := fs[g].(data := data)];
      assert replacer.pinCounter[..] == counter[g := 1];
    }

    /**
     The last user of a page must say so if the page has changed since it was last on disk, or the change can get
     lost.
     */
    method UnpinPage(id: PageId, isDirty: bool) returns (ok: bool)
      requires Valid()
      modifies frames, replacer.pinCounter
      ensures ok <==> old(Pinned(id))
      ensures Valid() <==>
              (ok && old(frames[pageTable[id]].pinCount) == 1 && !old(frames[pageTable[id]].dirty) && !isDirty ==>
                 old(Content(id)) == DiskAt(disk, id))
      ensures !ok ==> frames[..] == old(frames[..])
      ensures ok ==> frames[..] == old(frames[..])[pageTable[id] := Released(old(frames[pageTable[id]]), isDirty)]
      ensures SameContents(old(frames[..]), pageTable, disk, frames[..], pageTable, disk)
    {
      hide Pool, SameOthers, SameContents, KeepsPinned;
      ghost var fs, counter := frames[..], replacer.pinCounter[..];
      Untouched(fs, pageTable, disk, id);
      if id !in pageTable {
        return false;
      }
      CachedFrame(fs, pageTable, freeList, disk, counter, id);
      var g := pageTable[id];
      if frames[g].pinCount == 0 {
        return false;
      }
      ghost var x := Released(fs[g], isDirty);
      SetFrame(fs, pageTable, freeList, disk, counter, id, x, disk, g);
      SameAll(fs, pageTable, disk, fs[g := x], pageTable, disk, id);
      frames[g] := frames[g].(pinCount := frames[g].pinCount - 1);
      if frames[g].pinCount == 0 {
        replacer.Unpin(g);
      }
      frames[g] := frames[g].(dirty := frames[g].dirty || isDirty);
      assert frames[..] == fs[g := x];
      assert replacer.pinCounter[..] == counter[g := Count(x)];
      return true;
    }

    method FlushPage(id: PageId) returns (ok: bool)
      requires Valid()
      modifies `disk, frames
      ensures Valid() && (ok <==> id in pageTable)
      ensures SameContents(old(frames[..]), pageTable, old(disk), frames[..], pageTable, disk)
      ensures disk == if ok then old(disk)[id := Content(id)] else old(disk)
      ensures !ok ==> frames[..] == old(frames[..])
      ensures ok ==> Cached(id) &&
                     frames[..] == old(frames[..])[pageTable[id] := old(frames[pageTable[id]]).(dirty := false)]
    {
      hide Pool, SameOthers, SameContents, KeepsPinned;
      ghost var fs, counter := frames[..], replacer.pinCounter[..];
      Untouched(fs, pageTable, disk, id);
      if id !in pageTable {
        return false;
      }
      CachedFrame(fs, pageTable, freeList, disk, counter, id);
      var g := pageTable[id];
      ghost var x := fs[g].(dirty := false);
      SetFrame(fs, pageTable, freeList, disk, counter, id, x, disk[id := fs[g].data], g);
      SameAll(fs, pageTable, disk, fs[g := x], pageTable, disk[id := fs[g].data], id);
      disk := disk[frames[g].id := frames[g].data];
      frames[g] := frames[g].(dirty := false);
      assert frames[..] == fs[g := x];
      assert replacer.pinCounter[..] == counter[g := Count(x)];
      return true;
    }

    /** Writes every cached page of a file. */
    method FlushAllPages(fd: int)
      requires Valid()
      modifies `disk, frames
      ensures Valid() && SameContents(old(frames[..]), pageTable, old(disk), frames[..], pageTable, disk)
      ensures forall id: PageId :: id.fd == fd ==> DiskAt(disk, id) == Content(id)
      ensures forall id: PageId :: id.fd != fd ==> DiskAt(disk, id) == DiskAt(old(disk), id)
      ensures forall g :: 0 <= g < frames.Length ==>
                frames[g] == if old(frames[g]).id.fd == fd then old(frames[g]).(dirty := false) else old(frames[g])
    {
      hide Pool;
      var todo := pageTable.Keys;
      ghost var fs := frames[..];
      Untouched(frames[..], pageTable, disk, PageId(fd, 0));
      MarkedNone(fs, pageTable, fd);
      while todo != {}
        invariant Valid() && SameContents(old(frames[..]), pageTable, old(disk), frames[..], pageTable, disk) &&
                  todo <= pageTable.Keys
        invariant forall id :: id in pageTable && id !in todo && id.fd == fd ==> DiskAt(disk, id) == Content(id)
        invariant forall id: PageId :: id.fd != fd ==> DiskAt(disk, id) == DiskAt(old(disk), id)
        invariant MarkedClean(fs, pageTable, frames[..], todo, fd)
        decreases todo
      {
        ghost var some := SomeMember(todo);
        var id :| id in todo;
        MarkedOne(fs, pageTable, freeList, disk, replacer.pinCounter[..], frames[..], todo, fd, id);
        if id.fd == fd {
          var ok := FlushPage(id);
        }
        todo := todo - {id};
      }
      MarkedAll(fs, pageTable, freeList, disk, replacer.pinCounter[..], frames[..], fd);
    }

    /** Resets the frame of a cached page and puts it back into the free list. */
    method DropPage(id: PageId)
      requires Partition(frames[..], pageTable, freeList) && CleanOnDisk(frames[..], pageTable, disk) && Cached(id)
      modifies `pageTable, `freeList, frames
      ensures Partition(frames[..], pageTable, freeList) && CleanOnDisk(frames[..], pageTable, disk) &&
              pageTable == old(pageTable) - {id} && freeList == old(freeList) + [old(pageTable)[id]]
      ensures frames[..] ==
              old(frames[..])[old(pageTable)[id] := Reset(id.fd)]
    {
      hide Partition, CleanOnDisk;
      ghost var now := frames[..];
      var g := pageTable[id];
      Freed(now, pageTable, freeList, disk, id, g);
      frames[g] := Reset(id.fd);
      freeList := freeList + [g];
      pageTable := pageTable - {id};
      assert frames[..] == now[g := Reset(id.fd)];
    }

    /**
     Drops the cached pages of a file; what the disk has of them is all that is left. The clock is not told, so all is
     well afterwards if and only if none of them was pinned.
     */
    method DeleteAllPages(fd: int)
      requires Valid()
      modifies `pageTable, `freeList, frames
      ensures Valid() <==> forall id :: id in old(pageTable) && id.fd == fd ==> !old(Pinned(id))
      ensures Partition(frames[..], pageTable, freeList)
      ensures forall id: PageId :: id.fd == fd ==> id !in pageTable && Content(id) == DiskAt(disk, id)
      ensures forall id: PageId :: id.fd == fd && id in old(pageTable) ==>
                0 <= old(pageTable)[id] < frames.Length && frames[old(pageTable)[id]] == Reset(fd)
      ensures forall id: PageId :: id.fd != fd ==> Content(id) == old(Content(id))
      ensures forall id: PageId :: id.fd != fd && id in old(pageTable) ==>
                id in pageTable && pageTable[id] == old(pageTable)[id] && 0 <= pageTable[id] < frames.Length &&
                frames[pageTable[id]] == old(frames[pageTable[id]])
    {
      hide Partition, CleanOnDisk, Counted, Zeros, Dropped;
      ghost var fs, table, free, counter := frames[..], pageTable, freeList, replacer.pinCounter[..];
      Ranges(fs, table, free, disk, counter);
      var todo := pageTable.Keys;
      DroppedNone(fs, table, fd);
      while todo != {}
        invariant Partition(frames[..], pageTable, freeList) && CleanOnDisk(frames[..], pageTable, disk)
        invariant todo <= pageTable.Keys && Dropped(fs, table, frames[..], pageTable, todo, fd)
        decreases todo
      {
        ghost var some := SomeMember(todo);
        var id :| id in todo;
        DroppedOne(fs, table, frames[..], pageTable, freeList, todo, fd, id);
        if id.fd == fd {
          DropPage(id);
        }
        todo := todo - {id};
      }
      DroppedAll(fs, table, free, disk, counter, frames[..], pageTable, fd);
      CountedStill(fs, table, free, disk, counter, frames[..], fd);
    }
  }

  /** The frames of a file but those of the pages in `todo` have been marked clean, no frame has changed otherwise. */
  ghost predicate MarkedClean(fs: seq<Frame>, table: map<PageId, int>, fs': seq<Frame>, todo: set<PageId>, fd: int) {
    && |fs'| == |fs|
    && (forall g :: 0 <= g < |fs| ==>
          fs'[g] == fs[g] || (fs[g].id.fd == fd && fs'[g] == fs[g].(dirty := false)))
    && (forall id :: id in table && id.fd == fd && id !in todo && 0 <= table[id] < |fs| ==> !fs'[table[id]].dirty)
  }

  lemma {:induction false} MarkedNone(fs: seq<Frame>, table: map<PageId, int>, fd: int)
    ensures MarkedClean(fs, table, fs, table.Keys, fd)
  {
  }

  lemma {:induction false} MarkedOne(fs: seq<Frame>, table: map<PageId, int>, free: seq<int>, disk: Disk,
                                     counter: seq<int>, fs': seq<Frame>, todo: set<PageId>, fd: int, id: PageId)
    requires MarkedClean(fs, table, fs', todo, fd) && Pool(fs', table, free, disk, counter) && id in table
    ensures 0 <= table[id] < |fs'|
    ensures id.fd != fd ==> MarkedClean(fs, table, fs', todo - {id}, fd)
    ensures id.fd == fd ==>
              MarkedClean(fs, table, fs'[table[id] := fs'[table[id]].(dirty := false)], todo - {id}, fd)
  {
    hide Zeros, Distinct;
  }

  lemma {:induction false} MarkedAll(fs: seq<Frame>, table: map<PageId, int>, free: seq<int>, disk: Disk,
                                     counter: seq<int>, fs': seq<Frame>, fd: int)
    requires MarkedClean(fs, table, fs', {}, fd) && Pool(fs', table, free, disk, counter)
    ensures forall g :: 0 <= g < |fs| ==>
              fs'[g] == if fs[g].id.fd == fd then fs[g].(dirty := false) else fs[g]
  {
    hide Zeros, Distinct;
  }

  /** The pages of a file but those in `todo` have been dropped. */
  ghost predicate Dropped(fs: seq<Frame>, table: map<PageId, int>, fs': seq<Frame>, table': map<PageId, int>,
                          todo: set<PageId>, fd: int) {
    && |fs'| == |fs| &&
       (forall id :: id in table' ==>
          id in table && 0 <= table[id] < |fs| && table'[id] == table[id] && fs'[table[id]] == fs[table[id]])
    && (forall id: PageId :: id in table && id.fd != fd ==> id in table')
    && (forall id :: id in table' && id.fd == fd ==> id in todo)
    && (forall g :: 0 <= g < |fs| ==> fs'[g] == fs[g] || (fs[g].id.fd == fd && fs'[g] == Reset(fd)))
    && (forall id :: id in table && id !in table' && 0 <= table[id] < |fs| ==> fs'[table[id]] == Reset(fd))
  }

  lemma {:induction false} DroppedNone(fs: seq<Frame>, table: map<PageId, int>, fd: int)
    requires forall id :: id in table ==> 0 <= table[id] < |fs|
    ensures Dropped(fs, table, fs, table, table.Keys, fd)
  {
  }

  lemma {:induction false} DroppedOne(fs: seq<Frame>, table: map<PageId, int>, fs': seq<Frame>,
                                      table': map<PageId, int>, free: seq<int>,
                                      todo: set<PageId>, fd: int, id: PageId)
    requires Dropped(fs, table, fs', table', todo, fd) && Partition(fs', table', free) && id in table'
    ensures 0 <= table'[id] < |fs'| && (id.fd != fd ==> Dropped(fs, table, fs', table', todo - {id}, fd))
    ensures id.fd == fd ==>
              Dropped(fs, table, fs'[table'[id] := Reset(id.fd)],
                      table' - {id}, todo - {id}, fd)
  {
    hide Zeros, Distinct;
    forall x | x in table' && x != id ensures table'[x] != table'[id] {
      assert fs'[table'[x]].id == x;
    }
  }

  lemma {:induction false} DroppedAll(fs: seq<Frame>, table: map<PageId, int>, free: seq<int>, disk: Disk,
                                      counter: seq<int>,
                                      fs': seq<Frame>, table': map<PageId, int>, fd: int)
    requires Pool(fs, table, free, disk, counter) && Dropped(fs, table, fs', table', {}, fd)
    ensures forall id: PageId :: id.fd == fd ==> id !in table' && ContentOf(fs', table', disk, id) == DiskAt(disk, id)
    ensures forall id: PageId :: id.fd != fd ==> ContentOf(fs', table', disk, id) == ContentOf(fs, table, disk, id)
    ensures forall id: PageId :: id.fd != fd && id in table ==>
              id in table' && table'[id] == table[id] && 0 <= table[id] < |fs'| == |fs| &&
              fs'[table[id]] == fs[table[id]]
    ensures forall g :: 0 <= g < |fs| ==> fs'[g] == fs[g] || (fs[g].id.fd == fd && fs'[g] == Reset(fd))
    ensures forall id :: id in table && id.fd == fd && 0 <= table[id] < |fs| ==> fs'[table[id]] == Reset(fd)
  {
    hide Zeros;
  }

  lemma {:induction false} Loaded(fs: seq<Frame>, table: map<PageId, int>, disk: Disk, fs': seq<Frame>,
                                  table': map<PageId, int>, disk': Disk, id: PageId)
    requires SameOthers(fs, table, disk, fs', table', disk', id)
    requires id !in table && id in table' && 0 <= table'[id] < |fs'| && fs'[table'[id]].data == DiskAt(disk, id)
    ensures SameContents(fs, table, disk, fs', table', disk')
  {
  }

  lemma {:induction false} Untouched(fs: seq<Frame>, table: map<PageId, int>, disk: Disk, id: PageId)
    ensures SameOthers(fs, table, disk, fs, table, disk, id) && SameContents(fs, table, disk, fs, table, disk) &&
            KeepsPinned(fs, table, fs, table, id)
  {
  }

  /** A free frame is not pinned, and no count is negative. */
  lemma {:induction false} CountsKept(fs: seq<Frame>, table: map<PageId, int>, free: seq<int>, disk: Disk,
                                      counter: seq<int>)
    requires Pool(fs, table, free, disk, counter)
    ensures forall g :: 0 <= g < |fs| ==> fs[g].pinCount >= 0
    ensures free != [] ==> exists g :: 0 <= g < |fs| && fs[g].pinCount == 0
  {
    if free != [] {
      assert free[0] in free;
    }
  }
}

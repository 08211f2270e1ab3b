/**
 Crash recovery: `RecoveryManager` of `src/recovery/log_recovery.cpp`.
 */
module Recovery {
  import opened Options
  import opened Sequences
  import opened LogCodec
  import opened LogFile
  import opened LogHistory
  import opened LogRedo
  import opened LogUndo
  import opened LogUndoExact
  import opened LogLatches

  /** `active_txn_` after `n` records: each active transaction with its last LSN. */
  ghost predicate ActiveIs(m: map<int, int>, recs: seq<LogRecord>, n: nat)
    requires n <= |recs|
  {
    forall t: int :: (t in m <==> Active(recs, n, t)) && (t in m ==> m[t] == recs[LastOf(recs, t, n)].lsn)
  }

  /** `lsn_mapping_` after `n` records. */
  ghost predicate MappingIs(m: map<int, int>, recs: seq<LogRecord>, n: nat)
    requires n <= |recs| && AllStorable(recs)
  {
    && (forall i :: 0 <= i < n ==> recs[i].lsn in m && m[recs[i].lsn] == OffsetOf(recs, i))
    && (forall x :: x in m ==> exists i :: 0 <= i < n && recs[i].lsn == x)
  }

  predicate WritesPage(r: LogRecord, p: PageId) {
    IsWrite(r.op) && PageOf(r.op.slot) == p
  }

  /** The last of the first `n` records that writes the page, or -1. */
  function LastOnPage(recs: seq<LogRecord>, n: nat, p: PageId): (i: int)
    requires n <= |recs|
    ensures -1 <= i < n && (i >= 0 ==> WritesPage(recs[i], p))
    ensures forall j :: i < j < n ==> !WritesPage(recs[j], p)
  {
    if n == 0 then -1 else if WritesPage(recs[n - 1], p) then n - 1 else LastOnPage(recs, n - 1, p)
  }

  lemma {:induction false} LastOnPageStep(recs: seq<LogRecord>, n: nat, p: PageId)
    requires n < |recs|
    ensures LastOnPage(recs, n + 1, p) == if WritesPage(recs[n], p) then n else LastOnPage(recs, n, p)
  {
  }

  /** Page LSNs after `n` records: the greater of the LSN on disk and that of the last record on the page. */
  ghost predicate RaisedTo(now: map<PageId, int>, disk: map<PageId, int>, recs: seq<LogRecord>, n: nat)
    requires n <= |recs|
  {
    forall p ::
      var i := LastOnPage(recs, n, p);
      LsnOf(now, p) == if i >= 0 && recs[i].lsn > LsnOf(disk, p) then recs[i].lsn else LsnOf(disk, p)
  }

  lemma {:induction false} ActiveStep(m: map<int, int>, recs: seq<LogRecord>, n: nat)
    requires n < |recs| && WellFormed(recs) && ActiveIs(m, recs, n)
    ensures ActiveIs(if Ends(recs[n].op) then m - {recs[n].tid} else m[recs[n].tid := recs[n].lsn], recs, n + 1)
    ensures recs[n].op.Begin? ==> recs[n].tid !in m
  {
    var m' := if Ends(recs[n].op) then m - {recs[n].tid} else m[recs[n].tid := recs[n].lsn];
    assert Chained(recs, n);
    forall t: int
      ensures (t in m' <==> Active(recs, n + 1, t)) && (t in m' ==> m'[t] == recs[LastOf(recs, t, n + 1)].lsn)
    {
      assert t in m <==> Active(recs, n, t);
    }
  }

  lemma {:induction false} MappingStep(m: map<int, int>, recs: seq<LogRecord>, n: nat)
    requires n < |recs| && AllStorable(recs) && Increasing(recs) && MappingIs(m, recs, n)
    ensures recs[n].lsn !in m
    ensures MappingIs(m[recs[n].lsn := OffsetOf(recs, n)], recs, n + 1)
  {
    hide FileBytes, Storable;
    var m' := m[recs[n].lsn := OffsetOf(recs, n)];
    forall x | x in m' ensures exists i :: 0 <= i < n + 1 && recs[i].lsn == x {
      if x == recs[n].lsn {
        assert recs[n].lsn == x;
      } else {
        var i :| 0 <= i < n && recs[i].lsn == x;
      }
    }
  }

  lemma {:induction false} RaisedStep(now: map<PageId, int>, disk: map<PageId, int>, recs: seq<LogRecord>, n: nat)
    requires n < |recs| && Increasing(recs) && RaisedTo(now, disk, recs, n) && IsWrite(recs[n].op)
    ensures var p := PageOf(recs[n].op.slot);
            && (LsnOf(now, p) < recs[n].lsn <==> NeedsRedo(recs, disk, n))
            && RaisedTo(if LsnOf(now, p) < recs[n].lsn then now[p := recs[n].lsn] else now, disk, recs, n + 1)
  {
    hide LastOnPage;
    var p := PageOf(recs[n].op.slot);
    LastOnPageStep(recs, n, p);
    forall q | q != p ensures LastOnPage(recs, n + 1, q) == LastOnPage(recs, n, q) {
      LastOnPageStep(recs, n, q);
    }
  }

  lemma {:induction false} RaisedSkip(now: map<PageId, int>, disk: map<PageId, int>, recs: seq<LogRecord>, n: nat)
    requires n < |recs| && RaisedTo(now, disk, recs, n) && !IsWrite(recs[n].op)
    ensures RaisedTo(now, disk, recs, n + 1)
  {
    hide LastOnPage;
    forall q ensures LastOnPage(recs, n + 1, q) == LastOnPage(recs, n, q) {
      LastOnPageStep(recs, n, q);
    }
  }

  /** Pages written back as analysis left their LSNs need no redo after the next crash. */
  lemma {:induction false} NothingToRedo(recs: seq<LogRecord>, now: map<PageId, int>, disk: map<PageId, int>, n: nat)
    requires n <= |recs| && Increasing(recs) && RaisedTo(now, disk, recs, |recs|)
    ensures Dirty(recs, now, n) == []
    decreases |recs| - n
  {
    if n < |recs| {
      NothingToRedo(recs, now, disk, n + 1);
      if IsWrite(recs[n].op) {
        var p := PageOf(recs[n].op.slot);
        var i := LastOnPage(recs, |recs|, p);
        assert WritesPage(recs[n], p) && n <= i;
        assert LsnOf(now, p) >= recs[i].lsn >= recs[n].lsn;
      }
    }
  }

  /** The redo list so far, followed by what is still to come, is the whole list. */
  lemma {:induction false} DirtyStep(done: seq<int>, recs: seq<LogRecord>, disk: map<PageId, int>, n: nat)
    requires n < |recs| && done + Dirty(recs, disk, n) == Dirty(recs, disk, 0)
    ensures NeedsRedo(recs, disk, n) ==> done + [recs[n].lsn] + Dirty(recs, disk, n + 1) == Dirty(recs, disk, 0)
    ensures !NeedsRedo(recs, disk, n) ==> done + Dirty(recs, disk, n + 1) == Dirty(recs, disk, 0)
  {
    if NeedsRedo(recs, disk, n) {
      assert done + ([recs[n].lsn] + Dirty(recs, disk, n + 1)) == done + [recs[n].lsn] + Dirty(recs, disk, n + 1);
    }
  }

  lemma {:induction false} StartOffset(recs: seq<LogRecord>)
    requires AllStorable(recs)
    ensures OffsetOf(recs, 0) == 0
  {
  }

  lemma {:induction false} Positive(r: LogRecord)
    ensures TotalLength(r) >= LOG_HEADER_SIZE
  {
  }

  /** A chunk that starts at a record contains it, since no record is longer than the buffer. */
  lemma {:induction false} FirstFits(recs: seq<LogRecord>, n: nat)
    requires AllStorable(recs) && n < |recs| && OffsetOf(recs, n) <= |FileBytes(recs)|
    ensures LOG_HEADER_SIZE <= TotalLength(recs[n]) <= |ReadLog(FileBytes(recs), OffsetOf(recs, n))|
  {
    hide FileBytes;
    var rest := FileAt(recs, n);
    assert Storable(recs[n]);
  }

  lemma {:induction false} SliceTail<T>(s: seq<T>, at: nat, x: nat, i: nat)
    requires at <= x <= |s| && at + i <= x
    ensures s[at..x][i..] == s[at + i..x]
  {
    SliceOfSlice(s, at, x, i, x - at);
    assert s[at..x][i..] == s[at..x][i..x - at];
  }

  /** The highest LSN and transaction id among the first `n` records, or -1. */
  ghost predicate Highest(recs: seq<LogRecord>, lsn: int, tid: int, n: nat)
    requires n <= |recs|
  {
    && (forall i :: 0 <= i < n ==> recs[i].lsn <= lsn && recs[i].tid <= tid)
    && (if n == 0 then lsn == -1 && tid == -1
        else lsn == recs[n - 1].lsn && exists i :: 0 <= i < n && recs[i].tid == tid)
  }

  lemma {:induction false} HighestStep(recs: seq<LogRecord>, lsn: int, tid: int, n: nat)
    requires WellFormed(recs) && n < |recs| && Highest(recs, lsn, tid, n)
    ensures Highest(recs, if lsn < recs[n].lsn then recs[n].lsn else lsn,
                    if tid < recs[n].tid then recs[n].tid else tid, n + 1)
  {
    assert 0 <= recs[n].lsn && 0 <= recs[n].tid;
    if tid < recs[n].tid {
      assert recs[n].tid == recs[n].tid;
    } else {
      var i :| 0 <= i < n && recs[i].tid == tid;
    }
  }

  lemma {:induction false} DirtyEnd(recs: seq<LogRecord>, lsns: map<PageId, int>)
    ensures Dirty(recs, lsns, |recs|) == []
  {
  }

  ghost predicate PushedBy(m: map<int, int>, done: set<int>, x: int) {
    exists t :: t in done && t in m && m[t] == x
  }

  /** Two active transactions never stand at the same LSN. */
  lemma {:induction false} PushOne(m: map<int, int>, recs: seq<LogRecord>, done: set<int>, t: int)
    requires ActiveIs(m, recs, |recs|) && Increasing(recs) && done <= m.Keys && t in m && t !in done
    ensures !PushedBy(m, done, m[t])
    ensures forall x :: PushedBy(m, done + {t}, x) <==> PushedBy(m, done, x) || x == m[t]
  {
    hide Active;
    forall u | u in done ensures m[u] != m[t] {
      InPlace(m, recs, u);
      InPlace(m, recs, t);
    }
    forall x ensures PushedBy(m, done + {t}, x) <==> PushedBy(m, done, x) || x == m[t] {
      if PushedBy(m, done, x) {
        var u :| u in done && u in m && m[u] == x;
        assert u in done + {t};
      }
      if x == m[t] {
        assert t in done + {t};
      }
    }
  }

  lemma {:induction false} InPlace(m: map<int, int>, recs: seq<LogRecord>, t: int)
    requires ActiveIs(m, recs, |recs|) && t in m
    ensures 0 <= LastOf(recs, t, |recs|) < |recs| && recs[LastOf(recs, t, |recs|)].tid == t
    ensures m[t] == recs[LastOf(recs, t, |recs|)].lsn && Active(recs, |recs|, t)
  {
    assert t in m <==> Active(recs, |recs|, t);
  }

  lemma {:induction false} PushedIsPending(m: map<int, int>, recs: seq<LogRecord>, x: int)
    requires ActiveIs(m, recs, |recs|)
    ensures PushedBy(m, m.Keys, x) <==> Pending(recs, |recs|, x)
  {
    hide Active;
    if PushedBy(m, m.Keys, x) {
      var t :| t in m.Keys && t in m && m[t] == x;
      InPlace(m, recs, t);
      var i := LastOf(recs, t, |recs|);
      assert recs[i].lsn == x && Loser(recs, i);
    }
    if Pending(recs, |recs|, x) {
      var i :| 0 <= i < |recs| && recs[i].lsn == x && Loser(recs, i) && LastOf(recs, recs[i].tid, |recs|) == i;
      assert recs[i].tid in m;
    }
  }

  lemma {:induction false} IncreasingLsns(recs: seq<LogRecord>)
    requires WellFormed(recs)
    ensures Increasing(recs)
  {
  }

  lemma {:induction false} TraceStep(trace: seq<int>, recs: seq<LogRecord>, m: nat, n: nat)
    requires m < n <= |recs| && Loser(recs, m) && LosersDown(recs, n) == LosersDown(recs, m + 1)
    ensures trace + LosersDown(recs, n) == trace + [recs[m].lsn] + LosersDown(recs, m)
  {
    hide Active;
    assert LosersDown(recs, m + 1) == [recs[m].lsn] + LosersDown(recs, m);
  }

  /** An empty heap means that no loser record is left. */
  lemma {:induction false} EmptyHeap(heap: multiset<int>, recs: seq<LogRecord>, n: nat)
    requires n <= |recs| && HeapIs(heap, recs, n) && heap == multiset{}
    ensures forall i :: 0 <= i < n ==> !Loser(recs, i)
  {
    hide Active;
    forall i | 0 <= i < n ensures !Loser(recs, i) {
      var j := LastOf(recs, recs[i].tid, n);
      LoserPending(recs, i, j, n);
      assert heap[recs[j].lsn] == 0;
    }
  }

  lemma {:induction false} NothingRead(recs: seq<LogRecord>, disk: map<PageId, int>)
    requires AllStorable(recs)
    ensures ActiveIs(map[], recs, 0) && MappingIs(map[], recs, 0) && RaisedTo(disk, disk, recs, 0) &&
            [] + Dirty(recs, disk, 0) == Dirty(recs, disk, 0)
  {
  }

  class RecoveryManager {
    const file: seq<Byte>              // the log file
    var records: Records               // the table files
    var pageLsn: map<PageId, int>
    var latched: set<PageId>           // pages whose latch nobody will release
    var activeTxn: map<int, int>
    var lsnMapping: map<int, int>
    var dirtyPageTable: seq<int>
    var globalLsn: int
    var persistLsn: int
    var nextTxnId: int

    ghost const recs: seq<LogRecord>   // what the log file holds
    ghost const base: Records          // the tables when the log began
    ghost const diskLsn: map<PageId, int>

    /** What recovery may rely on: a complete log with its chains. */
    ghost predicate Sound() {
      AllStorable(recs) && file == FileBytes(recs) && WellFormed(recs)
    }

    constructor (file: seq<Byte>, records: Records, pageLsn: map<PageId, int>, ghost recs: seq<LogRecord>,
                 ghost base: Records)
      requires AllStorable(recs) && file == FileBytes(recs) && WellFormed(recs)
      ensures Sound() && this.recs == recs && this.base == base && this.records == records && this.pageLsn == pageLsn
      ensures diskLsn == pageLsn && Analyzed(0) && latched == {}
    {
      this.file, this.records, this.pageLsn := file, records, pageLsn;
      activeTxn, lsnMapping, dirtyPageTable, latched := map[], map[], [], {};
      globalLsn, persistLsn, nextTxnId := 0, 0, 0;
      this.recs, this.base, this.diskLsn := recs, base, pageLsn;
      new;
      NothingRead(recs, pageLsn);
    }

    /** The tables that analysis builds, after `n` records. */
    ghost predicate Analyzed(n: nat)
      reads `activeTxn, `lsnMapping, `pageLsn, `dirtyPageTable
      requires Sound() && n <= |recs|
    {
      && ActiveIs(activeTxn, recs, n) && MappingIs(lsnMapping, recs, n) && RaisedTo(pageLsn, diskLsn, recs, n)
      && dirtyPageTable + Dirty(recs, diskLsn, n) == Dirty(recs, diskLsn, 0)
    }

    /** One turn of the inner loop of `analyze`: record `n`, found at byte `at`. */
    method AnalyzeRecord(r: LogRecord, at: nat, ghost n: nat)
      requires Sound() && n < |recs| && r == recs[n] && at == OffsetOf(recs, n) && Analyzed(n)
      modifies `activeTxn, `lsnMapping, `dirtyPageTable, `pageLsn
      ensures Analyzed(n + 1)
    {
      hide ActiveIs, MappingIs, RaisedTo, Dirty, FileBytes, Storable, Increasing, Active;
      ActiveStep(activeTxn, recs, n);
      MappingStep(lsnMapping, recs, n);
      DirtyStep(dirtyPageTable, recs, diskLsn, n);
      if IsWrite(r.op) {
        RaisedStep(pageLsn, diskLsn, recs, n);
      } else {
        RaisedSkip(pageLsn, diskLsn, recs, n);
      }
      match r.op {
        case Begin =>
          activeTxn := if r.tid in activeTxn then activeTxn else activeTxn[r.tid := r.lsn];
        case Commit =>
          activeTxn := activeTxn - {r.tid};
        case Abort =>
          activeTxn := activeTxn - {r.tid};
        case Insert(slot, _) =>
          activeTxn := activeTxn[r.tid := r.lsn];
          MarkDirty(slot, r.lsn);
        case Delete(slot, _) =>
          activeTxn := activeTxn[r.tid := r.lsn];
          MarkDirty(slot, r.lsn);
        case Update(slot, _, _) =>
          activeTxn := activeTxn[r.tid := r.lsn];
          MarkDirty(slot, r.lsn);
      }
      lsnMapping := if r.lsn in lsnMapping then lsnMapping else lsnMapping[r.lsn := at];
    }

    /** Lists the LSN for redo if the page is older, and raises the page LSN. */
    method MarkDirty(slot: Slot, lsn: int)
      modifies `dirtyPageTable, `pageLsn
      ensures if LsnOf(old(pageLsn), PageOf(slot)) < lsn
              then dirtyPageTable == old(dirtyPageTable) + [lsn] && pageLsn == old(pageLsn)[PageOf(slot) := lsn]
              else dirtyPageTable == old(dirtyPageTable) && pageLsn == old(pageLsn)
    {
      if LsnOf(pageLsn, PageOf(slot)) < lsn {
        dirtyPageTable := dirtyPageTable + [lsn];
        pageLsn := pageLsn[PageOf(slot) := lsn];
      }
    }

    /** The record at `offset` of the chunk, if the chunk holds all of it. */
    method TakeRecord(chunk: seq<Byte>, offset: nat, ghost start: nat, ghost n: nat) returns (r: Option<LogRecord>)
      requires Sound() && n <= |recs| && start <= |file| && chunk == ReadLog(file, start)
      requires start + offset == OffsetOf(recs, n) && offset + LOG_HEADER_SIZE <= |chunk|
      ensures n < |recs| && (r == None <==> offset + TotalLength(recs[n]) > |chunk|)
      ensures r.Some? ==> r.value == recs[n] && OffsetOf(recs, n + 1) == start + offset + TotalLength(recs[n])
    {
      hide FileBytes, ReadRecord, ReadLength, Storable, WellFormed, TotalLength;
      OffsetBounds(recs, n);
      ghost var rest := FileAt(recs, n);
      ghost var hi := start + |chunk|;
      SliceTail(file, start, hi, offset);
      LengthAt(recs, n, hi);
      var size := ReadLength(chunk[offset..]);
      if size > |chunk| - offset {
        return None;
      }
      ReadAt(recs, n, hi);
      r := ReadRecord(chunk[offset..]);
    }

    /** The inner loop of `analyze`: every record that lies completely in the chunk. */
    method AnalyzeChunk(chunk: seq<Byte>, start: nat, maxLsn: int, maxTid: int, ghost n: nat)
      returns (offset: nat, lsn: int, tid: int, ghost m: nat)
      requires Sound() && n < |recs| && start == OffsetOf(recs, n) && start <= |file| && chunk == ReadLog(file, start)
      requires Analyzed(n) && Highest(recs, maxLsn, maxTid, n)
      modifies `activeTxn, `lsnMapping, `dirtyPageTable, `pageLsn
      ensures n < m <= |recs| && start + offset == OffsetOf(recs, m) && offset > 0
      ensures Analyzed(m) && Highest(recs, lsn, tid, m)
    {
      hide FileBytes, ReadRecord, ReadLength, Storable, WellFormed, TotalLength, Analyzed, Highest;
      FirstFits(recs, n);
      offset, lsn, tid, m := 0, maxLsn, maxTid, n;
      while offset + LOG_HEADER_SIZE <= |chunk|
        invariant n <= m <= |recs| && start + offset == OffsetOf(recs, m) && (m == n <==> offset == 0)
        invariant Analyzed(m) && Highest(recs, lsn, tid, m)
        decreases |recs| - m
      {
        var r := TakeRecord(chunk, offset, start, m);
        if r.None? {
          break;
        }
        HighestStep(recs, lsn, tid, m);
        AnalyzeRecord(r.value, start + offset, m);
        Positive(r.value);
        offset := offset + TotalLength(r.value);
        lsn := if lsn < r.value.lsn then r.value.lsn else lsn;
        tid := if tid < r.value.tid then r.value.tid else tid;
        m := m + 1;
      }
    }

    /** Reads the whole log, chunk by chunk. */
    method Analyze()
      requires Sound() && Analyzed(0)
      modifies `activeTxn, `lsnMapping, `dirtyPageTable, `pageLsn, `globalLsn, `persistLsn, `nextTxnId
      ensures Analyzed(|recs|) && RaisedTo(pageLsn, diskLsn, recs, |recs|)
      ensures Highest(recs, globalLsn - 1, nextTxnId - 1, |recs|) && persistLsn == globalLsn - 1
    {
      hide FileBytes, Storable, WellFormed, RaisedTo, ActiveIs, MappingIs, Dirty;
      var maxLsn, maxTid, logOffset := -1, -1, 0;
      ghost var n: nat := 0;
      StartOffset(recs);
      var chunk := ReadLog(file, logOffset);
      while |chunk| > 0
        invariant n <= |recs| && 0 <= logOffset == OffsetOf(recs, n) <= |file| && chunk == ReadLog(file, logOffset)
        invariant Analyzed(n) && Highest(recs, maxLsn, maxTid, n)
        decreases |recs| - n
      {
        OffsetBounds(recs, n);
        var offset;
        offset, maxLsn, maxTid, n := AnalyzeChunk(chunk, logOffset, maxLsn, maxTid, n);
        logOffset := logOffset + offset;
        OffsetBounds(recs, n);
        chunk := ReadLog(file, logOffset);
      }
      OffsetBounds(recs, n);
      globalLsn := maxLsn + 1;
      persistLsn := maxLsn;
      nextTxnId := maxTid + 1;
    }

    // ----- redo -----

    /** The record with the given LSN, read again from the log file. */
    method Reread(lsn: int, ghost m: nat) returns (r: Option<LogRecord>)
      requires Sound() && m < |recs| && lsn == recs[m].lsn && MappingIs(lsnMapping, recs, |recs|)
      ensures r == Some(recs[m])
    {
      hide FileBytes, ReadRecord, Storable, WellFormed;
      OffsetBounds(recs, m);
      FirstFits(recs, m);
      var offset := lsnMapping[lsn];
      var chunk := ReadLog(file, offset);
      ReadAt(recs, m, offset + |chunk|);
      r := ReadRecord(chunk);
    }

    /** Writes a record as redo does. */
    method RedoWrite(op: Op) returns (ending: Ending)
      requires IsWrite(op)
      modifies `records, `latched
      ensures Run(ending, records, latched) == RedoStep(old(records), old(latched), op)
    {
      match op {
        case Insert(slot, value) =>
          if PageOf(slot) in latched {
            return Hung;
          }
          records := records[slot := value];
        case Delete(slot, _) =>
          if PageOf(slot) in latched {
            return Hung;
          }
          if slot !in records {
            latched := latched + {PageOf(slot)};
          } else {
            records := records - {slot};
          }
        case Update(slot, _, after) =>
          if slot !in records {
            return Failed;
          }
          records := records[slot := after];
      }
      return Ended;
    }

    /** Replays the listed records on whatever the pages hold. */
    method Redo() returns (ending: Ending)
      requires Sound() && Analyzed(|recs|)
      modifies `records, `latched
      ensures Run(ending, records, latched) == RedoLatched(recs, diskLsn, 0, old(records), old(latched))
    {
      hide FileBytes, Storable, Increasing, ActiveIs, RaisedTo, MappingIs, Chained, RedoStep;
      var k := 0;
      ghost var n: nat := 0;
      DirtyEnd(recs, diskLsn);
      while k < |dirtyPageTable|
        invariant 0 <= k <= |dirtyPageTable| && n <= |recs|
        invariant RedoLatched(recs, diskLsn, n, records, latched) ==
                  RedoLatched(recs, diskLsn, 0, old(records), old(latched))
        invariant dirtyPageTable[k..] == Dirty(recs, diskLsn, n)
      {
        n := SkipClean(recs, diskLsn, n, records, latched);
        var r := Reread(dirtyPageTable[k], n);
        if r.Some? && IsWrite(r.value.op) {
          ending := RedoWrite(r.value.op);
          if ending != Ended {
            return;
          }
        }
        n := n + 1;
        k := k + 1;
      }
      n := SkipClean(recs, diskLsn, n, records, latched);
      ending := Ended;
    }

    // ----- undo -----

    /** The heap at the start of undo: the last LSN of every active transaction. */
    method FillHeap() returns (heap: multiset<int>)
      requires Sound() && ActiveIs(activeTxn, recs, |recs|)
      ensures HeapIs(heap, recs, |recs|)
    {
      hide FileBytes, Storable, Active, WellFormed;
      IncreasingLsns(recs);
      heap := multiset{};
      var rest := activeTxn.Keys;
      while rest != {}
        invariant rest <= activeTxn.Keys
        invariant forall x :: heap[x] == if PushedBy(activeTxn, activeTxn.Keys - rest, x) then 1 else 0
        decreases rest
      {
        ghost var some := SomeMember(rest);
        var t :| t in rest;
        PushOne(activeTxn, recs, activeTxn.Keys - rest, t);
        assert activeTxn.Keys - (rest - {t}) == (activeTxn.Keys - rest) + {t};
        heap := heap + multiset{activeTxn[t]};
        rest := rest - {t};
      }
      forall x ensures heap[x] == if Pending(recs, |recs|, x) then 1 else 0 {
        PushedIsPending(activeTxn, recs, x);
        assert activeTxn.Keys - {} == activeTxn.Keys;
      }
    }

    /** Writes the inverse of a record. */
    method UndoWrite(op: Op) returns (ending: Ending)
      requires IsWrite(op)
      modifies `records, `latched
      ensures Run(ending, records, latched) == UndoStep(old(records), old(latched), op)
    {
      match op {
        case Insert(slot, _) =>
          if PageOf(slot) in latched {
            return Hung;
          }
          if slot !in records {
            latched := latched + {PageOf(slot)};
            return Failed;
          }
          records := records - {slot};
        case Delete(slot, value) =>
          if PageOf(slot) in latched {
            return Hung;
          }
          records := records[slot := value];
        case Update(slot, before, _) =>
          if slot !in records {
            return Failed;
          }
          records := records[slot := before];
      }
      return Ended;
    }

    /** Rolls the losers back, latest record first, on whatever the rows are; `trace` lists the LSNs visited. */
    method Undo() returns (ending: Ending, trace: seq<int>)
      requires Sound() && Analyzed(|recs|)
      modifies `records, `latched
      ensures Run(ending, records, latched) == UndoLatched(recs, Losers(recs), |recs|, old(records), old(latched))
      ensures trace <= LosersDown(recs, |recs|) && (ending == Ended ==> trace == LosersDown(recs, |recs|))
    {
      hide FileBytes, Storable, ActiveIs, RaisedTo, MappingIs, Active, HeapIs, Dirty, WellFormed, Pending, LosersDown,
           UndoLatched, UndoStep;
      var heap := FillHeap();
      ghost var n: nat := |recs|;
      trace := [];
      while heap != multiset{}
        invariant n <= |recs| && HeapIs(heap, recs, n)
        invariant UndoLatched(recs, Losers(recs), n, records, latched) ==
                  UndoLatched(recs, Losers(recs), |recs|, old(records), old(latched))
        invariant trace + LosersDown(recs, n) == LosersDown(recs, |recs|)
        decreases n
      {
        var lsn := Top(heap);
        IncreasingLsns(recs);
        ghost var m := TopIsLatest(heap, recs, n, lsn);
        HeapStep(heap, recs, n, m);
        heap := heap - multiset{lsn};
        SkipFinished(recs, m + 1, n, records, latched);
        UndoOne(recs, m, records, latched);
        TraceStep(trace, recs, m, n);
        var r := Reread(lsn, m);
        trace := trace + [lsn];
        if r.Some? {
          if IsWrite(r.value.op) {
            ending := UndoWrite(r.value.op);
            if ending != Ended {
              return;
            }
          }
          lsn := r.value.prevLsn;
        }
        if lsn != INVALID_LSN {
          heap := heap + multiset{lsn};
        }
        n := m;
      }
      EmptyHeap(heap, recs, n);
      SkipFinished(recs, 0, n, records, latched);
      UndoNone(recs, records, latched);
      ending := Ended;
    }

    /**
     Restart after a crash, from any rows and page LSNs. If the pages are fit for redo, the rows of the finished
     transactions come back if and only if undo meets its rows and agrees with the winners, and nothing waits for a page
     that a redone delete has left latched.
     */
    method Recover() returns (ending: Ending)
      requires Sound() && Analyzed(0) && latched == {}
      modifies this
      ensures Run(ending, records, latched) == RecoverLatched(recs, diskLsn, old(records))
      ensures LegalHistory(base, recs) && Redoable(base, recs, diskLsn, old(records)) ==>
                (ending == Ended && records == Replay(base, Kept(recs, Losers(recs))) <==>
                 UndoMeetsRows(recs, Losers(recs)) && KeptAgree(recs, Losers(recs)) &&
                 Unstuck(recs, diskLsn, old(records)))
      ensures RaisedTo(pageLsn, diskLsn, recs, |recs|) && Dirty(recs, pageLsn, 0) == []
      ensures Highest(recs, globalLsn - 1, nextTxnId - 1, |recs|) && persistLsn == globalLsn - 1
    {
      hide FileBytes, Storable, WellFormed, Analyzed, Redoable, Replay, Kept, UndoLatched, RedoLatched, LegalHistory,
           UndoMeetsRows, KeptAgree, Unstuck, RecoverRun, RaisedTo, Dirty;
      ghost var db := records;
      Analyze();
      IncreasingLsns(recs);
      NothingToRedo(recs, pageLsn, diskLsn, 0);
      ending := Redo();
      if ending == Ended {
        var visited;
        ending, visited := Undo();
      }
      RecoverIs(base, recs, diskLsn, db);
      RecoverLatchedIs(recs, diskLsn, db, Replay(base, Kept(recs, Losers(recs))));
    }
  }

  lemma {:induction false} RecoverIs(base: Records, recs: seq<LogRecord>, lsns: map<PageId, int>, db: Records)
    requires WellFormed(recs)
    ensures LegalHistory(base, recs) && Redoable(base, recs, lsns, db) ==>
              (RecoverRun(recs, lsns, db) == Some(Replay(base, Kept(recs, Losers(recs)))) <==>
               UndoMeetsRows(recs, Losers(recs)) && KeptAgree(recs, Losers(recs)))
  {
    hide Redoable, Replay, Kept, UndoRun, RedoRun, LegalHistory, UndoMeetsRows, KeptAgree;
    if LegalHistory(base, recs) {
      IncreasingLsns(recs);
      RedoExact(base, recs, lsns, db);
      UndoExact(base, recs, Losers(recs));
    }
  }

  /** What recovery needs at a slot that holds `v` on disk and should hold `g`. */
  ghost predicate Recovers(recs: seq<LogRecord>, lsns: map<PageId, int>, s: Slot, v: Option<seq<Byte>>,
                           g: Option<seq<Byte>>)
  {
    var w := Found(recs, lsns, |recs|, s, v);
    && RedoFinds(recs, lsns, 0, s, v) && FindsRow(recs, Losers(recs), |recs|, s, w)
    && g == Reached(recs, Losers(recs), 0, s, w)
  }

  /** Recovery without latches, slot by slot. */
  lemma {:induction false} RecoverRunIs(recs: seq<LogRecord>, lsns: map<PageId, int>, db: Records, goal: Records)
    ensures RecoverRun(recs, lsns, db) == Some(goal) <==>
            forall s :: Recovers(recs, lsns, s, Look(db, s), Look(goal, s))
  {
    hide RedoRun, UndoRun, RedoFinds, Found, FindsRow, Reached, Look, Losers;
    RedoRunIs(recs, lsns, db);
    var r := RedoRun(recs, lsns, 0, db);
    if r.Some? {
      UndoRunIs(recs, Losers(recs), r.value, goal);
      forall s
        ensures Recovers(recs, lsns, s, Look(db, s), Look(goal, s)) <==>
                FindsRow(recs, Losers(recs), |recs|, s, Look(r.value, s)) &&
                Look(goal, s) == Reached(recs, Losers(recs), 0, s, Look(r.value, s))
      {
        assert RedoFinds(recs, lsns, 0, s, Look(db, s));
      }
    } else {
      var s :| !RedoFinds(recs, lsns, 0, s, Look(db, s));
      assert !Recovers(recs, lsns, s, Look(db, s), Look(goal, s));
    }
  }

  /**
   Recovery from any log and any pages: it comes to its end with the rows `goal` if and only if, slot by slot, every
   redone update and then every undone insert and update finds a row, and what redo and undo make of the slot is right;
   and no redone delete that finds no row is followed by another insert or delete on its page.
   */
  lemma {:induction false} RecoverExact(recs: seq<LogRecord>, lsns: map<PageId, int>, db: Records, goal: Records)
    ensures var r := RecoverLatched(recs, lsns, db);
            r.ending.Ended? && r.rows == goal <==>
            (forall s :: Recovers(recs, lsns, s, Look(db, s), Look(goal, s))) && Unstuck(recs, lsns, db)
  {
    hide RecoverRun, RecoverLatched, Recovers, Unstuck;
    RecoverRunIs(recs, lsns, db, goal);
    RecoverLatchedIs(recs, lsns, db, goal);
  }

  /**
   Recovery after recovery: the log of the first crash, the records of finished transactions after it, and any pages.
   It comes to its end with the rows `goal` if and only if every redone update finds a row, what redo makes of the slots
   can be undone once more, and no redone delete that finds no row is followed by another insert or delete on its page.
   */
  lemma {:induction false} SecondRecoveryExact(base: Records, recs: seq<LogRecord>, post: seq<LogRecord>,
                                               lsns: map<PageId, int>, db: Records, goal: Records)
    requires Continues(recs, post) && LegalHistory(base, recs) && LosersLast(recs)
    ensures var r := RecoverLatched(recs + post, lsns, db);
            r.ending.Ended? && r.rows == goal <==>
            Unstuck(recs + post, lsns, db) &&
            forall s ::
              var v := Look(db, s);
              && RedoFinds(recs + post, lsns, 0, s, v)
              && StillUndoable(recs, Losers(recs), s, Found(recs + post, lsns, |recs + post|, s, v), Look(goal, s))
  {
    hide RedoRun, UndoRun, RedoFinds, Found, Look, LegalHistory, GoneLast, Continues, Losers, StillUndoable, Unstuck,
         RecoverLatched;
    var all := recs + post;
    RedoRunIs(all, lsns, db);
    var r := RedoRun(all, lsns, 0, db);
    if r.Some? {
      SecondUndoExact(base, recs, post, r.value, goal);
    }
    RecoverLatchedIs(all, lsns, db, goal);
  }

  lemma {:induction false} UndoOne(recs: seq<LogRecord>, m: nat, db: Records, held: set<PageId>)
    requires m < |recs| && Loser(recs, m)
    ensures UndoLatched(recs, Losers(recs), m + 1, db, held) ==
            if !IsWrite(recs[m].op) then UndoLatched(recs, Losers(recs), m, db, held)
            else
              var r := UndoStep(db, held, recs[m].op);
              if r.ending.Ended? then UndoLatched(recs, Losers(recs), m, r.rows, r.latched) else r
  {
    hide Active, UndoStep;
  }

  lemma {:induction false} UndoNone(recs: seq<LogRecord>, db: Records, held: set<PageId>)
    ensures UndoLatched(recs, Losers(recs), 0, db, held) == Run(Ended, db, held) && LosersDown(recs, 0) == []
  {
  }

  lemma {:induction false} SomeCopy(s: multiset<int>)
    requires s != multiset{}
    ensures exists x :: x in s
  {
    if forall x :: x !in s {
      assert false;
    }
  }

  /** The greatest element of a non-empty heap. */
  method Top(heap: multiset<int>) returns (top: int)
    requires heap != multiset{}
    ensures top in heap && forall y :: y in heap ==> y <= top
  {
    SomeCopy(heap);
    top :| top in heap;
    var rest := heap - multiset{top};
    while rest != multiset{}
      invariant top in heap && rest <= heap
      invariant forall y :: y in heap ==> y <= top || y in rest
      decreases |rest|
    {
      SomeCopy(rest);
      var x :| x in rest;
      if x > top {
        top := x;
      }
      rest := rest - multiset{x};
    }
  }
}

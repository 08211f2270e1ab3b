/**
 From running transactions to a crash and back: what the log manager has put on disk is all recovery needs.
 */
module Restart {
  import opened LogCodec
  import opened LogFile
  import opened LogHistory
  import opened LogRedo
  import opened LogUndo
  import opened LogUndoExact
  import opened LogLatches
  import opened LogIsolation
  import opened LogWriter
  import opened TableIndexes
  import opened TransactionSteps
  import opened Transactions
  import opened Recovery

  /**
   Abort as the inverse of everything its transaction did: if all records since the transaction began are its
   own, rows and indexes are those from before it began.
   */
  lemma {:induction false} AbortRestores(schema: Schema, base: Records, before: seq<LogRecord>, own: seq<LogRecord>,
                                         t: int,
                                         db0: Records, ixs0: Indexes, db: Records, ixs: Indexes)
    requires (forall i :: 0 <= i < |before| ==> before[i].tid != t) && (forall i :: 0 <= i < |own| ==> own[i].tid == t)
    requires db0 == Replay(base, before) && Consistent(schema, db0, ixs0)
    requires db == Replay(base, Kept(before + own, iset{t})) && Consistent(schema, db, ixs)
    ensures db == db0 && ixs == ixs0
  {
    hide Replay, Consistent, Kept;
    KeptWithout(before, own, t);
    IndexesDetermined(schema, db0, ixs0, ixs);
  }

  lemma {:induction false} KeptWithout(before: seq<LogRecord>, own: seq<LogRecord>, t: int)
    requires (forall i :: 0 <= i < |before| ==> before[i].tid != t) && (forall i :: 0 <= i < |own| ==> own[i].tid == t)
    ensures Kept(before + own, iset{t}) == before
    decreases |own|, |before|
  {
    hide Kept;
    if own != [] {
      var n := |own| - 1;
      KeptWithout(before, own[..n], t);
      assert before + own == (before + own[..n]) + [own[n]];
      KeptOne(before + own[..n], own[n], iset{t});
    } else if before != [] {
      var n := |before| - 1;
      KeptWithout(before[..n], [], t);
      assert before + own == before == before[..n] + [before[n]] && before[..n] + [] == before[..n];
      KeptOne(before[..n], before[n], iset{t});
    } else {
      assert before + own == [];
      KeptEmpty(before + own, iset{t});
    }
  }

  lemma {:induction false} OnDisk(recs: seq<LogRecord>, flushed: nat, disk: seq<Byte>, mem: seq<Byte>, lsn: int,
                                  persistLsn: int)
    requires Stored(recs, flushed, disk, mem, lsn, persistLsn) && WellFormed(recs)
    ensures flushed <= |recs| && AllStorable(recs[..flushed]) && disk == FileBytes(recs[..flushed])
    ensures WellFormed(recs[..flushed])
  {
    hide FileBytes, Storable, WellFormed;
    PrefixChained(recs, flushed);
  }

  /** What a crash leaves of the log. */
  lemma {:induction false} LogOnDisk(m: TransactionManager)
    requires m.Sane()
    ensures m.log.flushed <= |m.log.recs|
    ensures var recs := m.log.recs[..m.log.flushed];
            AllStorable(recs) && m.log.disk == FileBytes(recs) && WellFormed(recs)
  {
    hide TracksAll, Stored, WellFormed, Replay, LegalHistory;
    OnDisk(m.log.recs, m.log.flushed, m.log.disk, m.log.buffer[..m.log.offset], m.log.globalLsn, m.log.persistLsn);
  }

  /** Exactly when recovery of an isolated log brings the committed transactions back. */
  lemma {:induction false} CommittedBack(base: Records, recs: seq<LogRecord>, lsns: map<PageId, int>, db: Records)
    requires Isolated(base, recs) && Redoable(base, recs, lsns, db)
    ensures var r := RecoverLatched(recs, lsns, db);
            r.ending == Ended && r.rows == Replay(base, Committed(recs)) <==>
            UndoMeetsRows(recs, Losers(recs)) && CommittedAgree(recs) && Unstuck(recs, lsns, db)
    ensures LosersLast(recs) ==> UndoMeetsRows(recs, Losers(recs)) && CommittedAgree(recs)
  {
    hide Redoable, Replay, Committed, UndoRun, RedoRun, LegalHistory, UndoMeetsRows, CommittedAgree, GoneLast,
         Contiguous, AbortsClean, Chained, Unstuck, RecoverLatched;
    RedoExact(base, recs, lsns, db);
    CommittedExact(base, recs);
    RecoverLatchedIs(recs, lsns, db, Replay(base, Committed(recs)));
    if LosersLast(recs) {
      GoneLastMeet(base, recs, Losers(recs));
      LosersLastAgree(recs);
    }
  }

  /** The simple case: pages that hold their history up to their LSN. */
  lemma {:induction false} PagesInOrder(base: Records, recs: seq<LogRecord>, lsns: map<PageId, int>, db: Records)
    requires Isolated(base, recs) && PagesAtLsn(base, recs, lsns, db)
    ensures Redoable(base, recs, lsns, db) && Unstuck(recs, lsns, db)
  {
    hide LegalHistory, Contiguous, AbortsClean, Chained, PagesAtLsn, Redoable, Unstuck, Increasing;
    PagesAtLsnRedo(base, recs, lsns, db);
    PagesAtLsnUnstuck(base, recs, lsns, db);
  }

  lemma {:induction false} AfterCrash(base: Records, recs: seq<LogRecord>, lsns: map<PageId, int>, db: Records)
    ensures var r := RecoverLatched(recs, lsns, db);
            && (Isolated(base, recs) && Redoable(base, recs, lsns, db) ==>
                  (r.ending == Ended && r.rows == Replay(base, Committed(recs)) <==>
                   UndoMeetsRows(recs, Losers(recs)) && CommittedAgree(recs) && Unstuck(recs, lsns, db)))
            && (Isolated(base, recs) && PagesAtLsn(base, recs, lsns, db) && LosersLast(recs) ==>
                  r.ending == Ended && r.rows == Replay(base, Committed(recs)))
  {
    hide Redoable, LosersLast, Replay, Committed, RecoverLatched, Isolated, PagesAtLsn, UndoMeetsRows, CommittedAgree,
         Unstuck;
    if Isolated(base, recs) {
      if PagesAtLsn(base, recs, lsns, db) {
        PagesInOrder(base, recs, lsns, db);
      }
      if Redoable(base, recs, lsns, db) {
        CommittedBack(base, recs, lsns, db);
      }
    }
  }

  /**
   A crash at any moment of any history: the log file holds the records flushed so far, the table files any pages
   whatsoever. Recovery does what redo and undo do to these. If the log in the file is isolated and the pages let redo
   repeat history, recovery brings back exactly the transactions whose commit is in the file if and only if every
   unfinished insert or update meets a row, no committed transaction has changed what an unfinished one had found, and
   nothing waits for a page that a redone delete has left latched. So it does if unfinished transactions wrote their
   slots last and all pages hold their history up to their LSN.
   */
  method Recover(m: TransactionManager, records: Records, pageLsn: map<PageId, int>)
    returns (r: RecoveryManager, ending: Ending)
    requires m.Sane()
    ensures m.log.flushed <= |m.log.recs|
    ensures var recs := m.log.recs[..m.log.flushed];
            && Run(ending, r.records, r.latched) == RecoverLatched(recs, pageLsn, records)
            && RaisedTo(r.pageLsn, pageLsn, recs, |recs|) && Dirty(recs, r.pageLsn, 0) == []
            && Highest(recs, r.globalLsn - 1, r.nextTxnId - 1, |recs|) && r.persistLsn == r.globalLsn - 1
            && (Isolated(m.base, recs) && Redoable(m.base, recs, pageLsn, records) ==>
                  (ending == Ended && r.records == Replay(m.base, Committed(recs)) <==>
                   UndoMeetsRows(recs, Losers(recs)) && CommittedAgree(recs) && Unstuck(recs, pageLsn, records)))
            && (Isolated(m.base, recs) && PagesAtLsn(m.base, recs, pageLsn, records) && LosersLast(recs) ==>
                  ending == Ended && r.records == Replay(m.base, Committed(recs)))
  {
    hide TransactionManager.Sane, Redoable, WellFormed, LosersLast, Replay, Committed, RecoverLatched, Isolated,
         PagesAtLsn, UndoMeetsRows, CommittedAgree, Unstuck, RecoveryManager.Analyzed, RaisedTo, Dirty, Highest,
         FileBytes, Storable, LegalHistory, KeptAgree;
    LogOnDisk(m);
    ghost var recs := m.log.recs[..m.log.flushed];
    r := new RecoveryManager(m.log.disk, records, pageLsn, recs, m.base);
    ending := r.Recover();
    AfterCrash(m.base, recs, pageLsn, records);
  }
}

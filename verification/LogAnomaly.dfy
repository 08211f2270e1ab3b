/**
 Logs the server can write and recovery cannot handle.
 */
module LogAnomaly {
  import opened Options
  import opened LogCodec
  import opened LogHistory
  import opened LogRedo
  import opened LogUndo
  import opened LogLatches
  import opened LogIsolation

  const CELL := Slot([], 0, 0)
  const BASE: Records := map[CELL := [1]]

  // ----- a commit that is not in the log yet -----

  /**
   Transaction 0 updates a row and commits: its locks are gone, its COMMIT record is not yet logged. Transaction 1
   updates the row again, and its COMMIT record makes it to the log before the crash.
   */
  const EARLY := [
    LogRecord(0, 0, -1, Begin), LogRecord(1, 0, 0, Update(CELL, [1], [2])),
    LogRecord(2, 1, -1, Begin), LogRecord(3, 1, 2, Update(CELL, [2], [3])), LogRecord(4, 1, 3, Commit)]

  /** The same with an insert and a delete. */
  const VANISHED := [
    LogRecord(0, 0, -1, Begin), LogRecord(1, 0, 0, Insert(CELL, [1])),
    LogRecord(2, 1, -1, Begin), LogRecord(3, 1, 2, Delete(CELL, [1])), LogRecord(4, 1, 3, Commit)]

  /** Two records of transaction 0, then three of transaction 1 that end with its commit. */
  ghost predicate TwoThenThree(recs: seq<LogRecord>) {
    && |recs| == 5 && (forall i :: 0 <= i < 5 ==> recs[i].lsn == i && recs[i].tid == if i < 2 then 0 else 1)
    && recs[0].op.Begin? && IsWrite(recs[1].op) && recs[2].op.Begin? && IsWrite(recs[3].op) && recs[4].op.Commit?
    && recs[0].prevLsn == recs[2].prevLsn == -1 && recs[1].prevLsn == 0 && recs[3].prevLsn == 2 && recs[4].prevLsn == 3
    && recs[1].op.slot == recs[3].op.slot == CELL
  }

  lemma {:induction false} Lasts(recs: seq<LogRecord>, n: nat)
    requires TwoThenThree(recs) && n <= 5
    ensures LastOf(recs, 0, n) == (if n == 0 then -1 else if n == 1 then 0 else 1)
    ensures LastOf(recs, 1, n) == (if n <= 2 then -1 else n - 1)
  {
    hide LastOf;
    var i, j := LastOf(recs, 0, n), LastOf(recs, 1, n);
    assert recs[0].tid == 0 && recs[1].tid == 0 && recs[2].tid == 1 && recs[3].tid == 1 && recs[4].tid == 1;
  }

  lemma {:induction false} FirstLoses(recs: seq<LogRecord>)
    requires TwoThenThree(recs)
    ensures WellFormed(recs) && HasCommitted(recs, 1) && forall i :: 0 <= i < 5 ==> Loser(recs, i) == (i < 2)
  {
    hide LastOf;
    forall n | 0 <= n <= 5 ensures LastOf(recs, 0, n) == (if n == 0 then -1 else if n == 1 then 0 else 1)
                           ensures LastOf(recs, 1, n) == (if n <= 2 then -1 else n - 1)
    {
      Lasts(recs, n);
    }
    assert recs[4].tid == 1 && recs[4].op.Commit?;
  }

  lemma {:induction false} Replays(base: Records, recs: seq<LogRecord>)
    requires TwoThenThree(recs) && Look(base, CELL) == Before(recs[1].op) && After(recs[1].op) == Before(recs[3].op)
    ensures LegalHistory(base, recs) && Replay(base, recs) == Apply(Apply(base, recs[1].op), recs[3].op)
  {
    hide Replay;
    ReplayNothing(base);
    forall n | 0 <= n < 5
      ensures recs[..n + 1] == recs[..n] + [recs[n]] &&
              Replay(base, recs[..n + 1]) == Apply(Replay(base, recs[..n]), recs[n].op)
    {
      assert recs[..n + 1] == recs[..n] + [recs[n]];
      ReplayOne(base, recs[..n], recs[n]);
    }
    assert recs[..0] == [] && recs[..1] == recs[..0 + 1] && recs[..2] == recs[..1 + 1] && recs[..3] == recs[..2 + 1];
    assert recs[..4] == recs[..3 + 1] && recs[..5] == recs[..4 + 1] && recs[..5] == recs;
    LookPut(base, CELL, After(recs[1].op), CELL);
  }

  /** What undo does on such a log: it takes the first write back, whatever came after. */
  lemma {:induction false} UndoTakesBack(recs: seq<LogRecord>, db: Records)
    requires TwoThenThree(recs)
    ensures UndoRun(recs, Losers(recs), 5, db) == if CanUndo(db, recs[1].op) then Some(Undone(db, recs[1].op)) else None
  {
    hide Loser;
    FirstLoses(recs);
    UndoDownTo(recs, 2, 5, db);
    var back := Undone(db, recs[1].op);
    assert UndoRun(recs, Losers(recs), 0, back) == UndoRun(recs, Losers(recs), 1, back) == Some(back);
  }

  /** Recovery takes a committed update back. */
  lemma {:induction false} EarlyReleaseLosesUpdate()
    ensures WellFormed(EARLY) && LegalHistory(BASE, EARLY) && HasCommitted(EARLY, 1)
    ensures Replay(BASE, Committed(EARLY)) == map[CELL := [3]] &&
            UndoRun(EARLY, Losers(EARLY), 5, Replay(BASE, EARLY)) == Some(map[CELL := [1]])
  {
    hide Replay, UndoRun, Committed, WellFormed, LegalHistory, HasCommitted;
    assert TwoThenThree(EARLY);
    FirstLoses(EARLY);
    Replays(BASE, EARLY);
    UndoTakesBack(EARLY, map[CELL := [3]]);
    CommittedSecond(BASE, EARLY);
    assert Apply(Apply(BASE, EARLY[1].op), EARLY[3].op) == map[CELL := [3]];
    assert Apply(BASE, EARLY[3].op) == map[CELL := [3]] && Undone(map[CELL := [3]], EARLY[1].op) == map[CELL := [1]];
  }

  /** Recovery fails on a row that a committed transaction has deleted: the server does not start again. */
  lemma {:induction false} EarlyReleaseStopsRecovery()
    ensures WellFormed(VANISHED) && LegalHistory(map[], VANISHED) && HasCommitted(VANISHED, 1)
    ensures UndoRun(VANISHED, Losers(VANISHED), 5, Replay(map[], VANISHED)) == None
  {
    hide Replay, UndoRun, WellFormed, LegalHistory, HasCommitted;
    assert TwoThenThree(VANISHED);
    FirstLoses(VANISHED);
    Replays(map[], VANISHED);
    var db := Apply(Apply(map[], VANISHED[1].op), VANISHED[3].op);
    UndoTakesBack(VANISHED, db);
    assert CELL !in db;
  }

  lemma {:induction false} KeepsSecond(recs: seq<LogRecord>, gone: iset<int>)
    requires TwoThenThree(recs) && 0 in gone && 1 !in gone
    ensures Kept(recs, gone) == [recs[2], recs[3], recs[4]]
  {
    hide Kept;
    KeptEmpty([], gone);
    KeptOne([], recs[0], gone);
    KeptOne([recs[0]], recs[1], gone);
    KeptOne([recs[0], recs[1]], recs[2], gone);
    KeptOne([recs[0], recs[1], recs[2]], recs[3], gone);
    KeptOne([recs[0], recs[1], recs[2], recs[3]], recs[4], gone);
    assert [] + [recs[0]] == [recs[0]] && [recs[0]] + [recs[1]] == [recs[0], recs[1]];
    assert [recs[0], recs[1]] + [recs[2]] == [recs[0], recs[1], recs[2]];
    assert [recs[0], recs[1], recs[2]] + [recs[3]] == [recs[0], recs[1], recs[2], recs[3]];
    assert [recs[0], recs[1], recs[2], recs[3]] + [recs[4]] == recs;
  }

  lemma {:induction false} CommittedSecond(base: Records, recs: seq<LogRecord>)
    requires TwoThenThree(recs)
    ensures Replay(base, Committed(recs)) == Apply(base, recs[3].op)
  {
    hide Replay, HasCommitted, Kept, WellFormed;
    FirstLoses(recs);
    LoserNotCommitted(recs, 0);
    assert Loser(recs, 0);
    KeepsSecond(recs, Uncommitted(recs));
    ReplayNothing(base);
    ReplayOne(base, [], recs[2]);
    ReplayOne(base, [recs[2]], recs[3]);
    ReplayOne(base, [recs[2], recs[3]], recs[4]);
    assert [] + [recs[2]] == [recs[2]] && [recs[2]] + [recs[3]] == [recs[2], recs[3]];
    assert [recs[2], recs[3]] + [recs[4]] == [recs[2], recs[3], recs[4]];
  }

  // ----- recovery that is run again -----

  const UNFINISHED := [LogRecord(0, 0, -1, Begin), LogRecord(1, 0, 0, Insert(CELL, [1]))]

  /**
   Undo takes an insert back and logs nothing. The next recovery finds the same log and a row that is gone, and fails.
   */
  lemma {:induction false} SecondRecoveryFails()
    ensures WellFormed(UNFINISHED) && UndoRun(UNFINISHED, Losers(UNFINISHED), 2, map[CELL := [1]]) == Some(map[]) &&
            UndoRun(UNFINISHED, Losers(UNFINISHED), 2, map[]) == None
  {
    forall n | 0 <= n <= 2 ensures LastOf(UNFINISHED, 0, n) == n - 1 {
      assert n > 0 ==> UNFINISHED[n - 1].tid == 0;
    }
    assert Loser(UNFINISHED, 0) && Loser(UNFINISHED, 1);
    var db: Records := map[CELL := [1]];
    assert Undone(db, UNFINISHED[1].op) == map[];
    assert UndoRun(UNFINISHED, Losers(UNFINISHED), 1,
                   map[]) == UndoRun(UNFINISHED, Losers(UNFINISHED), 0, map[]) == Some(map[]);
  }

  /**
   A delete that recovery has undone, then an update of the row by a transaction that commits. The next recovery, if the
   page is not on disk yet, redoes the delete, finds no row for the update, and fails.
   */
  const RESTORED := [
    LogRecord(0, 0, -1, Begin), LogRecord(1, 0, 0, Delete(CELL, [1])),
    LogRecord(2, 1, -1, Begin), LogRecord(3, 1, 2, Update(CELL, [1], [2])), LogRecord(4, 1, 3, Commit)]

  lemma {:induction false} SecondRedoFails()
    ensures WellFormed(RESTORED) && UndoRun(RESTORED[..2], Losers(RESTORED[..2]), 2, map[]) == Some(BASE)
    ensures Look(BASE, CELL) == Before(RESTORED[3].op) && RedoRun(RESTORED, map[], 0, BASE) == None
  {
    hide WellFormed;
    assert TwoThenThree(RESTORED);
    FirstLoses(RESTORED);
    FirstUnfinished();
    var mid: Records := map[];
    assert Apply(BASE, RESTORED[1].op) == mid;
    assert NeedsRedo(RESTORED, map[], 3) && !CanRedo(mid, RESTORED[3].op);
    assert RedoRun(RESTORED, map[], 3, mid) == None;
    assert RedoRun(RESTORED, map[], 2, mid) == None;
    assert RedoRun(RESTORED, map[], 1, BASE) == None;
  }

  lemma {:induction false} FirstUnfinished()
    ensures UndoRun(RESTORED[..2], Losers(RESTORED[..2]), 2, map[]) == Some(BASE)
  {
    var recs := RESTORED[..2];
    forall n | 0 <= n <= 2 ensures LastOf(recs, 0, n) == n - 1 {
      assert n > 0 ==> recs[n - 1].tid == 0;
    }
    assert recs[0].tid in Losers(recs) && recs[1].tid in Losers(recs);
    assert Undone(map[], recs[1].op) == BASE;
    assert UndoRun(recs, Losers(recs), 1, BASE) == UndoRun(recs, Losers(recs), 0, BASE) == Some(BASE);
  }

  // ----- a rollback that leaves the page LSN behind -----

  /** A row is inserted and updated; the rollback takes both back and logs that, but does not raise the page LSN. */
  const ROLLED := [
    LogRecord(0, 0, -1, Begin), LogRecord(1, 0, 0, Insert(CELL, [1])), LogRecord(2, 0, 1, Update(CELL, [1], [2])),
    LogRecord(3, 0, 2, Update(CELL, [2], [1])), LogRecord(4, 0, 3, Delete(CELL, [1])), LogRecord(5, 0, 4, Abort)]

  lemma {:induction false} RolledReplays(n: nat)
    requires n <= 6
    ensures Replay(map[], ROLLED[..n]) ==
            (if n <= 1 || n >= 5 then map[] else if n == 3 then map[CELL := [2]] else map[CELL := [1]])
  {
    hide Replay;
    if n == 0 {
      ReplayNothing(map[]);
      assert ROLLED[..n] == [];
    } else {
      RolledReplays(n - 1);
      assert ROLLED[..n] == ROLLED[..n - 1] + [ROLLED[n - 1]];
      ReplayOne(map[], ROLLED[..n - 1], ROLLED[n - 1]);
    }
  }

  lemma {:induction false} RolledLasts(n: nat)
    requires n <= 6
    ensures LastOf(ROLLED, 0, n) == n - 1
  {
    hide LastOf;
    var i := LastOf(ROLLED, 0, n);
    assert n > 0 ==> ROLLED[n - 1].tid == 0;
  }

  lemma {:induction false} RolledLegal()
    ensures WellFormed(ROLLED) && LegalHistory(map[], ROLLED)
  {
    hide LastOf, Replay;
    forall n | 0 <= n < 6 ensures Chained(ROLLED, n) {
      RolledLasts(n);
    }
    forall n | 0 <= n < 6 && IsWrite(ROLLED[n].op)
      ensures Look(Replay(map[], ROLLED[..n]), ROLLED[n].op.slot) == Before(ROLLED[n].op)
    {
      RolledReplays(n);
    }
  }

  /**
   The page on disk, written after the rollback: the row is gone, the LSN is that of the transaction's last own write.
   Redo updates a row that is not there, and fails.
   */
  lemma {:induction false} RollbackLeavesStaleLsn()
    ensures WellFormed(ROLLED) && LegalHistory(map[], ROLLED) && Replay(map[], ROLLED) == map[]
    ensures RedoRun(ROLLED, map[PageOf(CELL) := 2], 0, map[]) == None
  {
    hide LastOf, Replay, WellFormed, LegalHistory;
    RolledLegal();
    RolledReplays(6);
    assert ROLLED[..6] == ROLLED;
    var lsns := map[PageOf(CELL) := 2];
    assert NeedsRedo(ROLLED, lsns, 3) && !CanRedo(map[], ROLLED[3].op);
    assert RedoRun(ROLLED, lsns, 3, map[]) == None;
    assert RedoRun(ROLLED, lsns, 2, map[]) == None;
    assert RedoRun(ROLLED, lsns, 1, map[]) == None;
  }

  const NEXT := Slot([], 0, 1)

  /** A row is inserted and rolled back; another one is inserted on the same page and committed. */
  const REUSED := [
    LogRecord(0, 0, -1, Begin), LogRecord(1, 0, 0, Insert(CELL, [1])), LogRecord(2, 0, 1, Delete(CELL, [1])),
    LogRecord(3, 0, 2, Abort),
    LogRecord(4, 1, -1, Begin), LogRecord(5, 1, 4, Insert(NEXT, [2])), LogRecord(6, 1, 5, Commit)]

  lemma {:induction false} ReusedLasts(n: nat)
    requires n <= 7
    ensures LastOf(REUSED, 0, n) == (if n <= 4 then n - 1 else 3)
    ensures LastOf(REUSED, 1, n) == (if n <= 4 then -1 else n - 1)
  {
    hide LastOf;
    var i, j := LastOf(REUSED, 0, n), LastOf(REUSED, 1, n);
    assert REUSED[0].tid == REUSED[1].tid == REUSED[2].tid == REUSED[3].tid == 0;
    assert REUSED[4].tid == REUSED[5].tid == REUSED[6].tid == 1;
  }

  lemma {:induction false} ReusedReplays(n: nat)
    requires n <= 7
    ensures Replay(map[], REUSED[..n]) ==
            (if n == 2 then map[CELL := [1]] else if n <= 5 then map[] else map[NEXT := [2]])
  {
    hide Replay;
    if n == 0 {
      ReplayNothing(map[]);
      assert REUSED[..n] == [];
    } else {
      ReusedReplays(n - 1);
      assert REUSED[..n] == REUSED[..n - 1] + [REUSED[n - 1]];
      ReplayOne(map[], REUSED[..n - 1], REUSED[n - 1]);
    }
  }

  /**
   The page on disk, written after the rollback, with the LSN of the insert. Redo deletes a row that is not there and
   keeps the page latched; the next insert waits for it for ever.
   */
  lemma {:induction false} RollbackHangsRedo()
    ensures WellFormed(REUSED) && LegalHistory(map[], REUSED)
    ensures RedoLatched(REUSED, map[PageOf(CELL) := 1], 0, map[], {}).ending == Hung
  {
    hide LastOf, Replay;
    forall n | 0 <= n < 7 ensures Chained(REUSED, n) {
      ReusedLasts(n);
    }
    forall n | 0 <= n < 7 && IsWrite(REUSED[n].op)
      ensures Look(Replay(map[], REUSED[..n]), REUSED[n].op.slot) == Before(REUSED[n].op)
    {
      ReusedReplays(n);
    }
    ReusedHangs();
  }

  lemma {:induction false} ReusedHangs()
    ensures RedoLatched(REUSED, map[PageOf(CELL) := 1], 0, map[], {}).ending == Hung
  {
    var lsns, held := map[PageOf(CELL) := 1], {PageOf(CELL)};
    var none: Records := map[];
    assert NeedsRedo(REUSED, lsns, 5) && RedoStep(none, held, REUSED[5].op).ending == Hung;
    assert RedoLatched(REUSED, lsns, 5, none, held).ending == Hung;
    assert RedoLatched(REUSED, lsns, 4, none, held).ending == Hung;
    assert RedoLatched(REUSED, lsns, 3, none, held).ending == Hung;
    assert NeedsRedo(REUSED, lsns, 2) && RedoStep(none, {}, REUSED[2].op) == Run(Ended, none, {} + held);
    assert {} + held == held;
    assert RedoLatched(REUSED, lsns, 2, none, {}).ending == Hung;
    assert RedoLatched(REUSED, lsns, 1, none, {}).ending == Hung;
  }
}

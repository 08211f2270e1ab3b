/**
 Redo and undo with the latches of the pages: a delete that finds no row keeps its page latched, and the next insert or
 delete on that page waits for ever.
 */
module LogLatches {
  import opened Options
  import opened LogCodec
  import opened LogHistory
  import opened LogRedo
  import opened LogUndo

  datatype Ending = Ended | Failed | Hung

  /** Where a pass over the log has come to. */
  datatype Run = Run(ending: Ending, rows: Records, latched: set<PageId>)

  /** Inserts and deletes latch their page, updates do not. */
  predicate Latches(op: Op) {
    op.Insert? || op.Delete?
  }

  /** Writes a record as redo does: only the error of a delete is swallowed, and leaves the page latched. */
  function RedoStep(db: Records, held: set<PageId>, op: Op): Run
    requires IsWrite(op)
  {
    if Latches(op) && PageOf(op.slot) in held then Run(Hung, db, held)
    else if op.Delete? && op.slot !in db then Run(Ended, db, held + {PageOf(op.slot)})
    else if CanRedo(db, op) then Run(Ended, Apply(db, op), held)
    else Run(Failed, db, held)
  }

  /** Writes the inverse of a record as undo does: no error is swallowed, that of a delete leaves the page latched. */
  function UndoStep(db: Records, held: set<PageId>, op: Op): Run
    requires IsWrite(op)
  {
    if Latches(op) && PageOf(op.slot) in held then Run(Hung, db, held)
    else if CanUndo(db, op) then Run(Ended, Undone(db, op), held)
    else Run(Failed, db, if op.Insert? then held + {PageOf(op.slot)} else held)
  }

  /** Redoing the records from `n` on that their pages have not seen. */
  ghost function RedoLatched(recs: seq<LogRecord>, lsns: map<PageId, int>, n: nat, db: Records, held: set<PageId>): Run
    requires n <= |recs|
    decreases |recs| - n
  {
    if n == |recs| then Run(Ended, db, held)
    else if !NeedsRedo(recs, lsns, n) then RedoLatched(recs, lsns, n + 1, db, held)
    else
      var r := RedoStep(db, held, recs[n].op);
      if r.ending.Ended? then RedoLatched(recs, lsns, n + 1, r.rows, r.latched) else r
  }

  /** Undoing the records of `gone` among the first `n`, latest first. */
  ghost function UndoLatched(recs: seq<LogRecord>, gone: iset<int>, n: nat, db: Records, held: set<PageId>): Run
    requires n <= |recs|
  {
    if n == 0 then Run(Ended, db, held)
    else if recs[n - 1].tid !in gone || !IsWrite(recs[n - 1].op) then UndoLatched(recs, gone, n - 1, db, held)
    else
      var r := UndoStep(db, held, recs[n - 1].op);
      if r.ending.Ended? then UndoLatched(recs, gone, n - 1, r.rows, r.latched) else r
  }

  ghost function RecoverLatched(recs: seq<LogRecord>, lsns: map<PageId, int>, db: Records): Run {
    var r := RedoLatched(recs, lsns, 0, db, {});
    if r.ending.Ended? then UndoLatched(recs, Losers(recs), |recs|, r.rows, r.latched) else r
  }

  /** The same without latches: redo, then undo; none if an error escapes. */
  ghost function RecoverRun(recs: seq<LogRecord>, lsns: map<PageId, int>, db: Records): Option<Records> {
    match RedoRun(recs, lsns, 0, db)
    case Some(x) => UndoRun(recs, Losers(recs), |recs|, x)
    case None => None
  }

  /** Skips the records that need no redo. */
  lemma {:induction false} SkipClean(recs: seq<LogRecord>, lsns: map<PageId, int>, n: nat, db: Records,
                                     held: set<PageId>)
    returns (m: nat)
    requires n <= |recs|
    ensures n <= m <= |recs| && RedoLatched(recs, lsns, m, db, held) == RedoLatched(recs, lsns, n, db, held)
    ensures Dirty(recs, lsns, m) == Dirty(recs, lsns, n) && (m == |recs| || NeedsRedo(recs, lsns, m))
    decreases |recs| - n
  {
    if n < |recs| && !NeedsRedo(recs, lsns, n) {
      m := SkipClean(recs, lsns, n + 1, db, held);
    } else {
      m := n;
    }
  }

  /** Skips the records of finished transactions. */
  lemma {:induction false} SkipFinished(recs: seq<LogRecord>, m: nat, n: nat, db: Records, held: set<PageId>)
    requires m <= n <= |recs| && forall i :: m <= i < n ==> !Loser(recs, i)
    ensures UndoLatched(recs, Losers(recs), n, db, held) == UndoLatched(recs, Losers(recs), m, db, held)
    ensures LosersDown(recs, n) == LosersDown(recs, m)
    decreases n
  {
    hide Active;
    if m < n {
      assert !Loser(recs, n - 1);
      SkipFinished(recs, m, n - 1, db, held);
    }
  }

  // ----- exactly when -----

  /** Record `i` is a delete that is redone and finds no row. */
  ghost predicate EmptyDelete(recs: seq<LogRecord>, lsns: map<PageId, int>, db: Records, i: nat)
    requires i < |recs|
  {
    && NeedsRedo(recs, lsns, i) && recs[i].op.Delete?
    && Found(recs, lsns, i, recs[i].op.slot, Look(db, recs[i].op.slot)).None?
  }

  /** Some such delete among the first `n` records was on this page. */
  ghost predicate Stays(recs: seq<LogRecord>, lsns: map<PageId, int>, db: Records, n: nat, p: PageId)
    requires n <= |recs|
  {
    exists i :: 0 <= i < n && EmptyDelete(recs, lsns, db, i) && PageOf(recs[i].op.slot) == p
  }

  /** From record `n` on, no insert or delete is redone on a page that such a delete has left latched. */
  ghost predicate RedoFree(recs: seq<LogRecord>, lsns: map<PageId, int>, db: Records, n: nat)
    requires n <= |recs|
  {
    forall j :: n <= j < |recs| && NeedsRedo(recs, lsns, j) && Latches(recs[j].op) ==>
      !Stays(recs, lsns, db, j, PageOf(recs[j].op.slot))
  }

  /** None of `gone` is undone on such a page. */
  ghost predicate UndoFree(recs: seq<LogRecord>, gone: iset<int>, n: nat, held: set<PageId>)
    requires n <= |recs|
  {
    forall j :: 0 <= j < n && recs[j].tid in gone && Latches(recs[j].op) ==> PageOf(recs[j].op.slot) !in held
  }

  /**
   No redone delete that finds no row is followed, in redo or undo, by another insert or delete on its page.
   */
  ghost predicate Unstuck(recs: seq<LogRecord>, lsns: map<PageId, int>, db: Records) {
    && RedoFree(recs, lsns, db, 0)
    && forall j :: 0 <= j < |recs| && recs[j].tid in Losers(recs) && Latches(recs[j].op) ==>
         !Stays(recs, lsns, db, |recs|, PageOf(recs[j].op.slot))
  }

  ghost predicate HeldIs(recs: seq<LogRecord>, lsns: map<PageId, int>, db: Records, n: nat, held: set<PageId>)
    requires n <= |recs|
  {
    forall p :: p in held <==> Stays(recs, lsns, db, n, p)
  }

  /** The rows redo has made of `db` when it comes to record `n`. */
  ghost predicate RowsAt(recs: seq<LogRecord>, lsns: map<PageId, int>, db: Records, n: nat, now: Records)
    requires n <= |recs|
  {
    forall s :: Look(now, s) == Found(recs, lsns, n, s, Look(db, s))
  }

  lemma {:induction false} StaysOne(recs: seq<LogRecord>, lsns: map<PageId, int>, db: Records, n: nat, p: PageId)
    requires n < |recs|
    ensures Stays(recs, lsns, db, n + 1, p) <==>
            Stays(recs, lsns, db, n, p) || (EmptyDelete(recs, lsns, db, n) && PageOf(recs[n].op.slot) == p)
  {
    hide EmptyDelete;
  }

  lemma {:induction false} FreeOne(recs: seq<LogRecord>, lsns: map<PageId, int>, db: Records, n: nat)
    requires n < |recs|
    ensures RedoFree(recs, lsns, db, n) <==>
            RedoFree(recs, lsns, db, n + 1) &&
            (NeedsRedo(recs, lsns, n) && Latches(recs[n].op) ==> !Stays(recs, lsns, db, n, PageOf(recs[n].op.slot)))
  {
    hide Stays, NeedsRedo;
  }

  lemma {:induction false} RowsNext(recs: seq<LogRecord>, lsns: map<PageId, int>, db: Records, n: nat, now: Records)
    requires n < |recs| && RowsAt(recs, lsns, db, n, now)
    ensures !NeedsRedo(recs, lsns, n) ==> RowsAt(recs, lsns, db, n + 1, now)
    ensures NeedsRedo(recs, lsns, n) ==> RowsAt(recs, lsns, db, n + 1, Apply(now, recs[n].op))
  {
    forall s
      ensures !NeedsRedo(recs, lsns, n) ==> Look(now, s) == Found(recs, lsns, n + 1, s, Look(db, s))
      ensures NeedsRedo(recs, lsns, n) ==> Look(Apply(now, recs[n].op), s) == Found(recs, lsns, n + 1, s, Look(db, s))
    {
      if NeedsRedo(recs, lsns, n) {
        LookPut(now, recs[n].op.slot, After(recs[n].op), s);
      }
    }
  }

  lemma {:induction false} HeldNext(recs: seq<LogRecord>, lsns: map<PageId, int>, db: Records, n: nat,
                                    held: set<PageId>)
    requires n < |recs| && HeldIs(recs, lsns, db, n, held)
    ensures EmptyDelete(recs, lsns, db, n) ==> HeldIs(recs, lsns, db, n + 1, held + {PageOf(recs[n].op.slot)})
    ensures !EmptyDelete(recs, lsns, db, n) ==> HeldIs(recs, lsns, db, n + 1, held)
  {
    hide NeedsRedo, Found, Stays;
    forall p
      ensures Stays(recs, lsns, db, n + 1, p) <==>
              Stays(recs, lsns, db, n, p) || (EmptyDelete(recs, lsns, db, n) && PageOf(recs[n].op.slot) == p)
    {
      StaysOne(recs, lsns, db, n, p);
    }
  }

  /** Whether record `n` finds its slot empty. */
  lemma {:induction false} EmptyHere(recs: seq<LogRecord>, lsns: map<PageId, int>, db: Records, n: nat, now: Records)
    requires n < |recs| && RowsAt(recs, lsns, db, n, now) && NeedsRedo(recs, lsns, n)
    ensures EmptyDelete(recs, lsns, db, n) <==> recs[n].op.Delete? && recs[n].op.slot !in now
    ensures EmptyDelete(recs, lsns, db, n) ==> Apply(now, recs[n].op) == now
  {
    hide Found;
    var s := recs[n].op.slot;
    assert Look(now, s) == Found(recs, lsns, n, s, Look(db, s));
  }

  lemma {:induction false} RedoLatchedFrom(recs: seq<LogRecord>, lsns: map<PageId, int>, n: nat, db: Records,
                                           now: Records, held: set<PageId>)
    requires n <= |recs| && RowsAt(recs, lsns, db, n, now) && HeldIs(recs, lsns, db, n, held)
    ensures var r := RedoLatched(recs, lsns, n, now, held);
            && (r.ending.Ended? <==> RedoRun(recs, lsns, n, now).Some? && RedoFree(recs, lsns, db, n))
            && (r.ending.Ended? ==>
                  RedoRun(recs, lsns, n, now) == Some(r.rows) && HeldIs(recs, lsns, db, |recs|, r.latched))
    decreases |recs| - n
  {
    hide RowsAt, HeldIs, RedoFree, EmptyDelete, NeedsRedo, Apply, Stays;
    if n < |recs| {
      FreeOne(recs, lsns, db, n);
      RowsNext(recs, lsns, db, n, now);
      HeldNext(recs, lsns, db, n, held);
      if !NeedsRedo(recs, lsns, n) {
        NotEmpty(recs, lsns, db, n);
        RedoLatchedFrom(recs, lsns, n + 1, db, now, held);
      } else {
        var op := recs[n].op;
        EmptyHere(recs, lsns, db, n, now);
        InHeld(recs, lsns, db, n, held);
        RedoLatchedFrom(recs, lsns, n + 1, db, Apply(now, op), NowHeld(recs, lsns, db, n, held));
      }
    } else {
      FreeAtEnd(recs, lsns, db);
    }
  }

  ghost function NowHeld(recs: seq<LogRecord>, lsns: map<PageId, int>, db: Records, n: nat,
                         held: set<PageId>): set<PageId>
    requires n < |recs|
  {
    if EmptyDelete(recs, lsns, db, n) then held + {PageOf(recs[n].op.slot)} else held
  }

  lemma {:induction false} NotEmpty(recs: seq<LogRecord>, lsns: map<PageId, int>, db: Records, n: nat)
    requires n < |recs|
    ensures EmptyDelete(recs, lsns, db, n) ==> NeedsRedo(recs, lsns, n)
  {
  }

  lemma {:induction false} InHeld(recs: seq<LogRecord>, lsns: map<PageId, int>, db: Records, n: nat, held: set<PageId>)
    requires n < |recs| && NeedsRedo(recs, lsns, n) && HeldIs(recs, lsns, db, n, held)
    ensures IsWrite(recs[n].op)
    ensures PageOf(recs[n].op.slot) in held <==> Stays(recs, lsns, db, n, PageOf(recs[n].op.slot))
  {
    hide Stays;
  }

  lemma {:induction false} FreeAtEnd(recs: seq<LogRecord>, lsns: map<PageId, int>, db: Records)
    ensures RedoFree(recs, lsns, db, |recs|)
  {
  }

  lemma {:induction false} AtStart(recs: seq<LogRecord>, lsns: map<PageId, int>, db: Records)
    ensures RowsAt(recs, lsns, db, 0, db) && HeldIs(recs, lsns, db, 0, {})
  {
  }

  /**
   Redo comes to its end if and only if it would without latches, and no redone delete that finds no row is followed by
   another redone insert or delete on its page. The pages of such deletes stay latched.
   */
  lemma {:induction false} RedoLatchedIs(recs: seq<LogRecord>, lsns: map<PageId, int>, db: Records)
    ensures var r := RedoLatched(recs, lsns, 0, db, {});
            && (r.ending.Ended? <==> RedoRun(recs, lsns, 0, db).Some? && RedoFree(recs, lsns, db, 0))
            && (r.ending.Ended? ==> RedoRun(recs, lsns, 0, db) == Some(r.rows))
            && (r.ending.Ended? ==> forall p :: p in r.latched <==> Stays(recs, lsns, db, |recs|, p))
  {
    hide RedoLatched, RedoRun, RedoFree, Stays, RowsAt;
    AtStart(recs, lsns, db);
    RedoLatchedFrom(recs, lsns, 0, db, db, {});
  }

  lemma {:induction false} UndoLatchedIs(recs: seq<LogRecord>, gone: iset<int>, n: nat, db: Records, held: set<PageId>)
    requires n <= |recs|
    ensures var r := UndoLatched(recs, gone, n, db, held);
            && (r.ending.Ended? <==> UndoRun(recs, gone, n, db).Some? && UndoFree(recs, gone, n, held))
            && (r.ending.Ended? ==> UndoRun(recs, gone, n, db) == Some(r.rows) && r.latched == held)
  {
    hide Put;
    if n > 0 {
      UndoLatchedIs(recs, gone, n - 1, db, held);
      if IsWrite(recs[n - 1].op) {
        UndoLatchedIs(recs, gone, n - 1, Undone(db, recs[n - 1].op), held);
      }
    }
  }

  /**
   Recovery comes to its end with the rows `goal` if and only if it would without latches, and no redone delete that
   finds no row is followed by another insert or delete on its page. A page stays latched if and only if there was such
   a delete on it.
   */
  lemma {:induction false} RecoverLatchedIs(recs: seq<LogRecord>, lsns: map<PageId, int>, db: Records, goal: Records)
    ensures var r := RecoverLatched(recs, lsns, db);
            && (r.ending.Ended? && r.rows == goal <==>
                RecoverRun(recs, lsns, db) == Some(goal) && Unstuck(recs, lsns, db))
            && (r.ending.Ended? ==> forall p :: p in r.latched <==> Stays(recs, lsns, db, |recs|, p))
  {
    hide RedoLatched, UndoLatched, RedoRun, UndoRun, RedoFree, Stays, Losers;
    RedoLatchedIs(recs, lsns, db);
    var r := RedoLatched(recs, lsns, 0, db, {});
    if r.ending.Ended? {
      UndoLatchedIs(recs, Losers(recs), |recs|, r.rows, r.latched);
    }
  }

  // ----- when there are no such deletes -----

  /**
   In a legal history, a redone delete finds no row if and only if it is the first above its page and the page has
   none.
   */
  lemma {:induction false} EmptyFirst(base: Records, recs: seq<LogRecord>, lsns: map<PageId, int>, db: Records, i: nat)
    requires LegalHistory(base, recs) && Increasing(recs) && i < |recs| && recs[i].op.Delete?
    ensures EmptyDelete(recs, lsns, db, i) <==>
            i == FirstAbove(recs, lsns, 0, recs[i].op.slot) && recs[i].op.slot !in db
  {
    hide Replay, FirstAbove, LastRedone, LegalHistory, Increasing, NeedsRedo;
    var s := recs[i].op.slot;
    var f, p := FirstAbove(recs, lsns, 0, s), LastRedone(recs, lsns, i, s);
    assert RedoesAt(recs, lsns, i, s) == NeedsRedo(recs, lsns, i);
    if p >= 0 {
      RedoneBefore(base, recs, lsns, p, i, s);
      assert f <= p;
    } else {
      assert f >= i;
    }
  }

  /** The redone write before a redone delete leaves a row. */
  lemma {:induction false} RedoneBefore(base: Records, recs: seq<LogRecord>, lsns: map<PageId, int>, p: nat, i: nat,
                                        s: Slot)
    requires LegalHistory(base, recs) && Increasing(recs) && p < i < |recs| && recs[i].op.Delete? &&
             recs[i].op.slot == s
    requires p == LastRedone(recs, lsns, i, s)
    ensures After(recs[p].op).Some?
  {
    hide Replay, LastRedone, LastWrite, RedoesAt, Increasing;
    NeedsWrite(recs, lsns, p, s);
    var pre := recs[..i];
    LookLast(base, pre, s);
    var q := LastWrite(pre, s);
    assert pre[p] == recs[p] && q >= p && pre[q] == recs[q];
    if q > p {
      AboveStays(recs, lsns, p, q, s);
    }
  }

  /** Pages that hold their history up to their LSN never get stuck. */
  lemma {:induction false} PagesAtLsnUnstuck(base: Records, recs: seq<LogRecord>, lsns: map<PageId, int>, db: Records)
    requires LegalHistory(base, recs) && Increasing(recs) && PagesAtLsn(base, recs, lsns, db)
    ensures Unstuck(recs, lsns, db) && forall i :: 0 <= i < |recs| ==> !EmptyDelete(recs, lsns, db, i)
  {
    hide AtLsn, LegalHistory, Increasing, FirstAbove, EmptyDelete;
    forall i | 0 <= i < |recs| ensures !EmptyDelete(recs, lsns, db, i) {
      if recs[i].op.Delete? {
        EmptyFirst(base, recs, lsns, db, i);
        AtLsnFinds(base, recs, lsns, db, i);
      } else {
        OnlyDeletes(recs, lsns, db, i);
      }
    }
  }

  lemma {:induction false} OnlyDeletes(recs: seq<LogRecord>, lsns: map<PageId, int>, db: Records, i: nat)
    requires i < |recs|
    ensures EmptyDelete(recs, lsns, db, i) ==> recs[i].op.Delete?
  {
  }

  lemma {:induction false} AtLsnFinds(base: Records, recs: seq<LogRecord>, lsns: map<PageId, int>, db: Records, i: nat)
    requires LegalHistory(base, recs) && Increasing(recs) && PagesAtLsn(base, recs, lsns, db)
    requires i < |recs| && recs[i].op.Delete?
    ensures i == FirstAbove(recs, lsns, 0, recs[i].op.slot) ==> recs[i].op.slot in db
  {
    hide Replay, FirstAbove, Seen, Increasing;
    var s := recs[i].op.slot;
    if i == FirstAbove(recs, lsns, 0, s) {
      assert AtLsn(base, recs, lsns, db, s);
      InStepBelow(base, recs, lsns, s, i);
    }
  }
}

/**
 Pages written out after a rollback: their LSN is behind their rows. Exactly when redo copes with that.
 */
module StalePages {
  import opened Options
  import opened LogCodec
  import opened LogHistory
  import opened LogRedo
  import opened LogLatches
  import opened LogIsolation
  import opened Rollback

  ghost predicate OnPage(op: Op, p: PageId) {
    IsWrite(op) && PageOf(op.slot) == p
  }

  /** The page has seen every write of it. */
  ghost predicate Clean(recs: seq<LogRecord>, lsns: map<PageId, int>, p: PageId) {
    forall i :: 0 <= i < |recs| && OnPage(recs[i].op, p) ==> recs[i].lsn <= LsnOf(lsns, p)
  }

  /** Of the first `k1` records, the writes of the page above its LSN are those of `t` from `k0` on. */
  ghost predicate Stale(recs: seq<LogRecord>, t: int, k0: nat, k1: nat, lsns: map<PageId, int>, p: PageId) {
    forall i :: 0 <= i < |recs| && OnPage(recs[i].op, p) ==>
      (LsnOf(lsns, p) < recs[i].lsn <==> k1 <= i || (k0 <= i && recs[i].tid == t))
  }

  /** A rollback logs its inverse writes and leaves the page LSNs alone. */
  lemma {:induction false} RollbackMakesStale(recs: seq<LogRecord>, k0: nat, lsns: map<PageId, int>, t: int, p: PageId)
    requires k0 <= |recs| && Clean(recs[..k0], lsns, p) && forall i :: k0 <= i < |recs| ==>
               recs[i].tid == t && LsnOf(lsns, p) < recs[i].lsn
    ensures Stale(recs, t, k0, |recs|, lsns, p)
  {
    forall i | 0 <= i < |recs| && OnPage(recs[i].op, p)
      ensures LsnOf(lsns, p) < recs[i].lsn <==> |recs| <= i || (k0 <= i && recs[i].tid == t)
    {
      assert i < k0 ==> recs[..k0][i] == recs[i];
    }
  }

  /** The last write of a slot, if any. */
  function LastOp(ops: seq<Op>, s: Slot): (r: Option<Op>)
    ensures r.Some? ==> Writes(r.value, s)
  {
    if ops == [] then None
    else
      var n := |ops| - 1;
      if Writes(ops[n], s) then Some(ops[n]) else LastOp(ops[..n], s)
  }

  /** `t` has written `ops` before record `k0`, and until record `k1` taken them all back, the last first. */
  ghost predicate RolledBack(recs: seq<LogRecord>, t: int, k0: nat, k1: nat, ops: seq<Op>) {
    && k0 <= k1 <= |recs| && (forall i :: 0 <= i < |ops| ==> IsWrite(ops[i]))
    && OpsOf(recs[..k0], t) == ops && OpsOf(recs[..k1], t) == ops + Reversed(ops, 0)
  }

  /** The row was there before the transaction, or the transaction did not update it last. */
  ghost predicate Recoverable(ops: seq<Op>, s: Slot) {
    LastOp(ops, s).Some? && LastOp(ops, s).value.Update? ==> FirstBefore(ops, s) != Some(None)
  }

  // ----- the first inverse write of a slot -----

  /** The first inverse write of `s` takes back the last write of `s`. */
  lemma {:induction false} FirstInverse(ops: seq<Op>, k: nat, s: Slot)
    requires k <= |ops| && forall i :: 0 <= i < |ops| ==> IsWrite(ops[i])
    ensures var first, last := FirstOp(Reversed(ops, k), s), LastOp(ops[k..], s);
            && (first.Some? <==> last.Some?)
            && (first.Some? ==> (first.value.Update? <==> last.value.Update?))
            && (first.Some? ==> (first.value.Delete? <==> last.value.Insert?))
    decreases |ops| - k
  {
    hide LastOp, FirstOp;
    if k == |ops| {
      assert ops[k..] == [];
      NothingLast(s);
    } else {
      FirstInverse(ops, k + 1, s);
      assert ops[k..] == [ops[k]] + ops[k + 1..];
      LastOpCons(ops[k], ops[k + 1..], s);
      FirstOpOne(Reversed(ops, k + 1), Inverse(ops[k]), s);
      InverseUndoes(ops[k]);
    }
  }

  function FirstOp(ops: seq<Op>, s: Slot): (r: Option<Op>)
    ensures r.Some? ==> Writes(r.value, s)
  {
    if ops == [] then None
    else
      var n := |ops| - 1;
      var r := FirstOp(ops[..n], s);
      if r.Some? then r else if Writes(ops[n], s) then Some(ops[n]) else None
  }

  lemma {:induction false} NothingLast(s: Slot)
    ensures LastOp([], s) == None && FirstOp([], s) == None
  {
  }

  lemma {:induction false} FirstOpOne(ops: seq<Op>, op: Op, s: Slot)
    ensures FirstOp(ops + [op], s) ==
            if FirstOp(ops, s).Some? then FirstOp(ops, s) else if Writes(op, s) then Some(op) else None
  {
    assert (ops + [op])[..|ops|] == ops;
  }

  lemma {:induction false} LastOpOne(ops: seq<Op>, op: Op, s: Slot)
    ensures LastOp(ops + [op], s) == if Writes(op, s) then Some(op) else LastOp(ops, s)
  {
    assert (ops + [op])[..|ops|] == ops;
  }

  lemma {:induction false} LastOpCons(op: Op, rest: seq<Op>, s: Slot)
    ensures LastOp([op] + rest, s) ==
            if LastOp(rest, s).Some? then LastOp(rest, s) else if Writes(op, s) then Some(op) else None
    decreases |rest|
  {
    hide LastOp;
    if rest == [] {
      assert [op] + rest == [] + [op];
      LastOpOne([], op, s);
      NothingLast(s);
    } else {
      var n := |rest| - 1;
      assert [op] + rest == ([op] + rest[..n]) + [rest[n]];
      assert rest == rest[..n] + [rest[n]];
      LastOpCons(op, rest[..n], s);
      LastOpOne([op] + rest[..n], rest[n], s);
      LastOpOne(rest[..n], rest[n], s);
    }
  }

  lemma {:induction false} LastIsWritten(ops: seq<Op>, s: Slot)
    ensures LastOp(ops, s).Some? <==> FirstBefore(ops, s).Some?
  {
    if ops != [] {
      LastIsWritten(ops[..|ops| - 1], s);
    }
  }

  // ----- and where it is in the log -----

  ghost predicate WrittenBy(r: LogRecord, t: int, s: Slot) {
    r.tid == t && Writes(r.op, s)
  }

  lemma {:induction false} NotWritten(recs: seq<LogRecord>, t: int, s: Slot)
    requires forall x :: 0 <= x < |recs| ==> !WrittenBy(recs[x], t, s)
    ensures FirstOp(OpsOf(recs, t), s) == None
  {
    hide FirstOp;
    if recs == [] {
      NothingLast(s);
    } else {
      var n := |recs| - 1;
      assert recs == recs[..n] + [recs[n]];
      OpsOfOne(recs[..n], recs[n], t);
      NotWritten(recs[..n], t, s);
      assert !WrittenBy(recs[n], t, s);
      FirstOpOne(OpsOf(recs[..n], t), recs[n].op, s);
    }
  }

  lemma {:induction false} FirstWritten(recs: seq<LogRecord>, t: int, s: Slot, i: nat)
    requires i < |recs| && WrittenBy(recs[i], t, s) && forall x :: 0 <= x < i ==> !WrittenBy(recs[x], t, s)
    ensures FirstOp(OpsOf(recs, t), s) == Some(recs[i].op)
  {
    hide FirstOp;
    var n := |recs| - 1;
    assert recs == recs[..n] + [recs[n]];
    OpsOfOne(recs[..n], recs[n], t);
    if i < n {
      FirstWritten(recs[..n], t, s, i);
    } else {
      NotWritten(recs[..n], t, s);
    }
    FirstOpOne(OpsOf(recs[..n], t), recs[n].op, s);
  }

  lemma {:induction false} OpsOfJoin(a: seq<LogRecord>, b: seq<LogRecord>, t: int)
    ensures OpsOf(a + b, t) == OpsOf(a, t) + OpsOf(b, t)
    decreases |b|
  {
    if b == [] {
      assert a + b == a;
    } else {
      var n := |b| - 1;
      assert a + b == (a + b[..n]) + [b[n]];
      OpsOfJoin(a, b[..n], t);
      OpsOfOne(a + b[..n], b[n], t);
    }
  }

  /** The inverse writes are what `t` logs between `k0` and `k1`. */
  lemma {:induction false} InversesLogged(recs: seq<LogRecord>, t: int, k0: nat, k1: nat, ops: seq<Op>)
    requires RolledBack(recs, t, k0, k1, ops)
    ensures OpsOf(recs[k0..k1], t) == Reversed(ops, 0)
  {
    hide OpsOf, Reversed;
    assert recs[..k1] == recs[..k0] + recs[k0..k1];
    OpsOfJoin(recs[..k0], recs[k0..k1], t);
    var a, b := OpsOf(recs[k0..k1], t), Reversed(ops, 0);
    assert (ops + a)[|ops|..] == a && (ops + b)[|ops|..] == b;
  }

  // ----- exactly when -----

  lemma {:induction false} AboveStale(recs: seq<LogRecord>, t: int, k0: nat, k1: nat, lsns: map<PageId, int>, s: Slot,
                                      i: nat)
    requires Stale(recs, t, k0, k1, lsns, PageOf(s)) && i < |recs|
    ensures RedoesAt(recs, lsns, i, s) <==> Writes(recs[i].op, s) && (k1 <= i || (k0 <= i && recs[i].tid == t))
  {
    if Writes(recs[i].op, s) {
      assert OnPage(recs[i].op, PageOf(s));
    }
  }

  /** A slot the transaction wrote: redo starts with the first inverse write, on the row as it is after all of them. */
  lemma {:induction false} WrittenSlot(base: Records, recs: seq<LogRecord>, t: int, k0: nat, k1: nat, ops: seq<Op>,
                                       lsns: map<PageId, int>, s: Slot)
    requires Increasing(recs) && RolledBack(recs, t, k0, k1, ops) && Stale(recs, t, k0, k1, lsns, PageOf(s)) &&
             LastOp(ops, s).Some?
    ensures var i := FirstAbove(recs, lsns, 0, s);
            && k0 <= i < k1 && (recs[i].op.Update? <==> LastOp(ops, s).value.Update?)
            && (recs[i].op.Delete? <==> LastOp(ops, s).value.Insert?)
            && FirstBefore(ops, s) == Some(Look(Replay(base, recs[..k1]), s))
  {
    hide OpsOf, Reversed, FirstOp, LastOp, FirstAbove, RedoesAt, Replay, FirstBefore, Increasing, Stale;
    var i := FirstAbove(recs, lsns, 0, s);
    FirstInverse(ops, 0, s);
    assert ops[0..] == ops;
    InversesLogged(recs, t, k0, k1, ops);
    FirstIsInverse(recs, t, k0, k1, lsns, s, i);
    LastIsInverse(base, recs, t, k0, k1, ops, lsns, s, i);
  }

  lemma {:induction false} FirstIsInverse(recs: seq<LogRecord>, t: int, k0: nat, k1: nat, lsns: map<PageId, int>,
                                          s: Slot, i: nat)
    requires k0 <= k1 <= |recs| && Stale(recs, t, k0, k1, lsns, PageOf(s)) && i == FirstAbove(recs, lsns, 0, s)
    requires FirstOp(OpsOf(recs[k0..k1], t), s).Some?
    ensures k0 <= i < k1 && WrittenBy(recs[i], t, s) && FirstOp(OpsOf(recs[k0..k1], t), s) == Some(recs[i].op)
  {
    hide OpsOf, FirstOp, FirstAbove, RedoesAt, Stale;
    var mid := recs[k0..k1];
    if forall x :: 0 <= x < |mid| ==> !WrittenBy(mid[x], t, s) {
      NotWritten(mid, t, s);
    } else {
      var x :| 0 <= x < |mid| && WrittenBy(mid[x], t, s);
      AboveStale(recs, t, k0, k1, lsns, s, k0 + x);
      AboveStale(recs, t, k0, k1, lsns, s, i);
      forall y | 0 <= y < i - k0 ensures !WrittenBy(mid[y], t, s) {
        AboveStale(recs, t, k0, k1, lsns, s, k0 + y);
      }
      FirstWritten(mid, t, s, i - k0);
    }
  }

  lemma {:induction false} LastIsInverse(base: Records, recs: seq<LogRecord>, t: int, k0: nat, k1: nat, ops: seq<Op>,
                                         lsns: map<PageId, int>, s: Slot, i: nat)
    requires Increasing(recs) && RolledBack(recs, t, k0, k1, ops) && Stale(recs, t, k0, k1, lsns, PageOf(s))
    requires k0 <= i < k1 && WrittenBy(recs[i], t, s) && RedoesAt(recs, lsns, i, s) && LastOp(ops, s).Some?
    ensures FirstBefore(ops, s) == Some(Look(Replay(base, recs[..k1]), s))
  {
    hide OpsOf, Reversed, LastOp, LastAfter, RedoesAt, Replay, FirstBefore, LastWrite, Stale;
    var pre := recs[..k1];
    var p := LastWrite(pre, s);
    assert pre[i] == recs[i] && p >= i && pre[p] == recs[p];
    if p > i {
      AboveStays(recs, lsns, i, p, s);
      AboveStale(recs, t, k0, k1, lsns, s, p);
    }
    LastWriteOps(base, pre, s);
    ReversedLast(ops, 0, s);
    LastIsWritten(ops, s);
    assert ops[0..] == ops;
  }

  /** A slot the transaction did not write is in step with history. */
  lemma {:induction false} UnwrittenBelow(base: Records, recs: seq<LogRecord>, t: int, k0: nat, k1: nat, ops: seq<Op>,
                                          lsns: map<PageId, int>, s: Slot, i: nat)
    requires RolledBack(recs, t, k0, k1, ops) && Stale(recs, t, k0, k1, lsns, PageOf(s)) && LastOp(ops, s).None?
    requires i == FirstAbove(recs, lsns, 0, s)
    ensures Look(Replay(base, recs[..i]), s) == Look(Replay(base, recs[..k1]), s)
  {
    hide OpsOf, Reversed, FirstOp, LastOp, FirstAbove, RedoesAt, Replay, Stale;
    FirstInverse(ops, 0, s);
    assert ops[0..] == ops;
    InversesLogged(recs, t, k0, k1, ops);
    AboveEnd(recs, t, k0, k1, lsns, s, i);
    var w := recs[k1..i];
    forall x | 0 <= x < |w| ensures !Writes(w[x].op, s) {
      AboveStale(recs, t, k0, k1, lsns, s, k1 + x);
    }
    UntouchedLook(base, recs[..k1], w, s);
    assert recs[..k1] + w == recs[..i];
  }

  lemma {:induction false} OtherSlot(base: Records, recs: seq<LogRecord>, t: int, k0: nat, k1: nat, ops: seq<Op>,
                                     lsns: map<PageId, int>, db: Records, s: Slot)
    requires LegalHistory(base, recs) && Increasing(recs) && RolledBack(recs, t, k0, k1, ops) &&
             Stale(recs, t, k0, k1, lsns, PageOf(s))
    requires LastOp(ops, s).None? && Look(db, s) == Look(Replay(base, recs[..k1]), s)
    ensures HoldsEnough(base, recs, lsns, db, s)
  {
    hide OpsOf, Reversed, LastOp, FirstAbove, RedoesAt, Replay, Seen, Stale, Increasing;
    var i := FirstAbove(recs, lsns, 0, s);
    UnwrittenBelow(base, recs, t, k0, k1, ops, lsns, s, i);
    if i == |recs| {
      NoneAbove(base, recs, lsns, s);
      assert recs[..i] == recs;
    } else {
      AboveStale(recs, t, k0, k1, lsns, s, i);
    }
  }

  lemma {:induction false} AboveEnd(recs: seq<LogRecord>, t: int, k0: nat, k1: nat, lsns: map<PageId, int>, s: Slot,
                                    i: nat)
    requires k0 <= k1 <= |recs| && Stale(recs, t, k0, k1, lsns, PageOf(s)) && i == FirstAbove(recs, lsns, 0, s)
    requires FirstOp(OpsOf(recs[k0..k1], t), s).None?
    ensures k1 <= i
  {
    hide OpsOf, FirstOp, FirstAbove, RedoesAt, Stale;
    var mid := recs[k0..k1];
    if i < k1 {
      AboveStale(recs, t, k0, k1, lsns, s, i);
      assert WrittenBy(mid[i - k0], t, s);
      var f := FirstBy(mid, t, s, i - k0);
      FirstWritten(mid, t, s, f);
    }
  }

  lemma {:induction false} FirstBy(recs: seq<LogRecord>, t: int, s: Slot, i: nat) returns (f: nat)
    requires i < |recs| && WrittenBy(recs[i], t, s)
    ensures f <= i && WrittenBy(recs[f], t, s) && forall x :: 0 <= x < f ==> !WrittenBy(recs[x], t, s)
  {
    if x :| 0 <= x < i && WrittenBy(recs[x], t, s) {
      f := FirstBy(recs, t, s, x);
    } else {
      f := i;
    }
  }

  lemma {:induction false} StaleSlot(base: Records, recs: seq<LogRecord>, t: int, k0: nat, k1: nat, ops: seq<Op>,
                                     lsns: map<PageId, int>, db: Records, s: Slot)
    requires LegalHistory(base, recs) && Increasing(recs) && RolledBack(recs, t, k0, k1, ops) &&
             Stale(recs, t, k0, k1, lsns, PageOf(s))
    requires Look(db, s) == Look(Replay(base, recs[..k1]), s)
    ensures HoldsEnough(base, recs, lsns, db, s) <==> Recoverable(ops, s)
  {
    hide OpsOf, Reversed, Stale, Replay, LegalHistory, Increasing, LastOp, FirstBefore, FirstAbove, Seen;
    if LastOp(ops, s).Some? {
      WrittenSlot(base, recs, t, k0, k1, ops, lsns, s);
    } else {
      OtherSlot(base, recs, t, k0, k1, ops, lsns, db, s);
    }
  }

  /** The pages of `written` went to disk after the rollback, all others hold their history up to their LSN. */
  ghost predicate WrittenAfter(base: Records, recs: seq<LogRecord>, t: int, k0: nat, k1: nat, lsns: map<PageId, int>,
                               db: Records, written: iset<PageId>)
    requires k1 <= |recs|
  {
    && (forall p :: p in written ==> Stale(recs, t, k0, k1, lsns, p))
    && (forall s :: PageOf(s) in written ==> Look(db, s) == Look(Replay(base, recs[..k1]), s))
    && (forall s :: PageOf(s) !in written ==> AtLsn(base, recs, lsns, db, s))
  }

  /** The slot was empty before the transaction, which inserted a row as its last write of it. */
  ghost predicate Retracted(ops: seq<Op>, s: Slot) {
    LastOp(ops, s).Some? && LastOp(ops, s).value.Insert? && FirstBefore(ops, s) == Some(None)
  }

  /** Redo takes such an insert back once more: that delete finds no row, and no other does. */
  lemma {:induction false} RollbackEmpties(base: Records, recs: seq<LogRecord>, t: int, k0: nat, k1: nat, ops: seq<Op>,
                                           lsns: map<PageId, int>, db: Records, written: iset<PageId>, i: nat)
    requires LegalHistory(base, recs) && Increasing(recs) && RolledBack(recs, t, k0, k1, ops)
    requires WrittenAfter(base, recs, t, k0, k1, lsns, db, written) && i < |recs| && recs[i].op.Delete?
    ensures var s := recs[i].op.slot;
            EmptyDelete(recs, lsns, db, i) <==>
            PageOf(s) in written && i == FirstAbove(recs, lsns, 0, s) && Retracted(ops, s)
  {
    hide OpsOf, Reversed, Stale, Replay, LegalHistory, Increasing, LastOp, FirstBefore, FirstAbove, Seen, EmptyDelete,
         AtLsn;
    var s := recs[i].op.slot;
    EmptyFirst(base, recs, lsns, db, i);
    if i == FirstAbove(recs, lsns, 0, s) {
      if PageOf(s) !in written {
        DeleteFinds(base, recs, lsns, db, s, i);
      } else if LastOp(ops, s).Some? {
        WrittenSlot(base, recs, t, k0, k1, ops, lsns, s);
      } else {
        OtherFinds(base, recs, t, k0, k1, ops, lsns, db, s, i);
      }
    }
  }

  lemma {:induction false} DeleteFinds(base: Records, recs: seq<LogRecord>, lsns: map<PageId, int>, db: Records,
                                       s: Slot, i: nat)
    requires LegalHistory(base, recs) && Increasing(recs) && AtLsn(base, recs, lsns, db, s)
    requires i == FirstAbove(recs, lsns, 0, s) && i < |recs| && recs[i].op.Delete? && recs[i].op.slot == s
    ensures s in db
  {
    hide Replay, FirstAbove, Seen, Increasing;
    InStepBelow(base, recs, lsns, s, i);
  }

  lemma {:induction false} OtherFinds(base: Records, recs: seq<LogRecord>, t: int, k0: nat, k1: nat, ops: seq<Op>,
                                      lsns: map<PageId, int>, db: Records, s: Slot, i: nat)
    requires LegalHistory(base, recs) && RolledBack(recs, t, k0, k1, ops) && Stale(recs, t, k0, k1, lsns, PageOf(s))
    requires LastOp(ops, s).None? && Look(db, s) == Look(Replay(base, recs[..k1]), s)
    requires i == FirstAbove(recs, lsns, 0, s) && i < |recs| && recs[i].op.Delete? && recs[i].op.slot == s
    ensures s in db
  {
    hide OpsOf, Reversed, Stale, Replay, LastOp, FirstAbove;
    UnwrittenBelow(base, recs, t, k0, k1, ops, lsns, s, i);
  }

  /**
   The pages of `written` went to disk after the rollback, with the LSN of the last own write; all other pages hold
   their history up to their LSN. Redo comes to its end with the rows of the whole log if and only if no slot of these
   pages that was empty before the transaction was last written by it with an update, and no page where such a slot was
   last written with an insert sees another redone insert or delete after the delete that takes this insert back.
   */
  lemma {:induction false} RollbackExact(base: Records, recs: seq<LogRecord>, t: int, k0: nat, k1: nat, ops: seq<Op>,
                                         lsns: map<PageId, int>, db: Records, written: iset<PageId>)
    requires LegalHistory(base, recs) && Increasing(recs) && RolledBack(recs, t, k0, k1, ops)
    requires WrittenAfter(base, recs, t, k0, k1, lsns, db, written)
    ensures var r := RedoLatched(recs, lsns, 0, db, {});
            r.ending.Ended? && r.rows == Replay(base, recs) <==>
            (forall s :: PageOf(s) in written ==> Recoverable(ops, s)) && RedoFree(recs, lsns, db, 0)
  {
    hide RolledBack, Stale, Replay, RedoRun, RedoLatched, LegalHistory, Increasing, HoldsEnough, AtLsn, Recoverable,
         Look, RedoFree, Stays;
    RedoExact(base, recs, lsns, db);
    RedoLatchedIs(recs, lsns, db);
    forall s ensures HoldsEnough(base, recs, lsns, db, s) <==> (PageOf(s) in written ==> Recoverable(ops, s)) {
      if PageOf(s) in written {
        StaleSlot(base, recs, t, k0, k1, ops, lsns, db, s);
      } else {
        AtLsnFits(base, recs, lsns, db, s);
      }
    }
  }
}

/**
 What is kept about transactions, and what every step of one does to it.
 */
module TransactionSteps {
  import opened Options
  import opened LogCodec
  import opened LogFile
  import opened LogHistory
  import opened LogUndo
  import opened LogIsolation
  import opened LogWriter
  import opened TableIndexes
  import opened Rollback
  import opened StalePages

  /**
   How far a transaction has come. Once it is committing or aborting, its locks are gone, and only its last record is
   missing.
   */
  datatype Stage = Running | RollingBack | Committing | Aborting

  datatype Txn = Txn(prevLsn: int, writeSet: seq<WriteRecord>, stage: Stage)

  // ----- what is kept about transactions -----

  /** Chains are in order, and the rows are what the log says. */
  ghost predicate Grounded(base: Records, recs: seq<LogRecord>, db: Records) {
    WellFormed(recs) && db == Replay(base, recs)
  }

  /** What is kept about a transaction agrees with its log records. */
  ghost predicate Tracks(schema: Schema, recs: seq<LogRecord>, t: int, x: Txn) {
    && ChainAt(recs, t, x.prevLsn) && Ops(x.writeSet) <= OpsOf(recs, t)
    && (forall i :: 0 <= i < |x.writeSet| ==> KeysHandled(schema, x.writeSet[i]))
    && (x.stage.Running? ==> OpsOf(recs, t) == Ops(x.writeSet))
    && (x.stage.Committing? || x.stage.Aborting? ==> x.writeSet == [])
  }

  ghost predicate TracksAll(schema: Schema, recs: seq<LogRecord>, txns: map<int, Txn>) {
    forall u: int :: (u in txns <==> Active(recs, |recs|, u)) && (u in txns ==> Tracks(schema, recs, u, txns[u]))
  }

  /** And can undo them. */
  ghost predicate Knows(schema: Schema, recs: seq<LogRecord>, db: Records, t: int, x: Txn) {
    && Tracks(schema, recs, t, x) && Undoable(schema, db, x.writeSet)
    && (!x.stage.Committing? ==> Remains(OpsOf(recs, t), Ops(x.writeSet)))
  }

  /** This holds of all transactions but `t`. */
  ghost predicate Others(schema: Schema, recs: seq<LogRecord>, db: Records, txns: map<int, Txn>, t: int) {
    forall u: int :: u != t ==>
      (u in txns <==> Active(recs, |recs|, u)) && (u in txns ==> Knows(schema, recs, db, u, txns[u]))
  }

  ghost predicate KnowsAll(schema: Schema, recs: seq<LogRecord>, db: Records, txns: map<int, Txn>) {
    forall u: int :: (u in txns <==> Active(recs, |recs|, u)) && (u in txns ==> Knows(schema, recs, db, u, txns[u]))
  }

  /** A slot that others have written since is not in the write set. */
  ghost predicate OwnSettled(recs: seq<LogRecord>, t: int, ws: seq<WriteRecord>) {
    forall i, j :: 0 <= i < j < |recs| && SameSlot(recs[i], recs[j]) && recs[i].tid == t && recs[j].tid != t ==>
      Free(ws, recs[i].op.slot)
  }

  ghost predicate Settled(recs: seq<LogRecord>, txns: map<int, Txn>) {
    forall t: int :: t in txns ==> OwnSettled(recs, t, txns[t].writeSet)
  }

  /** Rolling one back does not get in the way of rolling the other back. */
  ghost predicate Peaceful(schema: Schema, a: seq<WriteRecord>, b: seq<WriteRecord>) {
    forall i, j :: 0 <= i < |a| && 0 <= j < |b| && IsWrite(a[i].op) && IsWrite(b[j].op) ==>
      PeacefulOps(schema, a[i].op, b[j].op)
  }

  ghost predicate PeacefulOps(schema: Schema, v: Op, w: Op)
    requires IsWrite(v) && IsWrite(w)
  {
    v.slot != w.slot && KeysApart(schema, v.slot, Before(v), w.slot, Before(w))
  }

  ghost predicate Harmless(schema: Schema, txns: map<int, Txn>) {
    forall t: int, u: int :: t in txns && u in txns && t != u ==> Peaceful(schema, txns[t].writeSet, txns[u].writeSet)
  }

  /** No other transaction's write set holds the slot, or the new key in a before-image. */
  ghost predicate MayWrite(schema: Schema, txns: map<int, Txn>, t: int, op: Op) {
    IsWrite(op) && forall u: int :: u in txns && u != t ==> Apart(schema, txns[u].writeSet, op)
  }

  ghost predicate Managed(schema: Schema, recs: seq<LogRecord>, db: Records, txns: map<int, Txn>) {
    KnowsAll(schema, recs, db, txns) && Settled(recs, txns) && Harmless(schema, txns)
  }

  // ----- one more record -----

  lemma {:induction false} ChainAppend(recs: seq<LogRecord>, r: LogRecord, u: int, lsn: int)
    ensures r.tid != u && ChainAt(recs, u, lsn) ==> ChainAt(recs + [r], u, lsn)
    ensures r.tid == u && !Ends(r.op) && lsn == r.lsn ==> ChainAt(recs + [r], u, lsn)
  {
    LastOfAppend(recs, r, u, |recs|);
  }

  /** A write apart from its write set is nothing to another transaction. */
  lemma {:induction false} KnowsElsewhere(schema: Schema, recs: seq<LogRecord>, r: LogRecord, db: Records, u: int,
                                          x: Txn)
    requires Knows(schema, recs, db, u, x) && u != r.tid
    requires IsWrite(r.op) ==> Apart(schema, x.writeSet, r.op) && Unique(schema, Apply(db, r.op), r.op.slot.table)
    ensures Knows(schema, recs + [r], Apply(db, r.op), u, x)
  {
    hide OpsOf, Undoable, LastOf, Remains, Apart, Unique;
    ChainAppend(recs, r, u, x.prevLsn);
    OpsOfOne(recs, r, u);
    if IsWrite(r.op) {
      UndoableApart(schema, db, r.op, x.writeSet);
    }
  }

  lemma {:induction false} OthersAppend(schema: Schema, recs: seq<LogRecord>, r: LogRecord, db: Records,
                                        txns: map<int, Txn>)
    requires Others(schema, recs, db, txns, r.tid)
    requires IsWrite(r.op) ==> MayWrite(schema, txns, r.tid, r.op) && Unique(schema, Apply(db, r.op), r.op.slot.table)
    ensures Others(schema, recs + [r], Apply(db, r.op), txns, r.tid)
  {
    hide Knows, Active, Apart, Unique, Apply;
    forall u: int | u != r.tid
      ensures (u in txns <==> Active(recs + [r], |recs + [r]|, u)) &&
              (u in txns ==> Knows(schema, recs + [r], Apply(db, r.op), u, txns[u]))
    {
      ActiveAppend(recs, r, u);
      if u in txns {
        KnowsElsewhere(schema, recs, r, db, u, txns[u]);
      }
    }
  }

  lemma {:induction false} OthersKept(schema: Schema, recs: seq<LogRecord>, db: Records, a: map<int, Txn>,
                                      b: map<int, Txn>, t: int)
    requires Others(schema, recs, db, a, t) && forall u: int :: u != t ==>
               (u in a <==> u in b) && (u in a ==> a[u] == b[u])
    ensures Others(schema, recs, db, b, t)
  {
    hide Knows, Active;
  }

  lemma {:induction false} AllButOne(schema: Schema, recs: seq<LogRecord>, db: Records, txns: map<int, Txn>, t: int)
    requires KnowsAll(schema, recs, db, txns) && t in txns
    ensures Others(schema, recs, db, txns, t) && Knows(schema, recs, db, t, txns[t])
    ensures exists i :: 0 <= i < |recs| && recs[i].tid == t
  {
    hide OpsOf, Undoable, Remains;
    assert Active(recs, |recs|, t);
    assert recs[LastOf(recs, t, |recs|)].tid == t;
  }

  lemma {:induction false} WithOne(schema: Schema, recs: seq<LogRecord>, db: Records, txns: map<int, Txn>, t: int)
    requires Others(schema, recs, db, txns, t) && t in txns && Knows(schema, recs, db, t, txns[t])
    ensures KnowsAll(schema, recs, db, txns)
  {
    hide OpsOf, Undoable, Remains;
  }

  lemma {:induction false} WithoutOne(schema: Schema, recs: seq<LogRecord>, db: Records, txns: map<int, Txn>, t: int)
    requires Others(schema, recs, db, txns, t) && t !in txns && !Active(recs, |recs|, t)
    ensures KnowsAll(schema, recs, db, txns)
  {
    hide Active, Knows;
  }

  /** The record `r` of a transaction that goes on as `x`. */
  lemma {:induction false} KnowsNext(schema: Schema, recs: seq<LogRecord>, r: LogRecord, db: Records,
                                     txns: map<int, Txn>, x: Txn)
    requires KnowsAll(schema, recs, db, txns) && r.tid in txns && Knows(schema, recs + [r], Apply(db, r.op), r.tid, x)
    requires IsWrite(r.op) ==> MayWrite(schema, txns, r.tid, r.op) && Unique(schema, Apply(db, r.op), r.op.slot.table)
    ensures KnowsAll(schema, recs + [r], Apply(db, r.op), txns[r.tid := x])
  {
    hide KnowsAll, Others, Knows, MayWrite, Unique, Apply;
    var all, db', txns' := recs + [r], Apply(db, r.op), txns[r.tid := x];
    AllButOne(schema, recs, db, txns, r.tid);
    OthersAppend(schema, recs, r, db, txns);
    OthersKept(schema, all, db', txns, txns', r.tid);
    WithOne(schema, all, db', txns', r.tid);
  }

  lemma {:induction false} SettledAppend(recs: seq<LogRecord>, r: LogRecord, u: int, ws: seq<WriteRecord>)
    requires OwnSettled(recs, u, ws) && (IsWrite(r.op) && r.tid != u ==> Free(ws, r.op.slot))
    ensures OwnSettled(recs + [r], u, ws)
  {
    hide Free;
    var all := recs + [r];
    forall i, j | 0 <= i < j < |all| && SameSlot(all[i], all[j]) && all[i].tid == u && all[j].tid != u
      ensures Free(ws, all[i].op.slot)
    {
      assert all[i] == recs[i];
      if j < |recs| {
        assert SameSlot(recs[i], recs[j]);
      }
    }
  }

  lemma {:induction false} SettledNext(schema: Schema, recs: seq<LogRecord>, r: LogRecord, txns: map<int, Txn>, x: Txn)
    requires Settled(recs, txns) && OwnSettled(recs, r.tid, x.writeSet) &&
             (IsWrite(r.op) ==> MayWrite(schema, txns, r.tid, r.op))
    ensures Settled(recs + [r], txns[r.tid := x])
  {
    hide OwnSettled, Apart;
    var txns' := txns[r.tid := x];
    forall u: int | u in txns' ensures OwnSettled(recs + [r], u, txns'[u].writeSet) {
      if u != r.tid && IsWrite(r.op) {
        ApartFree(schema, txns[u].writeSet, r.op);
      }
      SettledAppend(recs, r, u, txns'[u].writeSet);
    }
  }

  lemma {:induction false} HarmlessNext(schema: Schema, txns: map<int, Txn>, t: int, x: Txn)
    requires Harmless(schema, txns)
    requires forall u: int :: u in txns && u != t ==>
               Peaceful(schema, txns[u].writeSet, x.writeSet) && Peaceful(schema, x.writeSet, txns[u].writeSet)
    ensures Harmless(schema, txns[t := x])
  {
    hide Peaceful;
  }

  // ----- what every record keeps -----

  lemma {:induction false} GroundedNext(base: Records, recs: seq<LogRecord>, db: Records, r: LogRecord)
    requires Grounded(base, recs, db) && Continuing(recs, r)
    ensures Grounded(base, recs + [r], Apply(db, r.op))
  {
    hide WellFormed, Replay, Continuing;
    AppendChained(recs, r);
    ReplayOne(base, recs, r);
  }

  lemma {:induction false} TracksElsewhere(schema: Schema, recs: seq<LogRecord>, r: LogRecord, u: int, x: Txn)
    requires Tracks(schema, recs, u, x) && u != r.tid
    ensures Tracks(schema, recs + [r], u, x)
  {
    hide OpsOf, LastOf, KeysHandled;
    ChainAppend(recs, r, u, x.prevLsn);
    OpsOfOne(recs, r, u);
  }

  /** The record `r` of a transaction that goes on as `x`. */
  lemma {:induction false} TracksNext(schema: Schema, recs: seq<LogRecord>, r: LogRecord, txns: map<int, Txn>, x: Txn)
    requires TracksAll(schema, recs, txns) && Tracks(schema, recs + [r], r.tid, x) && !Ends(r.op)
    ensures TracksAll(schema, recs + [r], txns[r.tid := x])
  {
    hide Tracks, Active;
    var all, txns' := recs + [r], txns[r.tid := x];
    forall u: int ensures (u in txns' <==> Active(all, |all|, u)) && (u in txns' ==> Tracks(schema, all, u, txns'[u])) {
      ActiveAppend(recs, r, u);
      if u != r.tid && u in txns {
        TracksElsewhere(schema, recs, r, u, txns[u]);
      }
    }
  }

  lemma {:induction false} TracksEnd(schema: Schema, recs: seq<LogRecord>, r: LogRecord, txns: map<int, Txn>)
    requires TracksAll(schema, recs, txns) && Ends(r.op)
    ensures TracksAll(schema, recs + [r], txns - {r.tid})
  {
    hide Tracks, Active;
    var all, txns' := recs + [r], txns - {r.tid};
    forall u: int ensures (u in txns' <==> Active(all, |all|, u)) && (u in txns' ==> Tracks(schema, all, u, txns'[u])) {
      ActiveAppend(recs, r, u);
      if u != r.tid && u in txns {
        TracksElsewhere(schema, recs, r, u, txns[u]);
      }
    }
  }

  lemma {:induction false} TracksSet(schema: Schema, recs: seq<LogRecord>, txns: map<int, Txn>, t: int, x: Txn)
    requires TracksAll(schema, recs, txns) && t in txns && Tracks(schema, recs, t, x)
    ensures TracksAll(schema, recs, txns[t := x])
  {
    hide Tracks, Active;
  }

  lemma {:induction false} Tracked(schema: Schema, recs: seq<LogRecord>, txns: map<int, Txn>, t: int)
    requires TracksAll(schema, recs, txns) && t in txns
    ensures Tracks(schema, recs, t, txns[t]) && ChainAt(recs, t, txns[t].prevLsn)
    ensures exists i :: 0 <= i < |recs| && recs[i].tid == t
  {
    hide OpsOf, KeysHandled;
    assert Active(recs, |recs|, t);
    assert recs[LastOf(recs, t, |recs|)].tid == t;
  }

  /** The next record of a transaction that has begun. */
  lemma {:induction false} ChainContinues(base: Records, schema: Schema, recs: seq<LogRecord>, db: Records,
                                          txns: map<int, Txn>, r: LogRecord)
    requires Grounded(base, recs, db) && TracksAll(schema, recs, txns) && r.tid in txns && !r.op.Begin?
    requires NextLsn(recs, r.lsn) && r.prevLsn == txns[r.tid].prevLsn
    ensures Continuing(recs, r)
  {
    hide TracksAll, NextLsn, Replay, ChainAt, Increasing, Chained;
    Tracked(schema, recs, txns, r.tid);
  }

  // ----- a write -----

  lemma {:induction false} OpInto(recs: seq<LogRecord>, t: int, i: nat) returns (k: nat)
    requires i < |recs| && recs[i].tid == t && IsWrite(recs[i].op)
    ensures k < |OpsOf(recs, t)| && OpsOf(recs, t)[k] == recs[i].op
  {
    var n := |recs| - 1;
    if i == n {
      k := |OpsOf(recs, t)| - 1;
    } else {
      k := OpInto(recs[..n], t, i);
    }
  }

  /** While a transaction runs, nobody writes its slots. */
  lemma {:induction false} OwnLast(recs: seq<LogRecord>, t: int, ws: seq<WriteRecord>)
    requires OwnSettled(recs, t, ws) && OpsOf(recs, t) == Ops(ws)
    ensures forall s :: Unbroken(recs, t, s)
    ensures forall any :: OwnSettled(recs, t, any)
  {
    hide OpsOf;
    forall i, j | 0 <= i < j < |recs| && SameSlot(recs[i], recs[j]) && recs[i].tid == t ensures recs[j].tid == t {
      var k := OpInto(recs, t, i);
      assert Writes(ws[k].op, recs[i].op.slot);
    }
    forall s, i, j | 0 <= i < j < |recs| && recs[i].tid == t && Writes(recs[i].op, s) && Writes(recs[j].op, s)
      ensures recs[j].tid == t
    {
      assert SameSlot(recs[i], recs[j]);
    }
  }

  lemma {:induction false} PeacefulFlip(schema: Schema, a: seq<WriteRecord>, b: seq<WriteRecord>)
    requires Peaceful(schema, a, b)
    ensures Peaceful(schema, b, a)
  {
    hide KeyOf;
    forall i, j | 0 <= i < |b| && 0 <= j < |a| && IsWrite(b[i].op) && IsWrite(a[j].op)
      ensures PeacefulOps(schema, b[i].op, a[j].op)
    {
      assert PeacefulOps(schema, a[j].op, b[i].op);
    }
  }

  /** A write that leaves a write set undoable can be taken back without harm to it. */
  lemma {:induction false} PeacefulMore(schema: Schema, db: Records, a: seq<WriteRecord>, b: seq<WriteRecord>,
                                        w: WriteRecord)
    requires Peaceful(schema, a, b) && Undoable(schema, db, a) && IsWrite(w.op) && Apart(schema, a, w.op) &&
             Look(db, w.op.slot) == Before(w.op)
    ensures Peaceful(schema, a, b + [w])
  {
    hide KeysApart, Undoable;
    ApartFree(schema, a, w.op);
    RestoredKeysApart(schema, db, a, w.op.slot);
    forall i, j | 0 <= i < |a| && 0 <= j < |b + [w]| && IsWrite(a[i].op) && IsWrite((b + [w])[j].op)
      ensures PeacefulOps(schema, a[i].op, (b + [w])[j].op)
    {
      assert j < |b| ==> (b + [w])[j] == b[j];
    }
  }

  lemma {:induction false} RowTracked(schema: Schema, recs: seq<LogRecord>, r: LogRecord, x: Txn, t: int,
                                      w: WriteRecord)
    requires Tracks(schema, recs, t, x) && x.stage.Running? && KeysHandled(schema, w) && r.tid == t && r.op == w.op
    ensures Tracks(schema, recs + [r], t, Txn(r.lsn, x.writeSet + [w], Running))
    ensures Ops(x.writeSet + [w]) == Ops(x.writeSet) + [w.op] == OpsOf(recs + [r], t)
  {
    hide OpsOf, KeysHandled, LastOf, Active;
    WritesHandled(schema, w);
    ChainAppend(recs, r, t, r.lsn);
    OpsOfOne(recs, r, t);
    assert Ops(x.writeSet + [w]) == Ops(x.writeSet) + [w.op];
  }

  lemma {:induction false} RowKnown(schema: Schema, recs: seq<LogRecord>, r: LogRecord, db: Records, ixs: Indexes,
                                    x: Txn, t: int, w: WriteRecord)
    requires Knows(schema, recs, db, t, x) && x.stage.Running? && Consistent(schema, db, ixs) && KeysHandled(schema, w)
    requires Look(db, w.op.slot) == Before(w.op) && r.tid == t && r.op == w.op
    ensures Knows(schema, recs + [r], Apply(db, w.op), t, Txn(r.lsn, x.writeSet + [w], Running))
  {
    hide OpsOf, Undoable, Consistent, KeysHandled, Apply, Tracks, Remains;
    RowTracked(schema, recs, r, x, t, w);
    UndoableMore(schema, db, ixs, x.writeSet, w);
    RemainsAll(Ops(x.writeSet + [w]));
  }

  /** A write that is apart from the write sets of the others keeps everything in order. */
  lemma {:induction false} WriteManaged(schema: Schema, recs: seq<LogRecord>, r: LogRecord, db: Records, ixs: Indexes,
                                        txns: map<int, Txn>, w: WriteRecord)
    requires Managed(schema, recs, db, txns) && r.tid in txns && txns[r.tid].stage.Running? && r.op == w.op &&
             Consistent(schema, db, ixs)
    requires KeysHandled(schema, w) && Look(db, w.op.slot) == Before(w.op) &&
             Unique(schema, Apply(db, w.op), w.op.slot.table)
    requires MayWrite(schema, txns, r.tid, w.op)
    ensures Managed(schema, recs + [r], Apply(db, w.op), txns[r.tid := Txn(r.lsn, txns[r.tid].writeSet + [w], Running)])
  {
    hide KnowsAll, Others, OpsOf, Apply, Undoable, Remains, ChainAt, Consistent, KeysHandled, Unique, Apart, OwnSettled,
         Peaceful;
    var t, x := r.tid, Txn(r.lsn, txns[r.tid].writeSet + [w], Running);
    WritesHandled(schema, w);
    AllButOne(schema, recs, db, txns, t);
    RowKnown(schema, recs, r, db, ixs, txns[t], t, w);
    KnowsNext(schema, recs, r, db, txns, x);
    OwnLast(recs, t, txns[t].writeSet);
    SettledNext(schema, recs, r, txns, x);
    forall u: int | u in txns && u != t
      ensures Peaceful(schema, txns[u].writeSet, x.writeSet) && Peaceful(schema, x.writeSet, txns[u].writeSet)
    {
      AllButOne(schema, recs, db, txns, u);
      PeacefulMore(schema, db, txns[u].writeSet, txns[t].writeSet, w);
      PeacefulFlip(schema, txns[u].writeSet, x.writeSet);
    }
    HarmlessNext(schema, txns, t, x);
  }

  /** And only such a write does: any other leaves some transaction with rows it cannot take back. */
  lemma {:induction false} WriteExact(schema: Schema, recs: seq<LogRecord>, db: Records, txns: map<int, Txn>,
                                      recs': seq<LogRecord>, op: Op, txns': map<int, Txn>, t: int)
    requires KnowsAll(schema, recs, db, txns) && KnowsAll(schema, recs', Apply(db, op), txns')
    requires IsWrite(op) && Look(db, op.slot) == Before(op) != After(op) && Unique(schema, Apply(db, op), op.slot.table)
    requires forall u: int :: u in txns && u != t ==> u in txns' && txns'[u] == txns[u]
    ensures MayWrite(schema, txns, t, op)
  {
    hide KnowsAll, Others, Apply, Undoable, Unique, Apart, OpsOf, Remains, ChainAt;
    forall u: int | u in txns && u != t ensures Apart(schema, txns[u].writeSet, op) {
      AllButOne(schema, recs, db, txns, u);
      AllButOne(schema, recs', Apply(db, op), txns', u);
      UndoableExact(schema, db, op, txns[u].writeSet);
    }
  }

  /** What Managed says of a running transaction that is about to write. */
  lemma {:induction false} RunningUnspoiled(schema: Schema, recs: seq<LogRecord>, db: Records, txns: map<int, Txn>,
                                            t: int)
    requires Managed(schema, recs, db, txns) && t in txns && txns[t].stage.Running?
    ensures Unspoiled(recs, t) && Undoable(schema, db, txns[t].writeSet)
  {
    hide KnowsAll, Others, OpsOf, Undoable, Remains, ChainAt, OwnSettled, KeysHandled, Unbroken;
    AllButOne(schema, recs, db, txns, t);
    OwnLast(recs, t, txns[t].writeSet);
  }

  /**
   All about a write of a running transaction: the log stays isolated if and only if nobody else has written the slot
   since the transaction last did; if all was well before, all transactions can still be rolled back if the write is
   apart from their write sets, and, when it changes its slot, only if it is.
   */
  lemma {:induction false} WriteOutcome(base: Records, schema: Schema, recs: seq<LogRecord>, r: LogRecord, db: Records,
                                        ixs: Indexes, txns: map<int, Txn>, w: WriteRecord)
    requires Grounded(base, recs, db) && TracksAll(schema, recs, txns) && r.tid in txns
    requires txns[r.tid].stage.Running? && r.op == w.op && NextLsn(recs, r.lsn) && r.prevLsn == txns[r.tid].prevLsn
    requires KeysHandled(schema, w) && Look(db, w.op.slot) == Before(w.op)
    ensures var txns' := txns[r.tid := Txn(r.lsn, txns[r.tid].writeSet + [w], Running)];
            var all, db', ok := recs + [r], Apply(db, w.op), Unique(schema, Apply(db, w.op), w.op.slot.table);
            && Grounded(base, all, db') && TracksAll(schema, all, txns')
            && (Isolated(base, all) <==> Isolated(base, recs) && Unbroken(recs, r.tid, w.op.slot))
            && (Consistent(schema, db, ixs) && ok ==> Consistent(schema, db', DoKeys(schema, ixs, w)))
            && (Managed(schema, recs, db, txns) ==> Unbroken(recs, r.tid, w.op.slot))
            && (Managed(schema, recs, db, txns) && Consistent(schema, db, ixs) && ok ==>
                  && (MayWrite(schema, txns, r.tid, w.op) ==> Managed(schema, all, db', txns'))
                  && (Before(w.op) != After(w.op) && Managed(schema, all, db', txns') ==>
                        MayWrite(schema, txns, r.tid, w.op)))
    ensures exists i :: 0 <= i < |recs| && recs[i].tid == r.tid
  {
    hide Grounded, Managed, Consistent, TracksAll, MayWrite, Apply, Unique, DoKeys, KeysHandled, NextLsn, Isolated,
         Continuing, Tracks, Unspoiled, Unbroken;
    WritesHandled(schema, w);
    Tracked(schema, recs, txns, r.tid);
    RowTracked(schema, recs, r, txns[r.tid], r.tid, w);
    ChainContinues(base, schema, recs, db, txns, r);
    GroundedNext(base, recs, db, r);
    TracksNext(schema, recs, r, txns, Txn(r.lsn, txns[r.tid].writeSet + [w], Running));
    WriteIsolated(base, recs, r, db);
    if Consistent(schema, db, ixs) && Unique(schema, Apply(db, w.op), w.op.slot.table) {
      DoConsistent(schema, db, ixs, w);
    }
    if Managed(schema, recs, db, txns) {
      RunningUnspoiled(schema, recs, db, txns, r.tid);
      UnspoiledAt(recs, r.tid, w.op.slot);
      if Consistent(schema, db, ixs) && Unique(schema, Apply(db, w.op), w.op.slot.table) {
        WriteKeeps(schema, recs, r, db, ixs, txns, w);
      }
    }
  }

  lemma {:induction false} UnspoiledAt(recs: seq<LogRecord>, t: int, s: Slot)
    requires Unspoiled(recs, t)
    ensures Unbroken(recs, t, s)
  {
    hide Unbroken;
  }

  /**
   A write that finds its slot as it says keeps the log isolated if and only if nobody else has written the slot
   since.
   */
  lemma {:induction false} WriteIsolated(base: Records, recs: seq<LogRecord>, r: LogRecord, db: Records)
    requires Grounded(base, recs, db) && Continuing(recs, r) && IsWrite(r.op)
    ensures Isolated(base, recs + [r]) <==>
            Isolated(base, recs) && Look(db, r.op.slot) == Before(r.op) && Unbroken(recs, r.tid, r.op.slot)
  {
    hide Isolated, Continuing, Replay, Unbroken, NetNone, WellFormed;
    AppendIsolated(base, recs, r);
  }

  lemma {:induction false} WriteKeeps(schema: Schema, recs: seq<LogRecord>, r: LogRecord, db: Records, ixs: Indexes,
                                      txns: map<int, Txn>, w: WriteRecord)
    requires Managed(schema, recs, db, txns) && r.tid in txns && txns[r.tid].stage.Running? && r.op == w.op
    requires Consistent(schema, db, ixs) && KeysHandled(schema, w) && Look(db, w.op.slot) == Before(w.op)
    requires Unique(schema, Apply(db, w.op), w.op.slot.table)
    ensures var txns' := txns[r.tid := Txn(r.lsn, txns[r.tid].writeSet + [w], Running)];
            && (MayWrite(schema, txns, r.tid, w.op) ==> Managed(schema, recs + [r], Apply(db, w.op), txns'))
            && (Before(w.op) != After(w.op) && Managed(schema, recs + [r], Apply(db, w.op), txns') ==>
                  MayWrite(schema, txns, r.tid, w.op))
  {
    hide Managed, Consistent, KnowsAll, MayWrite, Apply, Unique, DoKeys, KeysHandled;
    WritesHandled(schema, w);
    if MayWrite(schema, txns, r.tid, w.op) {
      WriteManaged(schema, recs, r, db, ixs, txns, w);
    }
    var txns' := txns[r.tid := Txn(r.lsn, txns[r.tid].writeSet + [w], Running)];
    if Before(w.op) != After(w.op) && Managed(schema, recs + [r], Apply(db, w.op), txns') {
      ManagedKnows(schema, recs, db, txns);
      ManagedKnows(schema, recs + [r], Apply(db, w.op), txns');
      WriteExact(schema, recs, db, txns, recs + [r], w.op, txns', r.tid);
    }
  }

  // ----- an inverse write -----

  lemma {:induction false} PeacefulApart(schema: Schema, a: seq<WriteRecord>, b: seq<WriteRecord>, j: nat)
    requires Peaceful(schema, a, b) && j < |b| && IsWrite(b[j].op)
    ensures Apart(schema, a, Inverse(b[j].op))
  {
    hide KeysApart;
    InverseUndoes(b[j].op);
    forall i | 0 <= i < |a| && IsWrite(a[i].op) ensures ApartFrom(schema, a[i].op, Inverse(b[j].op)) {
      assert PeacefulOps(schema, a[i].op, b[j].op);
    }
  }

  lemma {:induction false} MayUndo(schema: Schema, txns: map<int, Txn>, t: int)
    requires Harmless(schema, txns) && t in txns && txns[t].writeSet != []
    requires IsWrite(txns[t].writeSet[|txns[t].writeSet| - 1].op)
    ensures MayWrite(schema, txns, t, Inverse(txns[t].writeSet[|txns[t].writeSet| - 1].op))
  {
    hide Peaceful, Apart;
    var ws := txns[t].writeSet;
    InverseUndoes(ws[|ws| - 1].op);
    forall u: int | u in txns && u != t ensures Apart(schema, txns[u].writeSet, Inverse(ws[|ws| - 1].op)) {
      PeacefulApart(schema, txns[u].writeSet, ws, |ws| - 1);
    }
  }

  /** The write set a rollback has to go back, without its last write. */
  lemma {:induction false} LessTracked(schema: Schema, recs: seq<LogRecord>, r: LogRecord, x: Txn, t: int)
    requires Tracks(schema, recs, t, x) && x.stage.RollingBack? && x.writeSet != [] && r.tid == t
    requires r.op == Inverse(x.writeSet[|x.writeSet| - 1].op)
    ensures var n, w := |x.writeSet| - 1, x.writeSet[|x.writeSet| - 1];
            && KeysHandled(schema, w) && IsWrite(w.op) && IsWrite(r.op) && r.op.slot == w.op.slot
            && Before(r.op) == After(w.op) && After(r.op) == Before(w.op)
            && KeysHandled(schema, WriteRecord(r.op, w.keySet))
            && Ops(x.writeSet) == Ops(x.writeSet[..n]) + [w.op]
            && OpsOf(recs + [r], t) == OpsOf(recs, t) + [r.op]
            && Tracks(schema, recs + [r], t, Txn(r.lsn, x.writeSet[..n], RollingBack))
  {
    hide OpsOf, KeysHandled, LastOf, Active;
    var n, w := |x.writeSet| - 1, x.writeSet[|x.writeSet| - 1];
    WritesHandled(schema, w);
    InverseUndoes(w.op);
    InverseKeys(schema, w);
    ChainAppend(recs, r, t, r.lsn);
    OpsOfOne(recs, r, t);
    assert Ops(x.writeSet) == Ops(x.writeSet[..n]) + [w.op];
  }

  lemma {:induction false} LessKnown(schema: Schema, recs: seq<LogRecord>, r: LogRecord, db: Records, x: Txn, t: int)
    requires Knows(schema, recs, db, t, x) && x.stage.RollingBack? && x.writeSet != [] && r.tid == t
    requires r.op == Inverse(x.writeSet[|x.writeSet| - 1].op)
    ensures Knows(schema, recs + [r], Apply(db, r.op), t, Txn(r.lsn, x.writeSet[..|x.writeSet| - 1], RollingBack))
  {
    hide OpsOf, KeysHandled, Unique, Apply, Tracks, Remains, LastAfter;
    var n, w := |x.writeSet| - 1, x.writeSet[|x.writeSet| - 1];
    var rest := x.writeSet[..n];
    LessTracked(schema, recs, r, x, t);
    UndoableLook(schema, Apply(db, r.op), rest, w.op.slot);
    ApplyLook(db, r.op, w.op.slot);
    RemainsLess(OpsOf(recs, t), Ops(rest), w.op);
  }

  lemma {:induction false} SettledLess(recs: seq<LogRecord>, t: int, ws: seq<WriteRecord>, n: nat)
    requires OwnSettled(recs, t, ws) && n <= |ws|
    ensures OwnSettled(recs, t, ws[..n])
  {
  }

  lemma {:induction false} PeacefulLess(schema: Schema, a: seq<WriteRecord>, b: seq<WriteRecord>, n: nat)
    requires Peaceful(schema, a, b) && n <= |b|
    ensures Peaceful(schema, a, b[..n])
  {
    hide PeacefulOps;
  }

  lemma {:induction false} LastUnbroken(recs: seq<LogRecord>, t: int, ws: seq<WriteRecord>)
    requires OwnSettled(recs, t, ws) && ws != [] && IsWrite(ws[|ws| - 1].op)
    ensures Unbroken(recs, t, ws[|ws| - 1].op.slot)
  {
    var s := ws[|ws| - 1].op.slot;
    assert !Free(ws, s);
    forall i, j | 0 <= i < j < |recs| && recs[i].tid == t && Writes(recs[i].op, s) && Writes(recs[j].op, s)
      ensures recs[j].tid == t
    {
      assert SameSlot(recs[i], recs[j]);
    }
  }

  /** What the last write of the write set says about rows and keys. */
  lemma {:induction false} UndoReady(schema: Schema, db: Records, ws: seq<WriteRecord>)
    requires Undoable(schema, db, ws) && ws != []
    ensures var w := ws[|ws| - 1];
            && KeysHandled(schema, w) && IsWrite(w.op) && IsWrite(Inverse(w.op)) &&
               KeysHandled(schema, WriteRecord(Inverse(w.op), w.keySet))
            && Look(db, w.op.slot) == After(w.op) == Before(Inverse(w.op)) && Inverse(w.op).slot == w.op.slot
            && Unique(schema, Apply(db, Inverse(w.op)), w.op.slot.table)
  {
    hide KeysHandled, Unique, Apply;
    var w := ws[|ws| - 1];
    WritesHandled(schema, w);
    InverseUndoes(w.op);
    InverseKeys(schema, w);
  }

  lemma {:induction false} UndoManaged(schema: Schema, recs: seq<LogRecord>, r: LogRecord, db: Records,
                                       txns: map<int, Txn>)
    requires Managed(schema, recs, db, txns) && r.tid in txns && txns[r.tid].stage.RollingBack? &&
             txns[r.tid].writeSet != []
    requires r.op == Inverse(txns[r.tid].writeSet[|txns[r.tid].writeSet| - 1].op)
    ensures Managed(schema, recs + [r], Apply(db, r.op),
                    txns[r.tid := Txn(r.lsn, txns[r.tid].writeSet[..|txns[r.tid].writeSet| - 1], RollingBack)])
  {
    hide KnowsAll, Others, OpsOf, Apply, Undoable, Remains, ChainAt, KeysHandled, Unique, OwnSettled, Peaceful,
         MayWrite;
    var t, ws := r.tid, txns[r.tid].writeSet;
    var x := Txn(r.lsn, ws[..|ws| - 1], RollingBack);
    AllButOne(schema, recs, db, txns, t);
    UndoReady(schema, db, ws);
    MayUndo(schema, txns, t);
    LessKnown(schema, recs, r, db, txns[t], t);
    KnowsNext(schema, recs, r, db, txns, x);
    SettledLess(recs, t, ws, |ws| - 1);
    SettledNext(schema, recs, r, txns, x);
    forall u: int | u in txns && u != t
      ensures Peaceful(schema, txns[u].writeSet, x.writeSet) && Peaceful(schema, x.writeSet, txns[u].writeSet)
    {
      PeacefulLess(schema, txns[u].writeSet, ws, |ws| - 1);
      PeacefulFlip(schema, txns[u].writeSet, x.writeSet);
    }
    HarmlessNext(schema, txns, t, x);
  }

  /** What Managed says of a transaction that is being rolled back. */
  lemma {:induction false} RollingReady(schema: Schema, recs: seq<LogRecord>, db: Records, txns: map<int, Txn>, t: int)
    requires Managed(schema, recs, db, txns) && t in txns && txns[t].writeSet != []
    ensures Undoable(schema, db, txns[t].writeSet) && IsWrite(txns[t].writeSet[|txns[t].writeSet| - 1].op)
    ensures Unbroken(recs, t, txns[t].writeSet[|txns[t].writeSet| - 1].op.slot)
  {
    hide KnowsAll, Others, OpsOf, Undoable, Remains, ChainAt, OwnSettled, KeysHandled, Unbroken, Unique;
    AllButOne(schema, recs, db, txns, t);
    UndoReady(schema, db, txns[t].writeSet);
    LastUnbroken(recs, t, txns[t].writeSet);
  }

  /** Rows and keys after one inverse write. */
  lemma {:induction false} InverseRows(schema: Schema, db: Records, ixs: Indexes, ws: seq<WriteRecord>)
    requires ws != [] && KeysHandled(schema, ws[|ws| - 1])
    ensures var n, w := |ws| - 1, ws[|ws| - 1];
            var back := WriteRecord(Inverse(w.op), w.keySet);
            var db', ixs' := Apply(db, back.op), DoKeys(schema, ixs, back);
            && IsWrite(w.op)
            && (Consistent(schema, db, ixs) && Look(db, w.op.slot) == After(w.op) ==>
                  (Consistent(schema, db', ixs') <==> Unique(schema, db', w.op.slot.table)))
            && (Undoable(schema, db, ws) ==> CanUndo(db, w.op) && Undoable(schema, db', ws[..n]))
            && (Undoable(schema, db, ws) && Consistent(schema, db, ixs) ==> Consistent(schema, db', ixs'))
  {
    hide Consistent, Unique, DoKeys, KeysHandled, Apply;
    var w := ws[|ws| - 1];
    var back := WriteRecord(Inverse(w.op), w.keySet);
    WritesHandled(schema, w);
    InverseUndoes(w.op);
    InverseKeys(schema, w);
    if Consistent(schema, db, ixs) && Look(db, w.op.slot) == After(w.op) {
      if Unique(schema, Apply(db, back.op), w.op.slot.table) {
        DoConsistent(schema, db, ixs, back);
      }
      if Consistent(schema, Apply(db, back.op), DoKeys(schema, ixs, back)) {
        ConsistentUnique(schema, Apply(db, back.op), DoKeys(schema, ixs, back), w.op.slot.table);
      }
    }
  }

  /**
   All about an inverse write: the log stays isolated if and only if it meets the slot as the write left it and nobody
   else has written the slot since; a rollback that nobody is in the way of goes on so.
   */
  lemma {:induction false} UndoOutcome(base: Records, schema: Schema, recs: seq<LogRecord>, r: LogRecord, db: Records,
                                       txns: map<int, Txn>)
    requires Grounded(base, recs, db) && TracksAll(schema, recs, txns) && r.tid in txns
    requires txns[r.tid].stage.RollingBack? && txns[r.tid].writeSet != []
    requires NextLsn(recs, r.lsn) && r.prevLsn == txns[r.tid].prevLsn
    requires r.op == Inverse(txns[r.tid].writeSet[|txns[r.tid].writeSet| - 1].op)
    ensures var ws := txns[r.tid].writeSet;
            var n, w := |ws| - 1, ws[|ws| - 1];
            var txns' := txns[r.tid := Txn(r.lsn, ws[..n], RollingBack)];
            var all, db' := recs + [r], Apply(db, r.op);
            && KeysHandled(schema, w) && IsWrite(w.op) && IsWrite(r.op) && r.op.slot == w.op.slot
            && Grounded(base, all, db') && TracksAll(schema, all, txns') &&
               OpsOf(all, r.tid) == OpsOf(recs, r.tid) + [r.op]
            && (Isolated(base, all) <==>
                Isolated(base, recs) && Look(db, w.op.slot) == After(w.op) && Unbroken(recs, r.tid, w.op.slot))
            && (Smooth(base, recs, r.tid, Ops(ws)) ==> CanUndo(db, w.op) && Smooth(base, all, r.tid, Ops(ws[..n])))
            && (Managed(schema, recs, db, txns) ==>
                  && Look(db, w.op.slot) == After(w.op) && Unbroken(recs, r.tid, w.op.slot)
                  && Undoable(schema, db, ws) && Managed(schema, all, db', txns'))
    ensures exists i :: 0 <= i < |recs| && recs[i].tid == r.tid
  {
    hide Managed, TracksAll, Apply, KeysHandled, NextLsn, Isolated, Continuing, Tracks, Smooth, Unbroken, OpsOf,
         Undoable, Unique, WellFormed, Replay;
    var t, ws := r.tid, txns[r.tid].writeSet;
    var n, w := |ws| - 1, ws[|ws| - 1];
    Tracked(schema, recs, txns, t);
    LessTracked(schema, recs, r, txns[t], t);
    ChainContinues(base, schema, recs, db, txns, r);
    GroundedNext(base, recs, db, r);
    TracksNext(schema, recs, r, txns, Txn(r.lsn, ws[..n], RollingBack));
    WriteIsolated(base, recs, r, db);
    if Smooth(base, recs, t, Ops(ws)) {
      SmoothNext(base, recs, r, Ops(ws[..n]), w.op);
    }
    if Managed(schema, recs, db, txns) {
      RollingReady(schema, recs, db, txns, t);
      UndoReady(schema, db, ws);
      UndoManaged(schema, recs, r, db, txns);
    }
  }

  /** A complete rollback breaks the isolation of the log if others have written its slots. */
  lemma {:induction false} SpoiledBreaks(recs0: seq<LogRecord>, recs: seq<LogRecord>, t: int, ops: seq<Op>)
    requires recs0 <= recs && RolledBack(recs, t, |recs0|, |recs|, ops) && Contiguous(recs)
    ensures Unspoiled(recs0, t)
  {
    hide OpsOf, Reversed;
    var k0 := |recs0|;
    var tail := recs[k0..];
    assert recs[..k0] == recs0 && recs[k0..|recs|] == tail;
    InversesLogged(recs, t, k0, |recs|, ops);
    forall s, i, j | 0 <= i < j < k0 && recs0[i].tid == t && Writes(recs0[i].op, s) && Writes(recs0[j].op, s)
      ensures recs0[j].tid == t
    {
      var m := OpInto(recs0, t, i);
      ReversedAt(ops, 0, m);
      var k := OpFrom(tail, t, |ops| - 1 - m);
      InverseUndoes(ops[m]);
      assert recs[k0 + k] == tail[k] && recs[i] == recs0[i] && recs[j] == recs0[j];
      assert SameSlot(recs[i], recs[j]) && SameSlot(recs[j], recs[k0 + k]);
    }
  }

  // ----- beginning and ending -----

  lemma {:induction false} NoWrites(schema: Schema, db: Records, recs: seq<LogRecord>, t: int)
    ensures Undoable(schema, db, []) && OwnSettled(recs, t, []) && Ops([]) == [] &&
            forall ws :: Peaceful(schema, [], ws) && Peaceful(schema, ws, [])
  {
  }

  /** All about the first record of a transaction. */
  lemma {:induction false} BeginOutcome(base: Records, schema: Schema, recs: seq<LogRecord>, db: Records,
                                        txns: map<int, Txn>, r: LogRecord)
    requires Grounded(base, recs, db) && TracksAll(schema, recs, txns) && r.op.Begin? && r.prevLsn == INVALID_LSN
    requires NextLsn(recs, r.lsn) && 0 <= r.tid && forall i :: 0 <= i < |recs| ==> recs[i].tid < r.tid
    ensures var txns' := txns[r.tid := Txn(r.lsn, [], Running)];
            && Grounded(base, recs + [r], db) && TracksAll(schema, recs + [r], txns')
            && (Isolated(base, recs + [r]) <==> Isolated(base, recs))
            && (Managed(schema, recs, db, txns) ==> Managed(schema, recs + [r], db, txns'))
  {
    hide Isolated, Grounded, TracksAll, Managed, Replay, OpsOf, NextLsn, Unbroken, NetNone;
    assert Continuing(recs, r);
    GroundedNext(base, recs, db, r);
    BeginTracked(schema, recs, r);
    TracksNext(schema, recs, r, txns, Txn(r.lsn, [], Running));
    AppendIsolated(base, recs, r);
    if Managed(schema, recs, db, txns) {
      BeginManaged(schema, recs, db, txns, r);
    }
  }

  lemma {:induction false} BeginManaged(schema: Schema, recs: seq<LogRecord>, db: Records, txns: map<int, Txn>,
                                        r: LogRecord)
    requires Managed(schema, recs, db, txns) && r.op.Begin? && forall i :: 0 <= i < |recs| ==> recs[i].tid < r.tid
    ensures Managed(schema, recs + [r], db, txns[r.tid := Txn(r.lsn, [], Running)])
  {
    hide Undoable, OpsOf, LastOf, Remains, OwnSettled, Peaceful, Active, Knows, MayWrite;
    var all, x := recs + [r], Txn(r.lsn, [], Running);
    var txns' := txns[r.tid := x];
    NoWrites(schema, db, recs, r.tid);
    OthersAppend(schema, recs, r, db, txns);
    OthersKept(schema, all, db, txns, txns', r.tid);
    BeginKnown(schema, recs, db, r);
    WithOne(schema, all, db, txns', r.tid);
    SettledNext(schema, recs, r, txns, x);
    HarmlessNext(schema, txns, r.tid, x);
  }

  lemma {:induction false} BeginTracked(schema: Schema, recs: seq<LogRecord>, r: LogRecord)
    requires r.op.Begin? && forall i :: 0 <= i < |recs| ==> recs[i].tid < r.tid
    ensures Tracks(schema, recs + [r], r.tid, Txn(r.lsn, [], Running)) && OpsOf(recs + [r], r.tid) == []
    ensures Active(recs + [r], |recs + [r]|, r.tid)
  {
    hide OpsOf, LastOf;
    ActiveAppend(recs, r, r.tid);
    ChainAppend(recs, r, r.tid, r.lsn);
    OpsOfOne(recs, r, r.tid);
    OpsOfNone(recs, r.tid);
    assert Ops([]) == [];
  }

  lemma {:induction false} BeginKnown(schema: Schema, recs: seq<LogRecord>, db: Records, r: LogRecord)
    requires r.op.Begin? && forall i :: 0 <= i < |recs| ==> recs[i].tid < r.tid
    ensures Knows(schema, recs + [r], db, r.tid, Txn(r.lsn, [], Running)) && Active(recs + [r], |recs + [r]|, r.tid)
  {
    hide OpsOf, Tracks, Remains, Active;
    BeginTracked(schema, recs, r);
    RemainsAll([]);
    assert Ops([]) == [];
  }

  /** Letting the write set go, when it is empty or not needed any more. */
  lemma {:induction false} ReleaseManaged(schema: Schema, recs: seq<LogRecord>, db: Records, txns: map<int, Txn>,
                                          t: int, x: Txn)
    requires Managed(schema, recs, db, txns) && t in txns && x.prevLsn == txns[t].prevLsn && x.writeSet == []
    requires x.stage.Committing? || (x.stage.Aborting? && txns[t].stage.RollingBack? && txns[t].writeSet == [])
    ensures Managed(schema, recs, db, txns[t := x])
  {
    hide OpsOf, Remains, OwnSettled, Peaceful, Active, ChainAt, Undoable, KnowsAll, Others;
    var txns' := txns[t := x];
    AllButOne(schema, recs, db, txns, t);
    OthersKept(schema, recs, db, txns, txns', t);
    NoWrites(schema, db, recs, t);
    WithOne(schema, recs, db, txns', t);
    HarmlessNext(schema, txns, t, x);
  }

  lemma {:induction false} ReleaseTracked(schema: Schema, recs: seq<LogRecord>, txns: map<int, Txn>, t: int, x: Txn)
    requires TracksAll(schema, recs, txns) && t in txns && x.prevLsn == txns[t].prevLsn && x.writeSet == []
    requires x.stage.Committing? || x.stage.Aborting?
    ensures TracksAll(schema, recs, txns[t := x])
  {
    hide TracksAll, OpsOf, KeysHandled, ChainAt;
    Tracked(schema, recs, txns, t);
    assert Ops([]) == [];
    TracksSet(schema, recs, txns, t, x);
  }

  lemma {:induction false} RollingTracked(schema: Schema, recs: seq<LogRecord>, txns: map<int, Txn>, t: int)
    requires TracksAll(schema, recs, txns) && t in txns && txns[t].stage.Running?
    ensures TracksAll(schema, recs, txns[t := txns[t].(stage := RollingBack)])
  {
    hide TracksAll, OpsOf, KeysHandled, ChainAt;
    Tracked(schema, recs, txns, t);
    TracksSet(schema, recs, txns, t, txns[t].(stage := RollingBack));
  }

  lemma {:induction false} RollingManaged(schema: Schema, recs: seq<LogRecord>, db: Records, txns: map<int, Txn>,
                                          t: int)
    requires Managed(schema, recs, db, txns) && t in txns && txns[t].stage.Running?
    ensures Managed(schema, recs, db, txns[t := txns[t].(stage := RollingBack)])
  {
    hide OpsOf, Remains, OwnSettled, Peaceful, Active, ChainAt, Undoable, KnowsAll, Others;
    var txns' := txns[t := txns[t].(stage := RollingBack)];
    AllButOne(schema, recs, db, txns, t);
    OthersKept(schema, recs, db, txns, txns', t);
    WithOne(schema, recs, db, txns', t);
    HarmlessNext(schema, txns, t, txns'[t]);
  }

  /** All about the last record of a transaction: an abort keeps the log isolated if and only if it has left nothing. */
  lemma {:induction false} EndOutcome(base: Records, schema: Schema, recs: seq<LogRecord>, db: Records,
                                      txns: map<int, Txn>, r: LogRecord)
    requires Grounded(base, recs, db) && TracksAll(schema, recs, txns) && r.tid in txns && NextLsn(recs, r.lsn)
    requires r.prevLsn == txns[r.tid].prevLsn
    requires (txns[r.tid].stage.Committing? && r.op.Commit?) || (txns[r.tid].stage.Aborting? && r.op.Abort?)
    ensures Grounded(base, recs + [r], db) && TracksAll(schema, recs + [r], txns - {r.tid})
    ensures Isolated(base, recs + [r]) <==> Isolated(base, recs) && (r.op.Abort? ==> NetNone(OpsOf(recs, r.tid)))
    ensures Managed(schema, recs, db, txns) ==>
              Managed(schema, recs + [r], db, txns - {r.tid}) && (r.op.Abort? ==> NetNone(OpsOf(recs, r.tid)))
    ensures exists i :: 0 <= i < |recs| && recs[i].tid == r.tid
  {
    hide Grounded, TracksAll, Managed, OpsOf, Continuing, Isolated, NextLsn, NetNone, Unbroken, Replay;
    Tracked(schema, recs, txns, r.tid);
    ChainContinues(base, schema, recs, db, txns, r);
    GroundedNext(base, recs, db, r);
    TracksEnd(schema, recs, r, txns);
    AppendIsolated(base, recs, r);
    if Managed(schema, recs, db, txns) {
      EndManaged(schema, recs, db, txns, r);
    }
  }

  lemma {:induction false} EndManaged(schema: Schema, recs: seq<LogRecord>, db: Records, txns: map<int, Txn>,
                                      r: LogRecord)
    requires Managed(schema, recs, db, txns) && r.tid in txns
    requires (txns[r.tid].stage.Committing? && r.op.Commit?) || (txns[r.tid].stage.Aborting? && r.op.Abort?)
    ensures Managed(schema, recs + [r], db, txns - {r.tid}) && (r.op.Abort? ==> NetNone(OpsOf(recs, r.tid)))
  {
    hide OpsOf, Remains, OwnSettled, Peaceful, Active, ChainAt, Undoable, KnowsAll, Others, NetNone, KeysHandled;
    var all, t, txns' := recs + [r], r.tid, txns - {r.tid};
    AllButOne(schema, recs, db, txns, t);
    RemainsNone(OpsOf(recs, t));
    assert Ops([]) == [];
    OthersAppend(schema, recs, r, db, txns);
    OthersKept(schema, all, db, txns, txns', t);
    ActiveAppend(recs, r, t);
    WithoutOne(schema, all, db, txns', t);
    SettledEnd(recs, r, txns);
  }

  lemma {:induction false} SettledEnd(recs: seq<LogRecord>, r: LogRecord, txns: map<int, Txn>)
    requires Settled(recs, txns) && !IsWrite(r.op)
    ensures Settled(recs + [r], txns - {r.tid})
  {
    hide OwnSettled;
    forall u: int | u in txns - {r.tid} ensures OwnSettled(recs + [r], u, (txns - {r.tid})[u].writeSet) {
      SettledAppend(recs, r, u, txns[u].writeSet);
    }
  }

  // ----- a whole rollback -----

  /** All records behind `recs0` are of `t`, with LSNs from `first` on. */
  ghost predicate OwnTail(recs0: seq<LogRecord>, recs: seq<LogRecord>, t: int, first: int) {
    forall i :: |recs0| <= i < |recs| ==> recs[i].tid == t && first <= recs[i].lsn
  }

  /** The log when the writes `ops[k..]` of `t` are undone. */
  ghost predicate RolledTo(base: Records, recs0: seq<LogRecord>, recs: seq<LogRecord>, t: int, ops: seq<Op>, k: nat,
                           first: int)
  {
    && k <= |ops| && recs0 <= recs && OwnTail(recs0, recs, t, first) && Kept(recs, iset{t}) == Kept(recs0, iset{t})
    && OpsOf(recs0, t) == ops && OpsOf(recs, t) == ops + Reversed(ops, k)
    && (forall i :: 0 <= i < |ops| ==> IsWrite(ops[i]))
    && (Isolated(base, recs0) && Unspoiled(recs0, t) ==> Smooth(base, recs, t, ops[..k]))
  }

  lemma {:induction false} RollingStart(base: Records, schema: Schema, recs: seq<LogRecord>, txns: map<int, Txn>,
                                        t: int,
                                        first: int)
    requires TracksAll(schema, recs, txns) && t in txns && txns[t].stage.Running?
    ensures var ws := txns[t].writeSet;
            RolledTo(base, recs, recs, t, Ops(ws), |ws|, first) && ws[..|ws|] == ws && forall i :: 0 <= i < |ws| ==>
              IsWrite(ws[i].op)
  {
    hide TracksAll, OpsOf, Isolated, Unspoiled, Smooth, Kept;
    var ws := txns[t].writeSet;
    Tracked(schema, recs, txns, t);
    StartRolling(Ops(ws), ws);
    assert Ops(ws)[..|ws|] == Ops(ws);
    if Isolated(base, recs) && Unspoiled(recs, t) {
      SmoothStart(base, recs, t);
    }
  }

  lemma {:induction false} OpsPrefix(ws: seq<WriteRecord>, k: nat)
    requires k < |ws|
    ensures Ops(ws[..k + 1]) == Ops(ws)[..k + 1] && Ops(ws[..k]) == Ops(ws)[..k] && ws[..k + 1][..k] == ws[..k]
    ensures ws[..k + 1][k] == ws[k] && Ops(ws)[k] == ws[k].op
  {
  }

  lemma {:induction false} RolledNext(base: Records, recs0: seq<LogRecord>, recs: seq<LogRecord>, r: LogRecord, t: int,
                                      ops: seq<Op>, k: nat, first: int)
    requires RolledTo(base, recs0, recs, t, ops, k + 1, first) && r.tid == t && first <= r.lsn
    requires OpsOf(recs + [r], t) == OpsOf(recs, t) + [Inverse(ops[k])]
    requires Smooth(base, recs, t, ops[..k + 1]) ==> Smooth(base, recs + [r], t, ops[..k])
    ensures RolledTo(base, recs0, recs + [r], t, ops, k, first)
  {
    hide OpsOf, Isolated, Unspoiled, Smooth, Kept, Inverse, Reversed;
    KeptOne(recs, r, iset{t});
    ReversedNext(ops, k);
  }

  /** A rollback that stops at an error: somebody was in the way. */
  lemma {:induction false} RolledStops(base: Records, recs0: seq<LogRecord>, recs: seq<LogRecord>, t: int, ops: seq<Op>,
                                       k: nat, first: int)
    requires RolledTo(base, recs0, recs, t, ops, k, first) && !Smooth(base, recs, t, ops[..k])
    ensures Isolated(base, recs0) ==> !Unspoiled(recs0, t)
    ensures recs0 <= recs && OwnTail(recs0, recs, t, first) && Kept(recs, iset{t}) == Kept(recs0, iset{t})
  {
    hide OpsOf, Isolated, Unspoiled, Smooth, Kept, Reversed, OwnTail;
  }

  lemma {:induction false} RollbackDone(ops: seq<Op>, db: Records)
    requires forall i :: 0 <= i < |ops| ==> IsWrite(ops[i])
    ensures RollbackRun(ops, 0, db) == Some(db)
  {
  }

  lemma {:induction false} RollbackTurn(ops: seq<Op>, k: nat, db: Records)
    requires k < |ops| && forall i :: 0 <= i < |ops| ==> IsWrite(ops[i])
    ensures RollbackRun(ops, k + 1, db) ==
            if CanUndo(db, ops[k]) then RollbackRun(ops, k, Apply(db, Inverse(ops[k]))) else None
  {
    hide Apply;
  }

  /** At the end: the log is isolated if and only if nobody was in the way. */
  lemma {:induction false} RollingEnd(base: Records, recs0: seq<LogRecord>, recs: seq<LogRecord>, t: int, ops: seq<Op>,
                                      first: int)
    requires RolledTo(base, recs0, recs, t, ops, 0, first)
    ensures recs0 <= recs && OwnTail(recs0, recs, t, first) && Kept(recs, iset{t}) == Kept(recs0, iset{t})
    ensures OpsOf(recs, t) == ops + Reversed(ops, 0)
    ensures Isolated(base, recs0) ==> (Isolated(base, recs) <==> Unspoiled(recs0, t))
  {
    hide OpsOf, Reversed, WellFormed, LegalHistory, Contiguous, AbortsClean, Unspoiled, Remains, InTurn, Kept, OwnTail;
    if Isolated(base, recs) {
      assert recs[..|recs0|] == recs0 && recs[..|recs|] == recs;
      SpoiledBreaks(recs0, recs, t, ops);
    }
  }

  /** The abort record after it, and what pages there are then. */
  lemma {:induction false} AbortedPages(recs0: seq<LogRecord>, recs: seq<LogRecord>, r: LogRecord, t: int,
                                        lsns: map<PageId, int>, first: int)
    requires recs0 <= recs && OwnTail(recs0, recs, t, first) && r.tid == t && first <= r.lsn && 0 <= first
    requires forall p :: p in lsns ==> lsns[p] < first
    ensures forall p :: Clean(recs0, lsns, p) ==> Stale(recs + [r], t, |recs0|, |recs + [r]|, lsns, p)
  {
    hide Clean, Stale;
    var all := recs + [r];
    assert all[..|recs0|] == recs0;
    forall p | Clean(recs0, lsns, p) ensures Stale(all, t, |recs0|, |all|, lsns, p) {
      RollbackMakesStale(all, |recs0|, lsns, t, p);
    }
  }

  lemma {:induction false} GroundedRows(base: Records, recs: seq<LogRecord>, db: Records)
    requires Grounded(base, recs, db)
    ensures db == Replay(base, recs)
  {
    hide WellFormed, Replay;
  }

  /** A rolled back transaction has left no trace in an isolated log, even before its last record is logged. */
  lemma {:induction false} RolledBackInvisible(base: Records, recs: seq<LogRecord>, t: int, ops: seq<Op>)
    requires (forall i :: 0 <= i < |ops| ==> IsWrite(ops[i])) && OpsOf(recs, t) == ops + Reversed(ops, 0)
    ensures NetNone(OpsOf(recs, t))
    ensures Isolated(base, recs) ==> Replay(base, recs) == Replay(base, Kept(recs, iset{t}))
  {
    hide OpsOf, Reversed, NetNone, Replay, Kept, WellFormed, LegalHistory, Contiguous, AbortsClean;
    ReversedCancels(ops);
    if Isolated(base, recs) {
      Invisible(base, recs, t);
    }
  }

  // ----- what the log manager needs to know -----

  /** The inverse of a write in a write set can be logged. */
  lemma {:induction false} InverseStorable(schema: Schema, recs: seq<LogRecord>, txns: map<int, Txn>, t: int, lsn: int)
    requires TracksAll(schema, recs, txns) && AllStorable(recs) && t in txns && txns[t].writeSet != [] && Int32(lsn)
    ensures Storable(LogRecord(lsn, t, txns[t].prevLsn, Inverse(txns[t].writeSet[|txns[t].writeSet| - 1].op)))
  {
    hide TracksAll, OpsOf, KeysHandled;
    Tracked(schema, recs, txns, t);
    var n := |txns[t].writeSet| - 1;
    assert OpsOf(recs, t)[n] == Ops(txns[t].writeSet)[n];
    var i := OpFrom(recs, t, n);
    var j := LastOf(recs, t, |recs|);
    assert Storable(recs[i]) && Storable(recs[j]) && recs[j].tid == t;
  }

  lemma {:induction false} EmptyLog(schema: Schema, base: Records)
    ensures Grounded(base, [], base) && TracksAll(schema, [], map[]) && Isolated(base, []) &&
            Managed(schema, [], base, map[])
  {
  }

  lemma {:induction false} GlobalLsn(recs: seq<LogRecord>, flushed: nat, disk: seq<Byte>, mem: seq<Byte>, lsn: int,
                                     persistLsn: int)
    requires Stored(recs, flushed, disk, mem, lsn, persistLsn)
    ensures 0 <= lsn && NextLsn(recs, lsn) && AllStorable(recs)
  {
    hide FileBytes;
  }

  lemma {:induction false} ManagedKnows(schema: Schema, recs: seq<LogRecord>, db: Records, txns: map<int, Txn>)
    requires Managed(schema, recs, db, txns)
    ensures KnowsAll(schema, recs, db, txns)
  {
    hide KnowsAll, Settled, Harmless;
  }

  lemma {:induction false} ChainStorable(recs: seq<LogRecord>, t: int, prev: int, lsn: int, op: Op)
    requires AllStorable(recs) && ChainAt(recs, t, prev) && Ends(op) && Int32(lsn)
    ensures Storable(LogRecord(lsn, t, prev, op))
  {
    var i := LastOf(recs, t, |recs|);
    assert Storable(recs[i]) && recs[i].tid == t;
  }

  lemma {:induction false} ReversedNext(ops: seq<Op>, k: nat)
    requires k < |ops|
    ensures ops + Reversed(ops, k) == ops + Reversed(ops, k + 1) + [Inverse(ops[k])]
  {
    assert ops + (Reversed(ops, k + 1) + [Inverse(ops[k])]) == ops + Reversed(ops, k + 1) + [Inverse(ops[k])];
  }

  lemma {:induction false} StartRolling(ops: seq<Op>, ws: seq<WriteRecord>)
    ensures ops + Reversed(ops, |ops|) == ops && ws[..|ws|] == ws
  {
  }

  lemma {:induction false} TidsBelow(a: seq<LogRecord>, b: seq<LogRecord>, t: int, next: int)
    requires forall i :: 0 <= i < |a| ==> a[i].tid < next
    requires forall i :: 0 <= i < |b| ==> (i < |a| && b[i] == a[i]) || b[i].tid == t
    requires exists i :: 0 <= i < |a| && a[i].tid == t
    ensures forall i :: 0 <= i < |b| ==> b[i].tid < next
  {
  }
}

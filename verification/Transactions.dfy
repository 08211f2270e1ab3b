/**
 Running transactions: begin, the write executors, commit and abort, with log, rows, page LSNs and indexes.
 */
module Transactions {
  import opened Options
  import opened Sequences
  import opened LogCodec
  import opened LogFile
  import opened LogHistory
  import opened LogUndo
  import opened LogIsolation
  import opened LogWriter
  import opened TableIndexes
  import opened Rollback
  import opened StalePages
  import opened TransactionSteps

  ghost predicate KeysFreeFor(schema: Schema, ixs: Indexes, s: Slot, rec: seq<Byte>, own: bool) {
    forall id :: id in ixs && id in schema && schema[id].table == s.table ==>
      FreeIn(ixs[id], KeyOf(schema[id].cols, rec), s, own)
  }

  /** The key is unused, or, if that is allowed, used by the row itself. */
  predicate FreeIn(m: Index, key: seq<Byte>, s: Slot, own: bool) {
    key !in m || (own && m[key] == s)
  }

  /** The uniqueness checks of insert and update say whether the new row leaves keys unique. */
  lemma {:induction false} CheckMeans(schema: Schema, db: Records, ixs: Indexes, s: Slot, rec: seq<Byte>, own: bool)
    requires Consistent(schema, db, ixs) && (own || s !in db)
    ensures KeysFreeFor(schema, ixs, s, rec, own) <==> Unique(schema, db[s := rec], s.table)
  {
    hide KeyOf, Unique;
    CheckedUnique(schema, db, ixs, s, rec);
    forall id | id in schema ensures IndexIs(schema[id], db, ixs[id]) {
    }
  }

  /** The same for an update, which checks keys only if a key column is set. */
  lemma {:induction false} UpdateMeans(schema: Schema, db: Records, ixs: Indexes, op: Op, keySet: bool)
    requires op.Update? && Look(db, op.slot) == Some(op.before) && (!keySet ==> SameKeys(schema, op))
    ensures Consistent(schema, db, ixs) ==>
              ((keySet ==> KeysFreeFor(schema, ixs, op.slot, op.after, true)) <==>
               Unique(schema, db[op.slot := op.after], op.slot.table))
  {
    hide Consistent, KeysFreeFor, Unique, SameKeys;
    if Consistent(schema, db, ixs) {
      if keySet {
        CheckMeans(schema, db, ixs, op.slot, op.after, true);
      } else {
        KeepConsistent(schema, db, ixs, op);
        ConsistentUnique(schema, db[op.slot := op.after], ixs, op.slot.table);
      }
    }
  }

  lemma {:induction false} TwinMeans(schema: Schema, db: Records, ixs: Indexes, s: Slot, rec: seq<Byte>)
    ensures Consistent(schema, db, ixs) && RowsFit(schema, db[s := rec], s.table) ==>
              (Unique(schema, db[s := rec], s.table) <==> NoTwin(schema, db, s, rec))
  {
    hide Consistent, Unique, RowsFit, NoTwin;
    if Consistent(schema, db, ixs) && RowsFit(schema, db[s := rec], s.table) {
      ConsistentUnique(schema, db, ixs, s.table);
      UniqueMeans(schema, db, s, rec);
    }
  }

  class TransactionManager {
    const log: LogManager
    const schema: Schema
    var records: Records
    var pageLsn: map<PageId, int>
    var indexes: Indexes
    var txns: map<int, Txn>
    var nextTxnId: int

    ghost const base: Records

    /** What every step keeps: the log is complete and chained, the rows are what it says, write sets agree with it. */
    ghost predicate Sane()
      reads this, log, log.buffer
    {
      && log.Valid() && Grounded(base, log.recs, records) && TracksAll(schema, log.recs, txns)
      && 0 <= nextTxnId && (forall i :: 0 <= i < |log.recs| ==> log.recs[i].tid < nextTxnId)
      && (forall p :: p in pageLsn ==> pageLsn[p] < log.globalLsn)
    }

    /** Transactions have kept out of each other's way, and the indexes are exact. */
    ghost predicate Coherent()
      reads this, log, log.buffer
    {
      Sane() && Isolated(base, log.recs) && Consistent(schema, records, indexes)
    }

    /** And every transaction can be rolled back. */
    ghost predicate Valid()
      reads this, log, log.buffer
    {
      Coherent() && Managed(schema, log.recs, records, txns)
    }

    constructor (log: LogManager, schema: Schema, records: Records, indexes: Indexes)
      requires log.Valid() && log.recs == [] && Consistent(schema, records, indexes)
      ensures Valid() && this.log == log && this.schema == schema && base == this.records == records
      ensures this.indexes == indexes && txns == map[] && pageLsn == map[]
    {
      hide Grounded, TracksAll, Isolated, Managed, Consistent, Stored;
      this.log, this.schema, this.records, this.indexes, this.base := log, schema, records, indexes, records;
      txns, pageLsn, nextTxnId := map[], map[], 0;
      new;
      EmptyLog(schema, records);
    }

    method Begin() returns (t: int)
      requires Sane() && Int32(log.globalLsn) && Int32(nextTxnId)
      modifies `txns, `nextTxnId, log, log.buffer
      ensures Sane() && (Coherent() <==> old(Coherent())) && (old(Valid()) ==> Valid())
      ensures t == old(nextTxnId) && nextTxnId == t + 1 && txns == old(txns)[t := Txn(old(log.globalLsn), [], Running)]
      ensures log.recs == old(log.recs) + [LogRecord(old(log.globalLsn), t, INVALID_LSN, Op.Begin)]
    {
      hide Grounded, TracksAll, Isolated, Managed, Consistent, Stored, NextLsn;
      t := nextTxnId;
      nextTxnId := nextTxnId + 1;
      ghost var r, recs := LogRecord(log.globalLsn, t, INVALID_LSN, Op.Begin), log.recs;
      GlobalLsn(recs, log.flushed, log.disk, log.buffer[..log.offset], log.globalLsn, log.persistLsn);
      BeginOutcome(base, schema, recs, records, txns, r);
      var lsn := log.AddLogToBuffer(t, INVALID_LSN, Op.Begin);
      txns := txns[t := Txn(lsn, [], Running)];
    }

    /** Asks every index of the table for the key of the row. */
    method CheckKeys(s: Slot, rec: seq<Byte>, own: bool) returns (free: bool)
      ensures free == KeysFreeFor(schema, indexes, s, rec, own)
    {
      hide KeyOf;
      var todo := indexes.Keys;
      while todo != {}
        invariant todo <= indexes.Keys
        invariant forall id :: id in indexes && id !in todo && id in schema && schema[id].table == s.table ==>
                    FreeIn(indexes[id], KeyOf(schema[id].cols, rec), s, own)
        decreases todo
      {
        ghost var some := SomeMember(todo);
        var id :| id in todo;
        if id in schema && schema[id].table == s.table {
          var key := MakeKey(schema[id].cols, rec);
          if key in indexes[id] && !(own && indexes[id][key] == s) {
            return false;
          }
        }
        todo := todo - {id};
      }
      return true;
    }

    /** Adds the key of a row to every index of its table. */
    method InsertIndexes(s: Slot, rec: seq<Byte>)
      modifies `indexes
      ensures indexes == InsertKeys(schema, old(indexes), s, rec)
    {
      hide KeyOf;
      ghost var goal := InsertKeys(schema, indexes, s, rec);
      var todo := indexes.Keys;
      while todo != {}
        invariant todo <= indexes.Keys == old(indexes).Keys
        invariant forall id :: id in indexes ==> indexes[id] == if id in todo then old(indexes)[id] else goal[id]
        decreases todo
      {
        ghost var some := SomeMember(todo);
        var id :| id in todo;
        if id in schema && schema[id].table == s.table {
          var key := MakeKey(schema[id].cols, rec);
          if key !in indexes[id] {
            indexes := indexes[id := indexes[id][key := s]];
          }
        }
        todo := todo - {id};
      }
      SameIndexes(indexes, goal);
    }

    /** Takes the key of a row out of every index of its table. */
    method DeleteIndexes(s: Slot, rec: seq<Byte>)
      modifies `indexes
      ensures indexes == DeleteKeys(schema, old(indexes), s, rec)
    {
      hide KeyOf;
      ghost var goal := DeleteKeys(schema, indexes, s, rec);
      var todo := indexes.Keys;
      while todo != {}
        invariant todo <= indexes.Keys == old(indexes).Keys
        invariant forall id :: id in indexes ==> indexes[id] == if id in todo then old(indexes)[id] else goal[id]
        decreases todo
      {
        ghost var some := SomeMember(todo);
        var id :| id in todo;
        if id in schema && schema[id].table == s.table {
          var key := MakeKey(schema[id].cols, rec);
          indexes := indexes[id := indexes[id] - {key}];
        }
        todo := todo - {id};
      }
      SameIndexes(indexes, goal);
    }

    /** Keeps the indexes in step with a write. */
    method DoIndexes(w: WriteRecord)
      modifies `indexes
      ensures indexes == DoKeys(schema, old(indexes), w)
    {
      hide InsertKeys, DeleteKeys;
      match w.op {
        case Insert(s, v) => InsertIndexes(s, v);
        case Delete(s, v) => DeleteIndexes(s, v);
        case Update(s, v, x) =>
          if w.keySet {
            DeleteIndexes(s, v);
            InsertIndexes(s, x);
          }
        case _ =>
      }
    }

    /**
     A write of a running transaction: row, log, page LSN, indexes and write set. The log stays isolated if and only if
     nobody else has written the slot since the transaction last did. If every transaction could be rolled back before,
     each still can be if, and when the write changes its slot only if, it is apart from the write sets of the others.
     */
    method DoWrite(t: int, w: WriteRecord)
      requires Sane() && t in txns && txns[t].stage.Running? && KeysHandled(schema, w)
      requires Look(records, w.op.slot) == Before(w.op) && Storable(LogRecord(log.globalLsn, t, txns[t].prevLsn, w.op))
      modifies this, log, log.buffer
      ensures Sane() && nextTxnId == old(nextTxnId)
      ensures records == Apply(old(records), w.op) && indexes == DoKeys(schema, old(indexes), w)
      ensures pageLsn == old(pageLsn)[PageOf(w.op.slot) := old(log.globalLsn)]
      ensures log.recs == old(log.recs) + [LogRecord(old(log.globalLsn), t, old(txns[t]).prevLsn, w.op)]
      ensures txns == old(txns)[t := Txn(old(log.globalLsn), old(txns[t]).writeSet + [w], Running)]
      ensures Isolated(base, log.recs) <==> old(Isolated(base, log.recs)) && Unbroken(old(log.recs), t, w.op.slot)
      ensures old(Consistent(schema, records, indexes)) && Unique(schema, records, w.op.slot.table) ==>
                Consistent(schema, records, indexes)
      ensures old(Valid()) && Unique(schema, records, w.op.slot.table) ==>
                && Coherent()
                && (MayWrite(schema, old(txns), t, w.op) ==> Valid())
                && (Before(w.op) != After(w.op) && Valid() ==> MayWrite(schema, old(txns), t, w.op))
    {
      hide Grounded, TracksAll, Isolated, Managed, Consistent, Stored, MayWrite, Storable, Apply, Unique, DoKeys,
           KeysHandled, NextLsn, Unbroken, TotalLength;
      WritesHandled(schema, w);
      ghost var r, recs := LogRecord(log.globalLsn, t, txns[t].prevLsn, w.op), log.recs;
      GlobalLsn(recs, log.flushed, log.disk, log.buffer[..log.offset], log.globalLsn, log.persistLsn);
      WriteOutcome(base, schema, recs, r, records, indexes, txns, w);
      var lsn := log.AddLogToBuffer(t, txns[t].prevLsn, w.op);
      TidsBelow(recs, log.recs, t, nextTxnId);
      records := Apply(records, w.op);
      pageLsn := pageLsn[PageOf(w.op.slot) := lsn];
      DoIndexes(w);
      txns := txns[t := Txn(lsn, txns[t].writeSet + [w], Running)];
    }

    /**
     `InsertExecutor`: refused if the gap locks are in the way, which `safe` tells, or some key is in use; else the row
     goes to the free slot `s`.
     */
    method InsertRow(t: int, s: Slot, rec: seq<Byte>, safe: bool) returns (ok: bool)
      requires Sane() && t in txns && txns[t].stage.Running? && s !in records
      requires Storable(LogRecord(log.globalLsn, t, txns[t].prevLsn, Insert(s, rec)))
      modifies this, log, log.buffer
      ensures Sane() && nextTxnId == old(nextTxnId)
      ensures ok <==> safe && KeysFreeFor(schema, old(indexes), s, rec, false)
      ensures old(Coherent()) ==> (ok <==> safe && Unique(schema, old(records)[s := rec], s.table))
      ensures old(Coherent()) && RowsFit(schema, old(records)[s := rec], s.table) ==>
                (ok <==> safe && NoTwin(schema, old(records), s, rec))
      ensures ok ==> records == old(records)[s := rec] && pageLsn == old(pageLsn)[PageOf(s) := old(log.globalLsn)]
      ensures ok ==> indexes == DoKeys(schema, old(indexes), WriteRecord(Insert(s, rec), true))
      ensures ok ==>
                log.recs == old(log.recs) + [LogRecord(old(log.globalLsn), t, old(txns[t]).prevLsn, Insert(s, rec))]
      ensures ok ==>
                txns == old(txns)[t := Txn(old(log.globalLsn),
                                           old(txns[t]).writeSet + [WriteRecord(Insert(s, rec), true)], Running)]
      ensures ok && old(Coherent()) ==> (Coherent() <==> Unbroken(old(log.recs), t, s))
      ensures ok && old(Valid()) ==> Coherent() && (Valid() <==> MayWrite(schema, old(txns), t, Insert(s, rec)))
      ensures !ok ==> records == old(records) && indexes == old(indexes) && pageLsn == old(pageLsn)
      ensures !ok ==> txns == old(txns) && log.recs == old(log.recs)
    {
      hide Grounded, TracksAll, Isolated, Managed, Consistent, Stored, MayWrite, Storable, Unique, DoKeys, KeysFreeFor,
           Unbroken, RowsFit, NoTwin;
      if Consistent(schema, records, indexes) {
        CheckMeans(schema, records, indexes, s, rec, false);
        TwinMeans(schema, records, indexes, s, rec);
      }
      ok := safe;
      if ok {
        ok := CheckKeys(s, rec, false);
      }
      if ok {
        DoWrite(t, WriteRecord(Insert(s, rec), true));
      }
    }

    /** `DeleteExecutor`, for one row. */
    method DeleteRow(t: int, s: Slot) returns (ok: bool)
      requires Sane() && t in txns && txns[t].stage.Running?
      requires s in records ==> Storable(LogRecord(log.globalLsn, t, txns[t].prevLsn, Delete(s, records[s])))
      modifies this, log, log.buffer
      ensures Sane() && nextTxnId == old(nextTxnId) && (ok <==> s in old(records))
      ensures ok ==> records == old(records) - {s} && pageLsn == old(pageLsn)[PageOf(s) := old(log.globalLsn)]
      ensures ok ==> indexes == DoKeys(schema, old(indexes), WriteRecord(Delete(s, old(records)[s]), true))
      ensures ok ==>
                log.recs ==
                old(log.recs) + [LogRecord(old(log.globalLsn), t, old(txns[t]).prevLsn, Delete(s, old(records)[s]))]
      ensures ok ==>
                txns == old(txns)[t := Txn(old(log.globalLsn),
                                           old(txns[t]).writeSet + [WriteRecord(Delete(s, old(records)[s]), true)],
                                           Running)]
      ensures ok && old(Coherent()) ==> (Coherent() <==> Unbroken(old(log.recs), t, s))
      ensures ok && old(Valid()) ==>
                Coherent() && (Valid() <==> MayWrite(schema, old(txns), t, Delete(s, old(records)[s])))
      ensures !ok ==> records == old(records) && indexes == old(indexes) && pageLsn == old(pageLsn)
      ensures !ok ==> txns == old(txns) && log.recs == old(log.recs)
    {
      hide Grounded, TracksAll, Isolated, Managed, Consistent, Stored, MayWrite, Storable, Unique, DoKeys, DeleteKeys,
           Unbroken;
      if s !in records {
        return false;
      }
      if Consistent(schema, records, indexes) {
        DeleteConsistent(schema, records, indexes, s);
        ConsistentUnique(schema, records - {s}, DeleteKeys(schema, indexes, s, records[s]), s.table);
      }
      DoWrite(t, WriteRecord(Delete(s, records[s]), true));
      return true;
    }

    /** `UpdateExecutor`, for one row; `keySet` says whether a column of an index is set. */
    method UpdateRow(t: int, s: Slot, rec: seq<Byte>, keySet: bool) returns (ok: bool)
      requires Sane() && t in txns && txns[t].stage.Running?
      requires s in records ==> Storable(LogRecord(log.globalLsn, t, txns[t].prevLsn, Update(s, records[s], rec)))
      requires s in records && !keySet ==> SameKeys(schema, Update(s, records[s], rec))
      modifies this, log, log.buffer
      ensures Sane() && nextTxnId == old(nextTxnId)
      ensures ok <==> s in old(records) && (keySet ==> KeysFreeFor(schema, old(indexes), s, rec, true))
      ensures old(Coherent()) ==> (ok <==> s in old(records) && Unique(schema, old(records)[s := rec], s.table))
      ensures old(Coherent()) && RowsFit(schema, old(records)[s := rec], s.table) ==>
                (ok <==> s in old(records) && NoTwin(schema, old(records), s, rec))
      ensures ok ==> records == old(records)[s := rec] && pageLsn == old(pageLsn)[PageOf(s) := old(log.globalLsn)]
      ensures ok ==> indexes == DoKeys(schema, old(indexes), WriteRecord(Update(s, old(records)[s], rec), keySet))
      ensures ok ==>
                log.recs == old(log.recs) +
                [LogRecord(old(log.globalLsn), t, old(txns[t]).prevLsn, Update(s, old(records)[s], rec))]
      ensures ok ==>
                txns == old(txns)[t := Txn(old(log.globalLsn),
                                           old(txns[t]).writeSet +
                                           [WriteRecord(Update(s, old(records)[s], rec), keySet)],
                                           Running)]
      ensures ok && old(Coherent()) ==> (Coherent() <==> Unbroken(old(log.recs), t, s))
      ensures ok && old(Valid()) ==> Coherent()
      ensures ok && old(Valid()) && MayWrite(schema, old(txns), t, Update(s, old(records)[s], rec)) ==> Valid()
      ensures ok && old(Valid()) && rec != old(records)[s] && Valid() ==>
                MayWrite(schema, old(txns), t, Update(s, old(records)[s], rec))
      ensures !ok ==> records == old(records) && indexes == old(indexes) && pageLsn == old(pageLsn)
      ensures !ok ==> txns == old(txns) && log.recs == old(log.recs)
    {
      hide Grounded, TracksAll, Isolated, Managed, Consistent, Stored, MayWrite, Storable, Unique, DoKeys, KeysFreeFor,
           SameKeys, Unbroken, RowsFit, NoTwin;
      if s !in records {
        return false;
      }
      var op := Update(s, records[s], rec);
      UpdateMeans(schema, records, indexes, op, keySet);
      TwinMeans(schema, records, indexes, s, rec);
      if keySet {
        ok := CheckKeys(s, rec, true);
        if !ok {
          return;
        }
      }
      DoWrite(t, WriteRecord(op, keySet));
      return true;
    }

    /** Frees the write set and releases the locks: from here on others may write the same rows. */
    method ReleaseLocks(t: int)
      requires Sane() && t in txns && (txns[t].stage.Running? || (txns[t].stage.RollingBack? && txns[t].writeSet == []))
      modifies `txns
      ensures Sane() && (Coherent() <==> old(Coherent())) && (old(Valid()) ==> Valid())
      ensures txns == old(txns)[t := Txn(old(txns[t]).prevLsn, [],
                                         if old(txns[t]).stage.Running? then Committing else Aborting)]
    {
      hide Grounded, TracksAll, Isolated, Managed, Consistent, Stored;
      var x := Txn(txns[t].prevLsn, [], if txns[t].stage.Running? then Committing else Aborting);
      ReleaseTracked(schema, log.recs, txns, t, x);
      if Managed(schema, log.recs, records, txns) {
        ReleaseManaged(schema, log.recs, records, txns, t, x);
      }
      txns := txns[t := x];
    }

    /**
     Logs the last record of a transaction whose locks are gone. An abort is clean if its writes have cancelled out.
     */
    method LogEnd(t: int)
      requires Sane() && t in txns && (txns[t].stage.Committing? || txns[t].stage.Aborting?) && Int32(log.globalLsn)
      modifies `txns, log, log.buffer
      ensures Sane() && txns == old(txns) - {t} && (old(Valid()) ==> Valid())
      ensures Isolated(base, log.recs) <==>
              old(Isolated(base, log.recs)) && (old(txns[t]).stage.Aborting? ==> NetNone(OpsOf(old(log.recs), t)))
      ensures var op := if old(txns[t]).stage.Committing? then Op.Commit else Op.Abort;
              log.recs == old(log.recs) + [LogRecord(old(log.globalLsn), t, old(txns[t]).prevLsn, op)]
    {
      hide Grounded, TracksAll, Isolated, Managed, Consistent, Stored, NextLsn, Storable, AllStorable, ChainAt, NetNone,
           OpsOf, Tracks;
      var op := if txns[t].stage.Committing? then Op.Commit else Op.Abort;
      ghost var r, recs := LogRecord(log.globalLsn, t, txns[t].prevLsn, op), log.recs;
      GlobalLsn(recs, log.flushed, log.disk, log.buffer[..log.offset], log.globalLsn, log.persistLsn);
      Tracked(schema, recs, txns, t);
      ChainStorable(recs, t, txns[t].prevLsn, log.globalLsn, op);
      EndOutcome(base, schema, recs, records, txns, r);
      var lsn := log.AddLogToBuffer(t, txns[t].prevLsn, op);
      txns := txns - {t};
      TidsBelow(recs, log.recs, t, nextTxnId);
    }

    method Commit(t: int)
      requires Sane() && t in txns && txns[t].stage.Running? && Int32(log.globalLsn)
      modifies `txns, log, log.buffer
      ensures Sane() && (Coherent() <==> old(Coherent())) && (old(Valid()) ==> Valid()) && txns == old(txns) - {t}
      ensures log.recs == old(log.recs) + [LogRecord(old(log.globalLsn), t, old(txns[t]).prevLsn, Op.Commit)]
    {
      hide Grounded, TracksAll, Isolated, Managed, Consistent, Stored;
      ReleaseLocks(t);
      LogEnd(t);
    }

    method StartRollback(t: int)
      requires Sane() && t in txns && txns[t].stage.Running?
      modifies `txns
      ensures Sane() && (Coherent() <==> old(Coherent())) && (old(Valid()) ==> Valid())
      ensures txns == old(txns)[t := old(txns[t]).(stage := RollingBack)]
    {
      hide Grounded, TracksAll, Isolated, Managed, Consistent, Stored;
      RollingTracked(schema, log.recs, txns, t);
      if Managed(schema, log.recs, records, txns) {
        RollingManaged(schema, log.recs, records, txns, t);
      }
      txns := txns[t := txns[t].(stage := RollingBack)];
    }

    /**
     One turn of the rollback loop: the inverse of the last write, logged as an ordinary record; an error if there is no
     row to take back. The page LSN stays. The log stays isolated if and only if the slot is as the write left it and
     nobody else has written it since.
     */
    method UndoLast(t: int) returns (ok: bool)
      requires Sane() && t in txns && txns[t].stage.RollingBack? && txns[t].writeSet != [] && Int32(log.globalLsn)
      modifies `records, `indexes, `txns, log, log.buffer
      ensures Sane()
      ensures var w := old(txns[t]).writeSet[|old(txns[t]).writeSet| - 1];
              IsWrite(w.op) && IsWrite(Inverse(w.op)) && (ok <==> CanUndo(old(records), w.op))
      ensures !ok ==> records == old(records) && indexes == old(indexes) && txns == old(txns)
      ensures !ok ==> log.recs == old(log.recs) && log.globalLsn == old(log.globalLsn)
      ensures ok ==>
                var ws := old(txns[t]).writeSet;
                var n, w := |ws| - 1, ws[|ws| - 1];
                && records == Apply(old(records), Inverse(w.op)) && log.globalLsn == old(log.globalLsn) + 1
                && indexes == DoKeys(schema, old(indexes), WriteRecord(Inverse(w.op), w.keySet))
                && log.recs == old(log.recs) + [LogRecord(old(log.globalLsn), t, old(txns[t]).prevLsn, Inverse(w.op))]
                && txns == old(txns)[t := Txn(old(log.globalLsn), ws[..n], RollingBack)]
                && OpsOf(log.recs, t) == OpsOf(old(log.recs), t) + [Inverse(w.op)]
      ensures ok ==>
                var w := old(txns[t]).writeSet[|old(txns[t]).writeSet| - 1];
                && (Isolated(base, log.recs) <==>
                    && old(Isolated(base, log.recs)) && Look(old(records), w.op.slot) == After(w.op)
                    && Unbroken(old(log.recs), t, w.op.slot))
                && (old(Consistent(schema, records, indexes)) && Look(old(records), w.op.slot) == After(w.op) ==>
                      (Consistent(schema, records, indexes) <==> Unique(schema, records, w.op.slot.table)))
      ensures Smooth(base, old(log.recs), t, Ops(old(txns[t]).writeSet)) ==>
                ok && Smooth(base, log.recs, t, Ops(txns[t].writeSet))
      ensures Undoable(schema, old(records), old(txns[t]).writeSet) ==>
                && ok && Undoable(schema, records, txns[t].writeSet)
                && (old(Consistent(schema, records, indexes)) ==> Consistent(schema, records, indexes))
      ensures old(Valid()) ==> ok && Valid()
    {
      hide Grounded, TracksAll, Isolated, Managed, Consistent, Stored, NextLsn, Storable, AllStorable, Apply, Unique,
           DoKeys, KeysHandled, Undoable, Smooth, Unbroken, OpsOf, Put;
      var ws := txns[t].writeSet;
      var n, w := |ws| - 1, ws[|ws| - 1];
      ghost var r, recs := LogRecord(log.globalLsn, t, txns[t].prevLsn, Inverse(w.op)), log.recs;
      GlobalLsn(recs, log.flushed, log.disk, log.buffer[..log.offset], log.globalLsn, log.persistLsn);
      InverseStorable(schema, recs, txns, t, log.globalLsn);
      UndoOutcome(base, schema, recs, r, records, txns);
      InverseRows(schema, records, indexes, ws);
      if !w.op.Delete? && w.op.slot !in records {
        return false;
      }
      records := Apply(records, Inverse(w.op));
      DoIndexes(WriteRecord(Inverse(w.op), w.keySet));
      var lsn := log.AddLogToBuffer(t, txns[t].prevLsn, Inverse(w.op));
      txns := txns[t := Txn(lsn, ws[..n], RollingBack)];
      TidsBelow(recs, log.recs, t, nextTxnId);
      ok := true;
    }

    /**
     The rollback loop of `abort`, on whatever the rows are: it does the run that undoes the write set, the last write
     first, and fails exactly if an insert or update meets no row. It comes to its end with an isolated log if and only
     if nobody else has written a slot of the transaction since it last did.
     */
    method RollBack(t: int) returns (ok: bool)
      requires Sane() && t in txns && txns[t].stage.Running? && log.globalLsn + |txns[t].writeSet| <= TWO_31
      modifies `records, `indexes, `txns, log, log.buffer
      ensures Sane() && t in txns && txns[t].stage.RollingBack? && txns == old(txns)[t := txns[t]]
      ensures var ops := Ops(old(txns[t]).writeSet);
              && (forall i :: 0 <= i < |ops| ==> IsWrite(ops[i]))
              && (ok <==> RollbackRun(ops, |ops|, old(records)).Some?)
              && (ok ==> RollbackRun(ops, |ops|, old(records)) == Some(records) && txns[t].writeSet == [])
              && (ok ==> OpsOf(log.recs, t) == ops + Reversed(ops, 0))
      ensures old(log.recs) <= log.recs && Kept(log.recs, iset{t}) == Kept(old(log.recs), iset{t})
      ensures OwnTail(old(log.recs), log.recs, t, old(log.globalLsn))
      ensures old(log.globalLsn) <= log.globalLsn <= old(log.globalLsn) + |old(txns[t]).writeSet|
      ensures old(Isolated(base, log.recs)) ==> (ok && Isolated(base, log.recs) <==> Unspoiled(old(log.recs), t))
      ensures old(Coherent()) && Unspoiled(old(log.recs), t) &&
              Undoable(schema, old(records), old(txns[t]).writeSet) ==>
                Coherent()
      ensures old(Valid()) ==> ok && Valid()
    {
      hide Grounded, TracksAll, Isolated, Managed, Consistent, Stored, OpsOf, Kept, Reversed, Apply, DoKeys, NextLsn,
           AllStorable, KeysHandled, Unique, Unbroken, Unspoiled, Smooth, Undoable, Tracks, Inverse, Put, RolledTo,
           RollbackRun;
      var ws := txns[t].writeSet;
      ghost var recs0, first := log.recs, log.globalLsn;
      RollingStart(base, schema, recs0, txns, t, first);
      StartRollback(t);
      while txns[t].writeSet != []
        invariant Sane() && t in txns && txns[t].stage.RollingBack? && txns == old(txns)[t := txns[t]]
        invariant |txns[t].writeSet| <= |ws| && txns[t].writeSet == ws[..|txns[t].writeSet|]
        invariant log.globalLsn == old(log.globalLsn) + |ws| - |txns[t].writeSet|
        invariant RolledTo(base, recs0, log.recs, t, Ops(ws), |txns[t].writeSet|, first)
        invariant RollbackRun(Ops(ws), |txns[t].writeSet|, records) == RollbackRun(Ops(ws), |ws|, old(records))
        invariant old(Consistent(schema, records, indexes)) && Undoable(schema, old(records), ws) ==>
                    Consistent(schema, records, indexes) && Undoable(schema, records, txns[t].writeSet)
        invariant old(Valid()) ==> Valid()
        decreases |txns[t].writeSet|
      {
        ghost var recs, k, db := log.recs, |txns[t].writeSet| - 1, records;
        GlobalLsn(recs, log.flushed, log.disk, log.buffer[..log.offset], log.globalLsn, log.persistLsn);
        OpsPrefix(ws, k);
        ok := UndoLast(t);
        RollbackTurn(Ops(ws), k, db);
        if !ok {
          RolledStops(base, recs0, recs, t, Ops(ws), k + 1, first);
          return;
        }
        RolledNext(base, recs0, recs, log.recs[|recs|], t, Ops(ws), k, first);
      }
      RollingEnd(base, recs0, log.recs, t, Ops(ws), first);
      RollbackDone(Ops(ws), records);
      ok := true;
    }

    /** The end of `abort`, once the write set is undone. */
    method EndAbort(t: int)
      requires Sane() && t in txns && txns[t].stage.RollingBack? && txns[t].writeSet == [] && Int32(log.globalLsn)
      modifies `txns, log, log.buffer
      ensures Sane() && txns == old(txns) - {t} && (old(Valid()) ==> Valid())
      ensures log.recs == old(log.recs) + [LogRecord(old(log.globalLsn), t, old(txns[t]).prevLsn, Op.Abort)]
      ensures Isolated(base, log.recs) <==> old(Isolated(base, log.recs)) && NetNone(OpsOf(old(log.recs), t))
    {
      hide Grounded, TracksAll, Isolated, Managed, Consistent, Stored, NetNone, OpsOf;
      ReleaseLocks(t);
      LogEnd(t);
    }

    /**
     Undoes the write set from its end, logging every inverse as an ordinary record; releases the locks; logs the abort.
     If nobody else has written a slot of the transaction since it last did, rows end as if it had never run, and only
     then does the log stay isolated; if the write set could be undone, indexes stay exact. Pages keep their LSNs.
     */
    method Abort(t: int) returns (ok: bool)
      requires Sane() && t in txns && txns[t].stage.Running? && log.globalLsn + |txns[t].writeSet| < TWO_31
      modifies `records, `indexes, `txns, log, log.buffer
      ensures Sane() && old(log.recs) <= log.recs && Kept(log.recs, iset{t}) == Kept(old(log.recs), iset{t})
      ensures var ops := Ops(old(txns[t]).writeSet);
              && (forall i :: 0 <= i < |ops| ==> IsWrite(ops[i]))
              && (ok <==> RollbackRun(ops, |ops|, old(records)).Some?)
              && (ok ==> RollbackRun(ops, |ops|, old(records)) == Some(records) && txns == old(txns) - {t})
              && (ok ==> OpsOf(log.recs, t) == ops + Reversed(ops, 0))
      ensures !ok ==> t in txns && txns[t].stage.RollingBack? && txns == old(txns)[t := txns[t]]
      ensures old(Isolated(base, log.recs)) ==> (ok && Isolated(base, log.recs) <==> Unspoiled(old(log.recs), t))
      ensures old(Isolated(base, log.recs)) && Unspoiled(old(log.recs), t) ==>
                records == Replay(base, Kept(old(log.recs), iset{t}))
      ensures old(Coherent()) && Unspoiled(old(log.recs), t) &&
              Undoable(schema, old(records), old(txns[t]).writeSet) ==>
                Coherent()
      ensures old(Valid()) ==> ok && Valid() && Unspoiled(old(log.recs), t)
      ensures ok ==>
                forall p :: Clean(old(log.recs), pageLsn, p) ==>
                  Stale(log.recs, t, |old(log.recs)|, |log.recs|, pageLsn, p)
    {
      hide Grounded, TracksAll, Isolated, Managed, Consistent, Stored, OpsOf, Kept, Reversed, Replay, Clean, Stale,
           Apply,
           DoKeys, NextLsn, AllStorable, Unspoiled, Undoable, RollbackRun, NetNone, Unbroken;
      GlobalLsn(log.recs, log.flushed, log.disk, log.buffer[..log.offset], log.globalLsn, log.persistLsn);
      ghost var first, recs0, ops := log.globalLsn, log.recs, Ops(txns[t].writeSet);
      if Managed(schema, recs0, records, txns) {
        RunningUnspoiled(schema, recs0, records, txns, t);
      }
      ok := RollBack(t);
      if !ok {
        return;
      }
      ghost var recs := log.recs;
      GroundedRows(base, recs, records);
      RolledBackInvisible(base, recs, t, ops);
      EndAbort(t);
      AbortedPages(recs0, recs, log.recs[|recs|], t, pageLsn, first);
      KeptOne(recs, log.recs[|recs|], iset{t});
      OpsOfOne(recs, log.recs[|recs|], t);
    }
  }

  lemma {:induction false} SameIndexes(a: Indexes, b: Indexes)
    requires a.Keys == b.Keys && forall id :: id in a ==> a[id] == b[id]
    ensures a == b
  {
    forall id ensures id in a <==> id in b {
      assert id in a.Keys <==> id in b.Keys;
    }
    forall id | id in a ensures a[id] == b[id] {
    }
  }
}

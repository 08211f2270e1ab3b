/**
 Rolling a transaction back: inverse writes, and why they cancel out.
 */
module Rollback {
  import opened Options
  import opened LogCodec
  import opened LogHistory
  import opened LogUndo
  import opened LogUndoExact
  import opened LogIsolation
  import opened TableIndexes

  function Inverse(op: Op): Op {
    match op
    case Insert(s, v) => Delete(s, v)
    case Delete(s, v) => Insert(s, v)
    case Update(s, v, w) => Update(s, w, v)
    case _ => op
  }

  lemma {:induction false} InverseUndoes(op: Op)
    requires IsWrite(op)
    ensures IsWrite(Inverse(op)) && Inverse(op).slot == op.slot && Before(Inverse(op)) == After(op) &&
            After(Inverse(op)) == Before(op)
  {
  }

  function Ops(ws: seq<WriteRecord>): (ops: seq<Op>)
    ensures |ops| == |ws| && forall i :: 0 <= i < |ws| ==> ops[i] == ws[i].op
  {
    seq(|ws|, i requires 0 <= i < |ws| => ws[i].op)
  }

  /** The inverse writes for `ops[k..]`, last first. */
  function Reversed(ops: seq<Op>, k: nat): seq<Op>
    requires k <= |ops|
    decreases |ops| - k
  {
    if k == |ops| then [] else Reversed(ops, k + 1) + [Inverse(ops[k])]
  }

  // ----- the writes cancel out -----

  lemma {:induction false} FirstOfCons(op: Op, rest: seq<Op>, s: Slot)
    ensures FirstBefore([op] + rest, s) == if Writes(op, s) then Some(Before(op)) else FirstBefore(rest, s)
    decreases |rest|
  {
    if rest == [] {
      assert [op] + rest == [] + [op];
      FirstBeforeOne([], op, s);
    } else {
      var n := |rest| - 1;
      assert [op] + rest == ([op] + rest[..n]) + [rest[n]];
      assert rest == rest[..n] + [rest[n]];
      FirstOfCons(op, rest[..n], s);
      FirstBeforeOne([op] + rest[..n], rest[n], s);
      FirstBeforeOne(rest[..n], rest[n], s);
    }
  }

  lemma {:induction false} FirstOfPrefix(a: seq<Op>, b: seq<Op>, s: Slot)
    requires FirstBefore(a, s).Some?
    ensures FirstBefore(a + b, s) == FirstBefore(a, s)
    decreases |b|
  {
    if b == [] {
      assert a + b == a;
    } else {
      var n := |b| - 1;
      assert a + b == (a + b[..n]) + [b[n]];
      FirstOfPrefix(a, b[..n], s);
      FirstBeforeOne(a + b[..n], b[n], s);
    }
  }

  /** After the inverses of `ops[k..]`, a slot is as the first of these found it. */
  lemma {:induction false} ReversedLast(ops: seq<Op>, k: nat, s: Slot)
    requires k <= |ops| && forall i :: 0 <= i < |ops| ==> IsWrite(ops[i])
    ensures LastAfter(ops + Reversed(ops, k), s) ==
            if FirstBefore(ops[k..], s).Some? then FirstBefore(ops[k..], s) else LastAfter(ops[..k], s)
    decreases |ops| - k
  {
    hide FirstBefore, LastAfter;
    if k == |ops| {
      assert ops + Reversed(ops, k) == ops && ops[..k] == ops && ops[k..] == [];
      NothingFirst(s);
    } else {
      ReversedLast(ops, k + 1, s);
      InverseUndoes(ops[k]);
      assert ops + Reversed(ops, k) == (ops + Reversed(ops, k + 1)) + [Inverse(ops[k])];
      LastAfterOne(ops + Reversed(ops, k + 1), Inverse(ops[k]), s);
      assert ops[k..] == [ops[k]] + ops[k + 1..];
      FirstOfCons(ops[k], ops[k + 1..], s);
      assert ops[..k + 1] == ops[..k] + [ops[k]];
      LastAfterOne(ops[..k], ops[k], s);
    }
  }

  lemma {:induction false} NothingFirst(s: Slot)
    ensures FirstBefore([], s) == None && LastAfter([], s) == None
  {
  }

  lemma {:induction false} ReversedCancels(ops: seq<Op>)
    requires forall i :: 0 <= i < |ops| ==> IsWrite(ops[i])
    ensures NetNone(ops + Reversed(ops, 0))
  {
    hide FirstBefore, LastAfter, Reversed;
    var all := ops + Reversed(ops, 0);
    forall s ensures FirstBefore(all, s) == LastAfter(all, s) {
      ReversedLast(ops, 0, s);
      assert ops[0..] == ops && ops[..0] == [];
      NothingFirst(s);
      BothOrNone(all, s);
      if FirstBefore(ops, s).Some? {
        FirstOfPrefix(ops, Reversed(ops, 0), s);
      }
    }
  }

  // ----- half way through -----

  /** Undoing `rest` from its end is what is left to take `ops` back. */
  ghost predicate Remains(ops: seq<Op>, rest: seq<Op>) {
    forall s :: RemainsAt(ops, rest, s)
  }

  ghost predicate RemainsAt(ops: seq<Op>, rest: seq<Op>, s: Slot) {
    if LastAfter(rest,
                 s).Some? then LastAfter(ops, s) == LastAfter(rest, s) && FirstBefore(ops, s) == FirstBefore(rest, s)
    else FirstBefore(ops, s) == LastAfter(ops, s)
  }

  lemma {:induction false} RemainsAll(ops: seq<Op>)
    ensures Remains(ops, ops)
  {
    hide FirstBefore, LastAfter;
    forall s ensures RemainsAt(ops, ops, s) {
      BothOrNone(ops, s);
    }
  }

  lemma {:induction false} RemainsNone(ops: seq<Op>)
    ensures Remains(ops, []) <==> NetNone(ops)
  {
    hide FirstBefore, LastAfter;
    forall s ensures RemainsAt(ops, [], s) <==> FirstBefore(ops, s) == LastAfter(ops, s) {
      NothingFirst(s);
    }
    if NetNone(ops) {
      forall s ensures RemainsAt(ops, [], s) {
        NetFirst(ops, s);
      }
    }
    if Remains(ops, []) {
      forall s ensures FirstBefore(ops, s) == LastAfter(ops, s) {
        assert RemainsAt(ops, [], s);
      }
    }
  }

  /** One inverse write further. */
  lemma {:induction false} RemainsLess(ops: seq<Op>, rest: seq<Op>, op: Op)
    requires Remains(ops, rest + [op]) && IsWrite(op) &&
             (LastAfter(rest, op.slot).Some? ==> LastAfter(rest, op.slot) == Some(Before(op)))
    ensures Remains(ops + [Inverse(op)], rest)
  {
    hide FirstBefore, LastAfter;
    InverseUndoes(op);
    forall s ensures RemainsAt(ops + [Inverse(op)], rest, s) {
      assert RemainsAt(ops, rest + [op], s);
      LastAfterOne(ops, Inverse(op), s);
      FirstBeforeOne(ops, Inverse(op), s);
      LastAfterOne(rest, op, s);
      FirstBeforeOne(rest, op, s);
      BothOrNone(ops, s);
      BothOrNone(rest, s);
    }
  }

  // ----- when nobody has written in between -----

  /** Each write finds what the one before it on the same slot left. */
  ghost predicate InTurn(ops: seq<Op>) {
    forall k :: 0 <= k < |ops| ==> InTurnAt(ops, k)
  }

  ghost predicate InTurnAt(ops: seq<Op>, k: nat)
    requires k < |ops|
  {
    IsWrite(ops[k]) &&
    (LastAfter(ops[..k], ops[k].slot).Some? ==> LastAfter(ops[..k], ops[k].slot) == Some(Before(ops[k])))
  }

  lemma {:induction false} InTurnLess(ops: seq<Op>, n: nat)
    requires InTurn(ops) && n <= |ops|
    ensures InTurn(ops[..n])
  {
    hide LastAfter;
    forall k | 0 <= k < n ensures InTurnAt(ops[..n], k) {
      assert InTurnAt(ops, k) && ops[..n][..k] == ops[..k];
    }
  }

  lemma {:induction false} InTurnMore(ops: seq<Op>, op: Op)
    requires InTurn(ops) && IsWrite(op) &&
             (LastAfter(ops, op.slot).Some? ==> LastAfter(ops, op.slot) == Some(Before(op)))
    ensures InTurn(ops + [op])
  {
    hide LastAfter;
    var all := ops + [op];
    forall k | 0 <= k < |all| ensures InTurnAt(all, k) {
      if k < |ops| {
        assert InTurnAt(ops, k) && all[..k] == ops[..k] && all[k] == ops[k];
      } else {
        assert all[..k] == ops;
      }
    }
  }

  /** The writes of one transaction in a legal history, if others do not interrupt them. */
  lemma {:induction false} OwnInTurn(base: Records, recs: seq<LogRecord>, t: int)
    requires LegalHistory(base, recs) && Contiguous(recs)
    ensures InTurn(OpsOf(recs, t))
  {
    hide OpsOf, InTurn, LastAfter, FirstBefore, Replay, LastWrite, LegalHistory, Contiguous;
    if recs == [] {
      NoneInTurn(t);
    } else {
      var n := |recs| - 1;
      var front, r := recs[..n], recs[n];
      assert recs == front + [r];
      PrefixLegal(base, recs, n);
      OwnInTurn(base, front, t);
      OpsOfOne(front, r, t);
      if r.tid == t && IsWrite(r.op) {
        BothOrNone(OpsOf(front, t), r.op.slot);
        if FirstBefore(OpsOf(front, t), r.op.slot).Some? {
          LastIsOwn(recs, n, r.op.slot);
          LastWriteOps(base, front, r.op.slot);
          LegalLast(base, recs);
        }
        InTurnMore(OpsOf(front, t), r.op);
      }
    }
  }

  lemma {:induction false} NoneInTurn(t: int)
    ensures InTurn(OpsOf([], t))
  {
  }

  lemma {:induction false} LegalLast(base: Records, recs: seq<LogRecord>)
    requires LegalHistory(base, recs) && recs != []
    ensures var n := |recs| - 1;
            IsWrite(recs[n].op) ==> Look(Replay(base, recs[..n]), recs[n].op.slot) == Before(recs[n].op)
  {
    hide Replay;
  }

  /** Nobody else has written a slot of `t` since it last did. */
  ghost predicate Unspoiled(recs: seq<LogRecord>, t: int) {
    forall s :: Unbroken(recs, t, s)
  }

  lemma {:induction false} UnspoiledOwn(recs: seq<LogRecord>, r: LogRecord)
    requires Unspoiled(recs, r.tid)
    ensures Unspoiled(recs + [r], r.tid)
  {
    var all := recs + [r];
    forall s ensures Unbroken(all, r.tid, s) {
      assert Unbroken(recs, r.tid, s);
      forall i, j | 0 <= i < j < |all| && all[i].tid == r.tid && Writes(all[i].op, s) && Writes(all[j].op, s)
        ensures all[j].tid == r.tid
      {
        assert all[i] == recs[i] && (j < |recs| ==> all[j] == recs[j]);
      }
    }
  }

  /** Then every slot is as it left it. */
  lemma {:induction false} UnspoiledLook(base: Records, recs: seq<LogRecord>, t: int, s: Slot)
    requires Unspoiled(recs, t)
    ensures LastAfter(OpsOf(recs, t), s).Some? ==> LastAfter(OpsOf(recs, t), s) == Some(Look(Replay(base, recs), s))
  {
    hide OpsOf, LastAfter, FirstBefore, Replay, LastWrite;
    if LastAfter(OpsOf(recs, t), s).Some? {
      BothOrNone(OpsOf(recs, t), s);
      WroteOps(recs, t, s);
      var i :| 0 <= i < |recs| && recs[i].tid == t && Writes(recs[i].op, s);
      var p := LastWrite(recs, s);
      assert p >= i && Unbroken(recs, t, s);
      LastWriteOps(base, recs, s);
    }
  }

  /** The log so far is isolated, nobody is in the way, and undoing `rest` is what is left to take `t` back. */
  ghost predicate Smooth(base: Records, recs: seq<LogRecord>, t: int, rest: seq<Op>) {
    Isolated(base, recs) && Unspoiled(recs, t) && Remains(OpsOf(recs, t), rest) && InTurn(rest)
  }

  lemma {:induction false} SmoothStart(base: Records, recs: seq<LogRecord>, t: int)
    requires Isolated(base, recs) && Unspoiled(recs, t)
    ensures Smooth(base, recs, t, OpsOf(recs, t))
  {
    hide OpsOf, Remains, InTurn, LegalHistory, Contiguous, WellFormed, AbortsClean, Unspoiled;
    RemainsAll(OpsOf(recs, t));
    OwnInTurn(base, recs, t);
  }

  /** The next inverse write meets the slot as the write left it, and goes on so. */
  lemma {:induction false} SmoothNext(base: Records, recs: seq<LogRecord>, r: LogRecord, rest: seq<Op>, op: Op)
    requires Smooth(base, recs, r.tid, rest + [op]) && Continuing(recs, r) && r.op == Inverse(op)
    ensures IsWrite(op) && Look(Replay(base, recs), op.slot) == After(op) && Smooth(base, recs + [r], r.tid, rest)
  {
    hide OpsOf, LastAfter, FirstBefore, Replay, Isolated, Continuing, NetNone;
    var ops := rest + [op];
    assert InTurnAt(ops, |rest|) && ops[..|rest|] == rest && ops[|rest|] == op;
    InverseUndoes(op);
    LastAfterOne(rest, op, op.slot);
    assert RemainsAt(OpsOf(recs, r.tid), ops, op.slot);
    UnspoiledLook(base, recs, r.tid, op.slot);
    assert Unbroken(recs, r.tid, op.slot);
    AppendIsolated(base, recs, r);
    UnspoiledOwn(recs, r);
    OpsOfOne(recs, r, r.tid);
    RemainsLess(OpsOf(recs, r.tid), rest, op);
    InTurnLess(ops, |rest|);
  }

  lemma {:induction false} ReversedAt(ops: seq<Op>, k: nat, m: nat)
    requires k <= m < |ops|
    ensures |Reversed(ops, k)| == |ops| - k && Reversed(ops, k)[|ops| - 1 - m] == Inverse(ops[m])
    decreases |ops| - k
  {
    if k < m {
      ReversedAt(ops, k + 1, m);
    } else if k + 1 < |ops| {
      ReversedAt(ops, k + 1, k + 1);
    }
  }

  // ----- from any rows -----

  /** The rollback loop on any rows: undoes `ops[..n]`, the last first; none if an error escapes. */
  ghost function RollbackRun(ops: seq<Op>, n: nat, db: Records): Option<Records>
    requires n <= |ops| && forall i :: 0 <= i < |ops| ==> IsWrite(ops[i])
  {
    if n == 0 then Some(db)
    else if CanUndo(db, ops[n - 1]) then RollbackRun(ops, n - 1, Apply(db, Inverse(ops[n - 1])))
    else None
  }

  lemma {:induction false} RollbackPrefix(ops: seq<Op>, op: Op, n: nat, db: Records)
    requires n <= |ops| && IsWrite(op) && forall i :: 0 <= i < |ops| ==> IsWrite(ops[i])
    ensures RollbackRun(ops + [op], n, db) == RollbackRun(ops, n, db)
  {
    if n > 0 {
      RollbackPrefix(ops, op, n - 1, Apply(db, Inverse(ops[n - 1])));
    }
  }

  lemma {:induction false} OpsWrite(recs: seq<LogRecord>, t: int)
    ensures forall i :: 0 <= i < |OpsOf(recs, t)| ==> IsWrite(OpsOf(recs, t)[i])
  {
    if recs != [] {
      OpsWrite(recs[..|recs| - 1], t);
    }
  }

  /** Rolling a transaction back is undoing its records. */
  lemma {:induction false} RollbackIsUndo(recs: seq<LogRecord>, t: int, n: nat, db: Records)
    requires n <= |recs| && forall i :: 0 <= i < |OpsOf(recs[..n], t)| ==> IsWrite(OpsOf(recs[..n], t)[i])
    ensures RollbackRun(OpsOf(recs[..n], t), |OpsOf(recs[..n], t)|, db) == UndoRun(recs, iset{t}, n, db)
  {
    if n > 0 {
      var front, r := recs[..n - 1], recs[n - 1];
      assert recs[..n] == front + [r];
      OpsOfOne(front, r, t);
      OpsWrite(front, t);
      if r.tid == t && IsWrite(r.op) {
        var ops, db' := OpsOf(front, t), Apply(db, Inverse(r.op));
        InverseUndoes(r.op);
        RollbackPrefix(ops, r.op, |ops|, db');
        RollbackIsUndo(recs, t, n - 1, db');
      } else {
        RollbackIsUndo(recs, t, n - 1, db);
      }
    }
  }

  /**
   Rolling `t` back, whatever others have written meanwhile, ends without error with the rows as if `t` had never run,
   if and only if each of its inserts and updates meets a row, and no other transaction that wrote a slot later left
   it other than the first write of `t` had found it.
   */
  lemma {:induction false} RollbackRowsExact(base: Records, recs: seq<LogRecord>, t: int, ops: seq<Op>)
    requires LegalHistory(base, recs) && ops == OpsOf(recs, t) && forall i :: 0 <= i < |ops| ==> IsWrite(ops[i])
    ensures RollbackRun(ops, |ops|, Replay(base, recs)) == Some(Replay(base, Kept(recs, iset{t}))) <==>
            UndoMeetsRows(recs, iset{t}) && KeptAgree(recs, iset{t})
  {
    hide RollbackRun, UndoRun, Replay, Kept, OpsOf, UndoMeetsRows, KeptAgree, LegalHistory;
    assert recs[..|recs|] == recs;
    RollbackIsUndo(recs, t, |recs|, Replay(base, recs));
    UndoExact(base, recs, iset{t});
  }

  // ----- what the write set can undo -----

  /** Undoing the write set from its end finds every slot as the write left it, and keys stay unique. */
  ghost predicate Undoable(schema: Schema, db: Records, ws: seq<WriteRecord>)
    decreases |ws|
  {
    if ws == [] then true
    else
      var w := ws[|ws| - 1];
      && KeysHandled(schema, w) && Look(db, w.op.slot) == After(w.op)
      && Unique(schema, Apply(db, Inverse(w.op)), w.op.slot.table)
      && Undoable(schema, Apply(db, Inverse(w.op)), ws[..|ws| - 1])
  }

  lemma {:induction false} InverseKeys(schema: Schema, w: WriteRecord)
    requires KeysHandled(schema, w)
    ensures KeysHandled(schema, WriteRecord(Inverse(w.op), w.keySet))
  {
    hide KeyOf;
  }

  lemma {:induction false} ApplyInverse(db: Records, op: Op)
    requires IsWrite(op) && Look(db, op.slot) == Before(op)
    ensures Apply(Apply(db, op), Inverse(op)) == db && Look(Apply(db, op), op.slot) == After(op)
  {
    LookPut(db, op.slot, After(op), op.slot);
    var back := Apply(Apply(db, op), Inverse(op));
    forall s ensures Look(back, s) == Look(db, s) {
      LookPut(db, op.slot, After(op), s);
      LookPut(Apply(db, op), op.slot, Before(op), s);
    }
    SameLook(back, db);
  }

  /** A new write can be undone, and then what came before it. */
  lemma {:induction false} UndoableMore(schema: Schema, db: Records, ixs: Indexes, ws: seq<WriteRecord>, w: WriteRecord)
    requires Undoable(schema, db, ws) && Consistent(schema, db, ixs) && KeysHandled(schema, w) &&
             Look(db, w.op.slot) == Before(w.op)
    ensures Undoable(schema, Apply(db, w.op), ws + [w])
  {
    hide Consistent, Unique, KeysHandled;
    WritesHandled(schema, w);
    ApplyInverse(db, w.op);
    ConsistentUnique(schema, db, ixs, w.op.slot.table);
    assert (ws + [w])[..|ws|] == ws;
  }

  lemma {:induction false} WritesHandled(schema: Schema, w: WriteRecord)
    requires KeysHandled(schema, w)
    ensures IsWrite(w.op)
  {
  }

  /** The write set finds every slot as its last write of it left it. */
  lemma {:induction false} UndoableLook(schema: Schema, db: Records, ws: seq<WriteRecord>, s: Slot)
    requires Undoable(schema, db, ws)
    ensures LastAfter(Ops(ws), s).Some? ==> LastAfter(Ops(ws), s).value == Look(db, s)
    decreases |ws|
  {
    hide KeysHandled, Unique, LastAfter;
    if ws == [] {
      NothingFirst(s);
      assert Ops(ws) == [];
    } else {
      var n, w := |ws| - 1, ws[|ws| - 1];
      WritesHandled(schema, w);
      InverseUndoes(w.op);
      UndoableLook(schema, Apply(db, Inverse(w.op)), ws[..n], s);
      LookPut(db, w.op.slot, Before(w.op), s);
      assert Ops(ws) == Ops(ws[..n]) + [w.op];
      LastAfterOne(Ops(ws[..n]), w.op, s);
    }
  }

  // ----- what others may write meanwhile -----

  ghost predicate Free(ws: seq<WriteRecord>, s: Slot) {
    forall i :: 0 <= i < |ws| ==> !Writes(ws[i].op, s)
  }

  /** Two rows, of slots `a` and `b`, have no index key in common. */
  ghost predicate KeysApart(schema: Schema, a: Slot, v: Option<seq<Byte>>, b: Slot, w: Option<seq<Byte>>) {
    a.table == b.table && v.Some? && w.Some? ==>
      forall id :: id in schema && schema[id].table == a.table ==>
        KeyOf(schema[id].cols, v.value) != KeyOf(schema[id].cols, w.value)
  }

  /** `op` writes no slot of the write set and leaves no key that undoing the write set would bring back. */
  ghost predicate Apart(schema: Schema, ws: seq<WriteRecord>, op: Op)
    requires IsWrite(op)
  {
    forall i :: 0 <= i < |ws| && IsWrite(ws[i].op) ==> ApartFrom(schema, ws[i].op, op)
  }

  ghost predicate ApartFrom(schema: Schema, w: Op, op: Op)
    requires IsWrite(w) && IsWrite(op)
  {
    w.slot != op.slot && KeysApart(schema, w.slot, Before(w), op.slot, After(op))
  }

  lemma {:induction false} ApartFree(schema: Schema, ws: seq<WriteRecord>, op: Op)
    requires IsWrite(op) && Apart(schema, ws, op)
    ensures Free(ws, op.slot)
  {
    hide KeysApart;
  }

  /** Writes of different slots commute. */
  lemma {:induction false} Commute(db: Records, a: Op, b: Op)
    requires IsWrite(a) && IsWrite(b) && a.slot != b.slot
    ensures Apply(Apply(db, a), b) == Apply(Apply(db, b), a)
  {
    forall s ensures Look(Apply(Apply(db, a), b), s) == Look(Apply(Apply(db, b), a), s) {
      LookPut(Apply(db, a), b.slot, After(b), s);
      LookPut(Apply(db, b), a.slot, After(a), s);
      LookPut(db, a.slot, After(a), s);
      LookPut(db, b.slot, After(b), s);
    }
    SameLook(Apply(Apply(db, a), b), Apply(Apply(db, b), a));
  }

  /** Two writes that each leave keys unique do so together, unless they bring the same key. */
  lemma {:induction false} UniqueBoth(meta: IndexMeta, db: Records, a: Op, b: Op)
    requires IsWrite(a) && IsWrite(b) && a.slot != b.slot && UniqueIn(meta, Apply(db, a)) &&
             UniqueIn(meta, Apply(db, b))
    requires a.slot.table == b.slot.table == meta.table && After(a).Some? && After(b).Some? ==>
               KeyOf(meta.cols, After(a).value) != KeyOf(meta.cols, After(b).value)
    ensures UniqueIn(meta, Apply(Apply(db, a), b))
  {
    hide KeyOf;
    var da, dab, dbb := Apply(db, a), Apply(Apply(db, a), b), Apply(db, b);
    Commute(db, a, b);
    forall x, y | x in dab && y in dab && x.table == meta.table && y.table == meta.table &&
                  KeyOf(meta.cols, dab[x]) == KeyOf(meta.cols, dab[y])
      ensures x == y
    {
      if x != a.slot && y != a.slot {
        assert x in dbb && y in dbb && dbb[x] == dab[x] && dbb[y] == dab[y];
      } else if x != b.slot && y != b.slot {
        assert x in da && y in da && da[x] == dab[x] && da[y] == dab[y];
      }
    }
  }

  lemma {:induction false} StillUnique(schema: Schema, db: Records, w: Op, op: Op)
    requires IsWrite(w) && IsWrite(op) && w.slot != op.slot && KeysApart(schema, w.slot, After(w), op.slot, After(op))
    requires Unique(schema, Apply(db, w), w.slot.table) && Unique(schema, Apply(db, op), op.slot.table)
    ensures Unique(schema, Apply(Apply(db, w), op), op.slot.table) &&
            Unique(schema, Apply(Apply(db, op), w), w.slot.table)
  {
    hide KeyOf, UniqueIn;
    Commute(db, w, op);
    forall id | id in schema && schema[id].table == op.slot.table
      ensures UniqueIn(schema[id], Apply(Apply(db, w), op))
    {
      if w.slot.table == op.slot.table {
        UniqueBoth(schema[id], db, w, op);
      } else {
        Elsewhere(Apply(db, op), w, op.slot.table);
        UniqueElsewhere(schema[id], Apply(db, op), Apply(Apply(db, op), w));
      }
    }
    forall id | id in schema && schema[id].table == w.slot.table ensures UniqueIn(schema[id], Apply(Apply(db, op), w)) {
      if w.slot.table != op.slot.table {
        Elsewhere(Apply(db, w), op, w.slot.table);
        UniqueElsewhere(schema[id], Apply(db, w), Apply(Apply(db, w), op));
      }
    }
  }

  lemma {:induction false} Elsewhere(db: Records, op: Op, table: seq<Byte>)
    requires IsWrite(op) && op.slot.table != table
    ensures AgreeOn(db, Apply(db, op), table)
  {
  }

  /** A write apart from a write set leaves it undoable. */
  lemma {:induction false} UndoableApart(schema: Schema, db: Records, op: Op, ws: seq<WriteRecord>)
    requires Undoable(schema, db, ws) && IsWrite(op) && Unique(schema, Apply(db, op), op.slot.table) &&
             Apart(schema, ws, op)
    ensures Undoable(schema, Apply(db, op), ws)
    decreases |ws|
  {
    hide KeysHandled, KeysApart, Unique, Apply;
    if ws != [] {
      var n, w := |ws| - 1, ws[|ws| - 1];
      var back := Inverse(w.op);
      WritesHandled(schema, w);
      InverseUndoes(w.op);
      assert ApartFrom(schema, ws[n].op, op);
      StillUnique(schema, db, back, op);
      Commute(db, back, op);
      ApplyLook(db, op, w.op.slot);
      UndoableApart(schema, Apply(db, back), op, ws[..n]);
    }
  }

  lemma {:induction false} ApplyLook(db: Records, op: Op, s: Slot)
    requires IsWrite(op)
    ensures Look(Apply(db, op), s) == if s == op.slot then After(op) else Look(db, s)
  {
    LookPut(db, op.slot, After(op), s);
  }

  /** No row outside a write set has a key that undoing the write set would bring back. */
  lemma {:induction false} RestoredKeysApart(schema: Schema, db: Records, ws: seq<WriteRecord>, s: Slot)
    requires Undoable(schema, db, ws) && Free(ws, s)
    ensures forall i :: 0 <= i < |ws| && IsWrite(ws[i].op) ==>
              KeysApart(schema, ws[i].op.slot, Before(ws[i].op), s, Look(db, s))
    decreases |ws|
  {
    hide KeysHandled, KeysApart, Apply;
    if ws != [] {
      var n, w := |ws| - 1, ws[|ws| - 1];
      WritesHandled(schema, w);
      InverseUndoes(w.op);
      var back := Apply(db, Inverse(w.op));
      assert !Writes(ws[n].op, s);
      ApplyLook(db, Inverse(w.op), s);
      ApplyLook(db, Inverse(w.op), w.op.slot);
      RowsApart(schema, back, w.op.slot, s);
      RestoredKeysApart(schema, back, ws[..n], s);
      forall i | 0 <= i < |ws| && IsWrite(ws[i].op)
        ensures KeysApart(schema, ws[i].op.slot, Before(ws[i].op), s, Look(db, s))
      {
        assert i < n ==> ws[i] == ws[..n][i];
      }
    }
  }

  lemma {:induction false} RowsApart(schema: Schema, db: Records, a: Slot, b: Slot)
    requires Unique(schema, db, a.table) && a != b
    ensures KeysApart(schema, a, Look(db, a), b, Look(db, b))
  {
    hide KeyOf;
    if a in db && b in db && a.table == b.table {
      forall id | id in schema && schema[id].table == a.table
        ensures KeyOf(schema[id].cols, db[a]) != KeyOf(schema[id].cols, db[b])
      {
        assert UniqueIn(schema[id], db);
      }
    }
  }

  /**
   Another transaction changes a slot and leaves keys unique. The write set can still be undone if and only if it does
   not hold the slot, nor the new key in a before-image.
   */
  lemma {:induction false} UndoableExact(schema: Schema, db: Records, op: Op, ws: seq<WriteRecord>)
    requires Undoable(schema, db, ws) && IsWrite(op) && Look(db, op.slot) == Before(op) != After(op)
    requires Unique(schema, Apply(db, op), op.slot.table)
    ensures Undoable(schema, Apply(db, op), ws) <==> Apart(schema, ws, op)
  {
    hide Undoable, Unique, KeysApart, Apply, LastAfter;
    if Apart(schema, ws, op) {
      UndoableApart(schema, db, op, ws);
    }
    var db' := Apply(db, op);
    if Undoable(schema, db', ws) {
      ApplyLook(db, op, op.slot);
      UndoableLook(schema, db, ws, op.slot);
      UndoableLook(schema, db', ws, op.slot);
      forall i | 0 <= i < |ws| ensures !Writes(ws[i].op, op.slot) {
        if Writes(ws[i].op, op.slot) {
          LastAfterSome(Ops(ws), i, op.slot);
        }
      }
      RestoredKeysApart(schema, db', ws, op.slot);
    }
  }

  lemma {:induction false} LastAfterSome(ops: seq<Op>, i: nat, s: Slot)
    requires i < |ops| && Writes(ops[i], s)
    ensures LastAfter(ops, s).Some?
  {
    var n := |ops| - 1;
    assert ops == ops[..n] + [ops[n]];
    LastAfterOne(ops[..n], ops[n], s);
    if i < n {
      LastAfterSome(ops[..n], i, s);
    }
  }

  /**
   The slot of a deleted row is free for the next insert. Rolling the delete back then overwrites the row found there.
   */
  lemma {:induction false} ReusedSlot(s: Slot, v: seq<Byte>, w: seq<Byte>)
    ensures var ws := [WriteRecord(Delete(s, v), true)];
            && Undoable(map[], map[], ws) && !Undoable(map[], map[s := w], ws)
            && Apply(map[s := w], Inverse(Delete(s, v))) == map[s := v]
  {
    var ws := [WriteRecord(Delete(s, v), true)];
    assert ws[..0] == [] && Undoable(map[], Apply(map[], Inverse(Delete(s, v))), []);
  }

  // ----- appending to an isolated history -----

  /** Nobody else has written `s` since `t` last did. */
  ghost predicate Unbroken(recs: seq<LogRecord>, t: int, s: Slot) {
    forall i, j :: 0 <= i < j < |recs| && recs[i].tid == t && Writes(recs[i].op, s) && Writes(recs[j].op, s) ==>
      recs[j].tid == t
  }

  /** The chain of `t` stands at `lsn`. */
  ghost predicate ChainAt(recs: seq<LogRecord>, t: int, lsn: int) {
    Active(recs, |recs|, t) && recs[LastOf(recs, t, |recs|)].lsn == lsn
  }

  lemma {:induction false} LastOfAppend(recs: seq<LogRecord>, r: LogRecord, t: int, n: nat)
    requires n <= |recs|
    ensures LastOf(recs + [r], t, n) == LastOf(recs, t, n)
    ensures LastOf(recs + [r], t, |recs| + 1) == if r.tid == t then |recs| else LastOf(recs, t, |recs|)
  {
    var all := recs + [r];
    assert all[..|recs|] == recs;
    LastOfPrefix(all, |recs|, t, n);
    LastOfPrefix(all, |recs|, t, |recs|);
  }

  lemma {:induction false} ActiveAppend(recs: seq<LogRecord>, r: LogRecord, t: int)
    ensures Active(recs + [r], |recs| + 1, t) <==> if r.tid == t then !Ends(r.op) else Active(recs, |recs|, t)
    ensures forall n :: 0 <= n <= |recs| ==> Active(recs + [r], n, t) == Active(recs, n, t)
  {
    forall n | 0 <= n <= |recs| ensures Active(recs + [r], n, t) == Active(recs, n, t) {
      LastOfAppend(recs, r, t, n);
    }
    LastOfAppend(recs, r, t, |recs|);
  }

  /** An LSN that comes next. */
  ghost predicate NextLsn(recs: seq<LogRecord>, lsn: int) {
    0 <= lsn && forall i :: 0 <= i < |recs| ==> recs[i].lsn < lsn
  }

  /** A record that continues the log and the chain of its transaction. */
  ghost predicate Continuing(recs: seq<LogRecord>, r: LogRecord) {
    && NextLsn(recs, r.lsn) && 0 <= r.tid
    && (if r.op.Begin? then LastOf(recs, r.tid, |recs|) < 0 && r.prevLsn == INVALID_LSN
        else ChainAt(recs, r.tid, r.prevLsn))
  }

  /**
   And finds its slot as it says, written by nobody else since its transaction last did; an abort has left nothing.
   */
  ghost predicate Follows(base: Records, recs: seq<LogRecord>, r: LogRecord) {
    && (IsWrite(r.op) ==> Look(Replay(base, recs), r.op.slot) == Before(r.op) && Unbroken(recs, r.tid, r.op.slot))
    && (r.op.Abort? ==> NetNone(OpsOf(recs, r.tid)))
  }

  lemma {:induction false} AppendChained(recs: seq<LogRecord>, r: LogRecord)
    requires WellFormed(recs) && Continuing(recs, r)
    ensures WellFormed(recs + [r])
  {
    var all := recs + [r];
    forall n | 0 <= n < |all| ensures Chained(all, n) {
      if n < |recs| {
        assert Chained(recs, n);
        LastOfAppend(recs, r, recs[n].tid, n);
        assert all[n] == recs[n];
      } else {
        LastOfAppend(recs, r, r.tid, |recs|);
      }
    }
  }

  lemma {:induction false} AppendFollows(base: Records, recs: seq<LogRecord>, r: LogRecord)
    requires Isolated(base, recs) && Continuing(recs, r) && Follows(base, recs, r)
    ensures Isolated(base, recs + [r])
  {
    hide Replay, OpsOf, NetNone, Active, WellFormed, Contiguous, Unbroken, Continuing;
    var all := recs + [r];
    AppendChained(recs, r);
    forall n | 0 <= n <= |recs| ensures all[..n] == recs[..n] {
    }
    assert recs[..|recs|] == recs;
    forall n | 0 <= n < |all| && IsWrite(all[n].op)
      ensures Look(Replay(base, all[..n]), all[n].op.slot) == Before(all[n].op)
    {
      assert n < |recs| ==> all[n] == recs[n];
      assert all[..n] == recs[..n];
    }
    forall n | 0 <= n < |all| && all[n].op.Abort? ensures NetNone(OpsOf(all[..n], all[n].tid)) {
      assert n < |recs| ==> all[n] == recs[n];
      assert all[..n] == recs[..n];
    }
    AppendContiguous(recs, r);
  }

  lemma {:induction false} IsolatedFollows(base: Records, recs: seq<LogRecord>, r: LogRecord)
    requires Isolated(base, recs + [r])
    ensures Isolated(base, recs) && Follows(base, recs, r)
  {
    hide Replay, OpsOf, NetNone, WellFormed;
    var all := recs + [r];
    PrefixIsolated(base, all, |recs|);
    assert all[..|recs|] == recs && all[|recs|] == r;
    if IsWrite(r.op) {
      forall i, j | 0 <= i < j < |recs| && recs[i].tid == r.tid && Writes(recs[i].op, r.op.slot) &&
                    Writes(recs[j].op, r.op.slot)
        ensures recs[j].tid == r.tid
      {
        assert all[i] == recs[i] && all[j] == recs[j];
        assert SameSlot(all[i], all[j]) && SameSlot(all[j], all[|recs|]);
      }
    }
  }

  /** A record that continues the log keeps it isolated if and only if it does. */
  lemma {:induction false} AppendIsolated(base: Records, recs: seq<LogRecord>, r: LogRecord)
    requires Continuing(recs, r)
    ensures Isolated(base, recs + [r]) <==> Isolated(base, recs) && Follows(base, recs, r)
  {
    hide Isolated, Follows, Continuing;
    if Isolated(base, recs + [r]) {
      IsolatedFollows(base, recs, r);
    }
    if Isolated(base, recs) && Follows(base, recs, r) {
      AppendFollows(base, recs, r);
    }
  }

  lemma {:induction false} AppendContiguous(recs: seq<LogRecord>, r: LogRecord)
    requires Contiguous(recs) && (IsWrite(r.op) ==> Unbroken(recs, r.tid, r.op.slot))
    ensures Contiguous(recs + [r])
  {
    var all := recs + [r];
    forall i, j, k | 0 <= i < j < k < |all| && SameSlot(all[i], all[j]) && SameSlot(all[j], all[k]) &&
                     all[i].tid == all[k].tid
      ensures all[j].tid == all[i].tid
    {
      assert all[i] == recs[i] && all[j] == recs[j];
      if k < |recs| {
        assert SameSlot(recs[i], recs[j]) && SameSlot(recs[j], recs[k]);
      }
    }
  }

  lemma {:induction false} OpFrom(recs: seq<LogRecord>, t: int, k: nat) returns (i: nat)
    requires k < |OpsOf(recs, t)|
    ensures i < |recs| && recs[i].tid == t && IsWrite(recs[i].op) && recs[i].op == OpsOf(recs, t)[k]
  {
    var n := |recs| - 1;
    if recs[n].tid == t && IsWrite(recs[n].op) && k == |OpsOf(recs, t)| - 1 {
      i := n;
    } else {
      i := OpFrom(recs[..n], t, k);
    }
  }
}

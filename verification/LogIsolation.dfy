/**
 Histories of transactions that keep out of each other's way: what is left when the records of some
 of them are taken out.
 */
module LogIsolation {
  import opened Options
  import opened LogCodec
  import opened LogHistory
  import opened LogUndo
  import opened LogUndoExact

  // ----- the writes of one transaction -----

  function OpsOf(recs: seq<LogRecord>, t: int): seq<Op> {
    if recs == [] then []
    else
      var n := |recs| - 1;
      OpsOf(recs[..n], t) + (if recs[n].tid == t && IsWrite(recs[n].op) then [recs[n].op] else [])
  }

  /** What the first write of `s` found, if there is one. */
  function FirstBefore(ops: seq<Op>, s: Slot): Option<Option<seq<Byte>>> {
    if ops == [] then None
    else
      var n := |ops| - 1;
      var r := FirstBefore(ops[..n], s);
      if r.Some? then r else if Writes(ops[n], s) then Some(Before(ops[n])) else None
  }

  /** What the last write of `s` left. */
  function LastAfter(ops: seq<Op>, s: Slot): Option<Option<seq<Byte>>> {
    if ops == [] then None
    else
      var n := |ops| - 1;
      if Writes(ops[n], s) then Some(After(ops[n])) else LastAfter(ops[..n], s)
  }

  /** The writes cancel out: every slot ends as it was found. */
  ghost predicate NetNone(ops: seq<Op>) {
    forall s :: FirstBefore(ops, s) == LastAfter(ops, s)
  }

  lemma {:induction false} OpsOfOne(recs: seq<LogRecord>, r: LogRecord, t: int)
    ensures OpsOf(recs + [r], t) == if r.tid == t && IsWrite(r.op) then OpsOf(recs, t) + [r.op] else OpsOf(recs, t)
  {
    assert (recs + [r])[..|recs|] == recs;
  }

  lemma {:induction false} FirstBeforeOne(ops: seq<Op>, op: Op, s: Slot)
    ensures FirstBefore(ops + [op], s) ==
            if FirstBefore(ops, s).Some? then FirstBefore(ops, s) else if Writes(op, s) then Some(Before(op)) else None
  {
    assert (ops + [op])[..|ops|] == ops;
  }

  lemma {:induction false} LastAfterOne(ops: seq<Op>, op: Op, s: Slot)
    ensures LastAfter(ops + [op], s) == if Writes(op, s) then Some(After(op)) else LastAfter(ops, s)
  {
    assert (ops + [op])[..|ops|] == ops;
  }

  /** A slot is first written if and only if it is last written. */
  lemma {:induction false} BothOrNone(ops: seq<Op>, s: Slot)
    ensures FirstBefore(ops, s).Some? <==> LastAfter(ops, s).Some?
  {
    if ops != [] {
      BothOrNone(ops[..|ops| - 1], s);
    }
  }

  // ----- isolation -----

  /** The writes of a slot by one transaction are not interrupted by another's. */
  ghost predicate Contiguous(recs: seq<LogRecord>) {
    forall i, j, k ::
      0 <= i < j < k < |recs| && SameSlot(recs[i], recs[j]) && SameSlot(recs[j], recs[k]) &&
      recs[i].tid == recs[k].tid ==>
      recs[j].tid == recs[i].tid
  }

  /** When an abort is logged, the transaction's writes have cancelled out. */
  ghost predicate AbortsClean(recs: seq<LogRecord>) {
    forall n :: 0 <= n < |recs| && recs[n].op.Abort? ==> NetNone(OpsOf(recs[..n], recs[n].tid))
  }

  ghost predicate Isolated(base: Records, recs: seq<LogRecord>) {
    WellFormed(recs) && LegalHistory(base, recs) && Contiguous(recs) && AbortsClean(recs)
  }

  /** A slot is written by another transaction only when the end of the first is in the log. */
  ghost predicate Strict(recs: seq<LogRecord>) {
    forall i, j :: 0 <= i < j < |recs| && SameSlot(recs[i], recs[j]) && recs[i].tid != recs[j].tid ==>
      !Active(recs, j, recs[i].tid)
  }

  // ----- a transaction that ended stays ended -----

  lemma {:induction false} LastOfPrefix(recs: seq<LogRecord>, m: nat, t: int, n: nat)
    requires n <= m <= |recs|
    ensures LastOf(recs[..m], t, n) == LastOf(recs, t, n)
  {
    if n > 0 {
      LastOfPrefix(recs, m, t, n - 1);
    }
  }

  /** After its end, a transaction has no record. */
  lemma {:induction false} EndedStays(recs: seq<LogRecord>, t: int, m: nat, n: nat)
    requires WellFormed(recs) && m <= n <= |recs| && LastOf(recs, t, m) >= 0 && !Active(recs, m, t)
    ensures LastOf(recs, t, n) == LastOf(recs, t, m) && !Active(recs, n, t)
    decreases n
  {
    if m < n {
      EndedStays(recs, t, m, n - 1);
      assert Chained(recs, n - 1);
    }
  }

  lemma {:induction false} WriterBegan(recs: seq<LogRecord>, i: nat, n: nat)
    requires i < n <= |recs|
    ensures LastOf(recs, recs[i].tid, n) >= i
  {
  }

  /** Then no slot of an unfinished transaction is written later by a finished one. */
  lemma {:induction false} StrictLosersLast(recs: seq<LogRecord>)
    requires WellFormed(recs) && Strict(recs)
    ensures LosersLast(recs)
  {
    hide WellFormed, Active;
    forall i, j | 0 <= i < j < |recs| && SameSlot(recs[i], recs[j])
      ensures Active(recs, |recs|, recs[i].tid) ==> Active(recs, |recs|, recs[j].tid)
    {
      if recs[i].tid != recs[j].tid {
        WriterBegan(recs, i, j);
        EndedStays(recs, recs[i].tid, j, |recs|);
      }
    }
  }

  lemma {:induction false} PrefixLegal(base: Records, recs: seq<LogRecord>, m: nat)
    requires LegalHistory(base, recs) && Contiguous(recs) && m <= |recs|
    ensures LegalHistory(base, recs[..m]) && Contiguous(recs[..m])
  {
    hide Replay;
    var pre := recs[..m];
    forall n | 0 <= n < m && IsWrite(pre[n].op)
      ensures Look(Replay(base, pre[..n]), pre[n].op.slot) == Before(pre[n].op)
    {
      assert pre[n] == recs[n] && pre[..n] == recs[..n];
    }
    forall i, j, k | 0 <= i < j < k < m && SameSlot(pre[i], pre[j]) && SameSlot(pre[j], pre[k]) &&
                     pre[i].tid == pre[k].tid
      ensures pre[j].tid == pre[i].tid
    {
      assert SameSlot(recs[i], recs[j]) && SameSlot(recs[j], recs[k]);
    }
  }

  lemma {:induction false} PrefixChained(recs: seq<LogRecord>, m: nat)
    requires WellFormed(recs) && m <= |recs|
    ensures WellFormed(recs[..m])
  {
    hide LastOf;
    var pre := recs[..m];
    forall n | 0 <= n < m ensures Chained(pre, n) {
      assert Chained(recs, n);
      LastOfPrefix(recs, m, recs[n].tid, n);
    }
  }

  lemma {:induction false} PrefixIsolated(base: Records, recs: seq<LogRecord>, m: nat)
    requires Isolated(base, recs) && m <= |recs|
    ensures Isolated(base, recs[..m])
  {
    hide NetNone, OpsOf, Replay, Contiguous, LegalHistory, WellFormed;
    var pre := recs[..m];
    PrefixLegal(base, recs, m);
    PrefixChained(recs, m);
    forall n | 0 <= n < m && pre[n].op.Abort? ensures NetNone(OpsOf(pre[..n], pre[n].tid)) {
      assert pre[n] == recs[n] && pre[..n] == recs[..n];
    }
  }

  // ----- leaving transactions out -----

  /** A transaction of `gone` that was followed by another one at `s` had cancelled itself out there. */
  ghost predicate Cancelled(recs: seq<LogRecord>, gone: iset<int>, s: Slot) {
    forall i, j ::
      0 <= i < j < |recs| && recs[i].tid in gone && Writes(recs[i].op, s) && Writes(recs[j].op, s) &&
      recs[j].tid != recs[i].tid ==>
      CancelsAt(recs, recs[i].tid, s)
  }

  ghost predicate CancelsAt(recs: seq<LogRecord>, t: int, s: Slot) {
    FirstBefore(OpsOf(recs, t), s) == LastAfter(OpsOf(recs, t), s)
  }

  /** What `s` holds if the records of `gone` are left out: what the last writer found, if it is one of them. */
  ghost function ValueWithout(base: Records, recs: seq<LogRecord>, gone: iset<int>, s: Slot): Option<seq<Byte>> {
    var p := LastWrite(recs, s);
    if p >= 0 && recs[p].tid in gone && FirstBefore(OpsOf(recs, recs[p].tid), s).Some?
    then FirstBefore(OpsOf(recs, recs[p].tid), s).value
    else Look(Replay(base, recs), s)
  }

  /** The last write of a slot is the last of its transaction, and decides what the slot holds. */
  lemma {:induction false} LastWriteOps(base: Records, recs: seq<LogRecord>, s: Slot)
    ensures var p := LastWrite(recs, s);
            if p < 0 then Look(Replay(base, recs), s) == Look(base, s)
            else LastAfter(OpsOf(recs, recs[p].tid), s) == Some(Look(Replay(base, recs), s))
  {
    if recs != [] {
      var n := |recs| - 1;
      var r, front := recs[n], recs[..n];
      assert recs == front + [r];
      LastWriteOps(base, front, s);
      LastWriteOne(front, r, s);
      ReplayOne(base, front, r);
      var p := LastWrite(recs, s);
      if p >= 0 {
        OpsOfOne(front, r, recs[p].tid);
        LastAfterOne(OpsOf(front, recs[p].tid), r.op, s);
      }
      if IsWrite(r.op) {
        LookPut(Replay(base, front), r.op.slot, After(r.op), s);
      }
    }
  }

  /** A transaction has written `s` if and only if its writes say so. */
  lemma {:induction false} WroteOps(recs: seq<LogRecord>, t: int, s: Slot)
    ensures FirstBefore(OpsOf(recs, t), s).Some? <==>
            exists i :: 0 <= i < |recs| && recs[i].tid == t && Writes(recs[i].op, s)
  {
    if recs != [] {
      var n := |recs| - 1;
      var r, front := recs[n], recs[..n];
      assert recs == front + [r];
      WroteOps(front, t, s);
      OpsOfOne(front, r, t);
      FirstBeforeOne(OpsOf(front, t), r.op, s);
      if i :| 0 <= i < |front| && front[i].tid == t && Writes(front[i].op, s) {
        assert recs[i] == front[i];
      }
      if i :| 0 <= i < |recs| && recs[i].tid == t && Writes(recs[i].op, s) {
        assert i < n ==> front[i] == recs[i];
      }
    }
  }

  /** Records that do not write `s` for `t` do not matter for what it found and left there. */
  lemma {:induction false} QuietAt(recs: seq<LogRecord>, t: int, s: Slot, m: nat, n: nat)
    requires m <= n <= |recs| && forall i :: m <= i < n ==> recs[i].tid != t || !Writes(recs[i].op, s)
    ensures FirstBefore(OpsOf(recs[..n], t), s) == FirstBefore(OpsOf(recs[..m], t), s)
    ensures LastAfter(OpsOf(recs[..n], t), s) == LastAfter(OpsOf(recs[..m], t), s)
    decreases n
  {
    hide OpsOf, FirstBefore, LastAfter;
    if m < n {
      QuietAt(recs, t, s, m, n - 1);
      var front, r := recs[..n - 1], recs[n - 1];
      assert recs[..n] == front + [r];
      OpsOfOne(front, r, t);
      FirstBeforeOne(OpsOf(front, t), r.op, s);
      LastAfterOne(OpsOf(front, t), r.op, s);
    }
  }

  /** A left-out transaction writes `s`: the slot keeps what it would hold without it. */
  lemma {:induction false} GoneWrites(base: Records, recs: seq<LogRecord>, n: nat, gone: iset<int>, s: Slot)
    requires LegalHistory(base, recs) && Contiguous(recs) && Cancelled(recs, gone, s) && n < |recs|
    requires recs[n].tid in gone && Writes(recs[n].op, s)
    ensures ValueWithout(base, recs[..n + 1], gone, s) == ValueWithout(base, recs[..n], gone, s)
  {
    hide LastWrite, OpsOf, FirstBefore, LastAfter, Replay, Contiguous, Cancelled;
    var r, front := recs[n], recs[..n];
    var t, p := r.tid, LastWrite(front, s);
    assert recs[..n + 1] == front + [r];
    LastWriteOne(front, r, s);
    OpsOfOne(front, r, t);
    FirstBeforeOne(OpsOf(front, t), r.op, s);
    WroteOps(front, t, s);
    if FirstBefore(OpsOf(front, t), s).Some? {
      LastIsOwn(recs, n, s);
    } else if p >= 0 && front[p].tid in gone {
      assert front[p].tid != t;
      FollowedCancels(recs, n, p, gone, s);
      LastWriteOps(base, front, s);
    }
  }

  lemma {:induction false} LastIsOwn(recs: seq<LogRecord>, n: nat, s: Slot)
    requires Contiguous(recs) && n < |recs| && Writes(recs[n].op, s) &&
             FirstBefore(OpsOf(recs[..n], recs[n].tid), s).Some?
    ensures var p := LastWrite(recs[..n], s);
            p >= 0 && recs[p].tid == recs[n].tid
  {
    hide LastWrite, OpsOf, FirstBefore;
    var front, t := recs[..n], recs[n].tid;
    var p := LastWrite(front, s);
    WroteOps(front, t, s);
    var i :| 0 <= i < |front| && front[i].tid == t && Writes(front[i].op, s);
    assert front[i] == recs[i] && p >= i && front[p] == recs[p];
    if i < p {
      assert SameSlot(recs[i], recs[p]) && SameSlot(recs[p], recs[n]);
    }
  }

  lemma {:induction false} FollowedCancels(recs: seq<LogRecord>, n: nat, p: nat, gone: iset<int>, s: Slot)
    requires Contiguous(recs) && Cancelled(recs, gone, s) && p < n < |recs| && recs[p].tid in gone &&
             recs[n].tid != recs[p].tid
    requires Writes(recs[p].op, s) && Writes(recs[n].op, s)
    ensures CancelsAt(recs[..n], recs[p].tid, s)
  {
    hide OpsOf, FirstBefore, LastAfter;
    var u := recs[p].tid;
    assert CancelsAt(recs, u, s);
    forall i | n <= i < |recs| ensures recs[i].tid != u || !Writes(recs[i].op, s) {
      if Writes(recs[i].op, s) {
        assert SameSlot(recs[p], recs[n]);
        assert SameSlot(recs[n], recs[i]);
      }
    }
    QuietAt(recs, u, s, n, |recs|);
    assert recs[..|recs|] == recs;
  }

  lemma {:induction false} NetFirst(ops: seq<Op>, s: Slot)
    requires NetNone(ops)
    ensures FirstBefore(ops, s) == LastAfter(ops, s)
  {
  }

  /** A record that does not write `s` does not matter for `s`. */
  lemma {:induction false} OtherWrites(base: Records, recs: seq<LogRecord>, gone: iset<int>, s: Slot)
    requires recs != [] && !Writes(recs[|recs| - 1].op, s)
    ensures ValueWithout(base, recs, gone, s) == ValueWithout(base, recs[..|recs| - 1], gone, s)
  {
    hide LastWrite, OpsOf, FirstBefore, Replay;
    var n := |recs| - 1;
    var r, front := recs[n], recs[..n];
    assert recs == front + [r];
    var p := LastWrite(front, s);
    LastWriteOne(front, r, s);
    ReplayOne(base, front, r);
    if IsWrite(r.op) {
      LookPut(Replay(base, front), r.op.slot, After(r.op), s);
    }
    if p >= 0 {
      OpsOfOne(front, r, front[p].tid);
      FirstBeforeOne(OpsOf(front, front[p].tid), r.op, s);
    }
  }

  /** Replaying the first `n` records without the transactions of `gone`, slot by slot. */
  lemma {:induction false} KeptValue(base: Records, recs: seq<LogRecord>, n: nat, gone: iset<int>, s: Slot)
    requires LegalHistory(base, recs) && Contiguous(recs) && Cancelled(recs, gone, s) && n <= |recs|
    ensures Look(Replay(base, Kept(recs[..n], gone)), s) == ValueWithout(base, recs[..n], gone, s)
  {
    hide LegalHistory, Contiguous, Cancelled, LastWrite, OpsOf, FirstBefore, Replay, Kept;
    if n > 0 {
      var r, front := recs[n - 1], recs[..n - 1];
      assert recs[..n] == front + [r] && recs[..n][..n - 1] == front;
      KeptValue(base, recs, n - 1, gone, s);
      KeptOne(front, r, gone);
      ReplayOne(base, Kept(front, gone), r);
      ReplayOne(base, front, r);
      LastWriteOne(front, r, s);
      if IsWrite(r.op) {
        LookPut(Replay(base, Kept(front, gone)), r.op.slot, After(r.op), s);
        LookPut(Replay(base, front), r.op.slot, After(r.op), s);
      }
      if !Writes(r.op, s) {
        OtherWrites(base, recs[..n], gone, s);
      } else if r.tid in gone {
        GoneWrites(base, recs, n - 1, gone, s);
      }
    } else {
      EmptyLast(s);
      KeptEmpty([], gone);
      assert recs[..n] == [];
    }
  }

  lemma {:induction false} EmptyLast(s: Slot)
    ensures LastWrite([], s) == -1
  {
  }

  /** A transaction whose writes cancel out leaves no trace. */
  lemma {:induction false} Invisible(base: Records, recs: seq<LogRecord>, t: int)
    requires LegalHistory(base, recs) && Contiguous(recs) && NetNone(OpsOf(recs, t))
    ensures Replay(base, Kept(recs, iset{t})) == Replay(base, recs)
  {
    hide LegalHistory, Contiguous, Replay, Kept, NetNone, OpsOf, FirstBefore, LastAfter, LastWrite;
    var gone := iset{t};
    assert recs[..|recs|] == recs;
    forall s ensures Look(Replay(base, Kept(recs, gone)), s) == Look(Replay(base, recs), s) {
      NetFirst(OpsOf(recs, t), s);
      KeptValue(base, recs, |recs|, gone, s);
      LastWriteOps(base, recs, s);
    }
    SameLook(Replay(base, Kept(recs, gone)), Replay(base, recs));
  }

  // ----- losers, aborted and committed transactions -----

  ghost predicate HasCommitted(recs: seq<LogRecord>, t: int) {
    exists i :: 0 <= i < |recs| && recs[i].tid == t && recs[i].op.Commit?
  }

  ghost function Uncommitted(recs: seq<LogRecord>): iset<int> {
    iset t: int | !HasCommitted(recs, t)
  }

  /** The records of the transactions whose commit is in the log. */
  ghost function Committed(recs: seq<LogRecord>): seq<LogRecord> {
    Kept(recs, Uncommitted(recs))
  }

  lemma {:induction false} OpsOfNone(recs: seq<LogRecord>, t: int)
    requires forall i :: 0 <= i < |recs| ==> recs[i].tid != t
    ensures OpsOf(recs, t) == []
  {
    if recs != [] {
      OpsOfNone(recs[..|recs| - 1], t);
    }
  }

  lemma {:induction false} OpsOfQuiet(recs: seq<LogRecord>, t: int, m: nat, n: nat)
    requires m <= n <= |recs| && forall i :: m <= i < n ==> recs[i].tid != t || !IsWrite(recs[i].op)
    ensures OpsOf(recs[..n], t) == OpsOf(recs[..m], t)
    decreases n
  {
    if m < n {
      OpsOfQuiet(recs, t, m, n - 1);
      assert recs[..n] == recs[..n - 1] + [recs[n - 1]];
      OpsOfOne(recs[..n - 1], recs[n - 1], t);
    }
  }

  /** A transaction that ended without a commit has cancelled itself out. */
  lemma {:induction false} EndedClean(base: Records, recs: seq<LogRecord>, t: int)
    requires Isolated(base, recs) && !Active(recs, |recs|, t) && !HasCommitted(recs, t)
    ensures NetNone(OpsOf(recs, t))
  {
    hide OpsOf, LegalHistory, Contiguous, WellFormed;
    var n := |recs|;
    var p := LastOf(recs, t, n);
    assert recs[..n] == recs;
    if p >= 0 {
      assert recs[p].op.Abort?;
      OpsOfQuiet(recs, t, p, n);
    } else {
      OpsOfNone(recs, t);
      assert NetNone([]);
    }
  }

  lemma {:induction false} LoserNotCommitted(recs: seq<LogRecord>, t: int)
    requires WellFormed(recs)
    ensures !(Active(recs, |recs|, t) && HasCommitted(recs, t))
  {
    hide WellFormed;
    if HasCommitted(recs, t) {
      var i :| 0 <= i < |recs| && recs[i].tid == t && recs[i].op.Commit?;
      EndedStays(recs, t, i + 1, |recs|);
    }
  }

  /** Left-out writes of `s` at the end of the log do not matter. */
  lemma {:induction false} KeptQuiet(base: Records, recs: seq<LogRecord>, n: nat, m: nat, gone: iset<int>, s: Slot)
    requires n <= m <= |recs| && forall i :: n <= i < m && Writes(recs[i].op, s) ==> recs[i].tid in gone
    ensures Look(Replay(base, Kept(recs[..m], gone)), s) == Look(Replay(base, Kept(recs[..n], gone)), s)
    decreases m
  {
    hide Replay, Kept;
    if n < m {
      KeptQuiet(base, recs, n, m - 1, gone, s);
      var front, r := recs[..m - 1], recs[m - 1];
      assert recs[..m] == front + [r];
      KeptOne(front, r, gone);
      ReplayOne(base, Kept(front, gone), r);
      if IsWrite(r.op) {
        LookPut(Replay(base, Kept(front, gone)), r.op.slot, After(r.op), s);
      }
    }
  }

  /** Before the first loser's write of `s`, only finished transactions write it, and the rolled back ones cancel. */
  lemma {:induction false} WinnerCancels(base: Records, recs: seq<LogRecord>, n: nat, i: nat, s: Slot)
    requires Isolated(base, recs) && n == FirstLost(recs, Losers(recs), 0, s) && i < n && Writes(recs[i].op, s)
    ensures !HasCommitted(recs, recs[i].tid) ==> CancelsAt(recs[..n], recs[i].tid, s)
  {
    hide OpsOf, FirstBefore, LastAfter, Active, HasCommitted, FirstLost, WellFormed, LegalHistory, AbortsClean;
    var t := recs[i].tid;
    assert !LostWrite(recs, Losers(recs), i, s);
    if !HasCommitted(recs, t) {
      EndedClean(base, recs, t);
      NetFirst(OpsOf(recs, t), s);
      forall x | n <= x < |recs| ensures recs[x].tid != t || !Writes(recs[x].op, s) {
        assert LostWrite(recs, Losers(recs), n, s);
        if n < x && Writes(recs[x].op, s) {
          assert SameSlot(recs[i], recs[n]);
          assert SameSlot(recs[n], recs[x]);
        }
      }
      QuietAt(recs, t, s, n, |recs|);
      assert recs[..|recs|] == recs;
    }
  }

  /** So the committed transactions alone give what the first loser found. */
  lemma {:induction false} WinnersCancel(base: Records, recs: seq<LogRecord>, s: Slot)
    requires Isolated(base, recs)
    ensures var n := FirstLost(recs, Losers(recs), 0, s);
            Look(Replay(base, Kept(recs[..n], Uncommitted(recs))), s) == Look(Replay(base, recs[..n]), s)
  {
    hide OpsOf, FirstBefore, LastAfter, HasCommitted, FirstLost, Replay, LastWrite, Kept, WellFormed, LegalHistory,
         AbortsClean, Contiguous;
    var n, gone := FirstLost(recs, Losers(recs), 0, s), Uncommitted(recs);
    var pre := recs[..n];
    forall i | 0 <= i < n && pre[i].tid in gone && Writes(pre[i].op, s) ensures CancelsAt(pre, pre[i].tid, s) {
      assert pre[i] == recs[i];
      WinnerCancels(base, recs, n, i, s);
    }
    LastWriteOps(base, pre, s);
    PrefixLegal(base, recs, n);
    KeptValue(base, pre, n, gone, s);
    assert pre[..n] == pre;
  }

  // ----- exactly when undo gives the committed rows -----

  /** If a committed transaction writes a slot after the first unfinished one did, it leaves what that one had found. */
  ghost predicate CommittedAgree(recs: seq<LogRecord>) {
    forall s :: CommittedAgreesAt(recs, s)
  }

  ghost predicate CommittedAgreesAt(recs: seq<LogRecord>, s: Slot) {
    var f, c := FirstLost(recs, Losers(recs), 0, s), LastKept(recs, |recs|, Uncommitted(recs), s);
    f < c ==> After(recs[c].op) == Before(recs[f].op)
  }

  lemma {:induction false} CommittedAt(base: Records, recs: seq<LogRecord>, s: Slot)
    requires Isolated(base, recs)
    ensures Look(Replay(base, Committed(recs)), s) ==
            Reached(recs, Losers(recs), 0, s, Look(Replay(base, recs), s)) <==>
            CommittedAgreesAt(recs, s)
  {
    hide Replay, Kept, LastKept, FirstLost, WellFormed, Contiguous, AbortsClean, HasCommitted, Active;
    var f, gone := FirstLost(recs, Losers(recs), 0, s), Uncommitted(recs);
    var c := LastKept(recs, |recs|, gone, s);
    assert recs[..|recs|] == recs;
    if f < c {
      KeptLook(base, recs, |recs|, gone, s);
    } else {
      NotBoth(recs, f, c, s);
      KeptQuiet(base, recs, f, |recs|, gone, s);
      WinnersCancel(base, recs, s);
    }
  }

  /** The first loser's write is not a committed one. */
  lemma {:induction false} NotBoth(recs: seq<LogRecord>, f: nat, c: int, s: Slot)
    requires WellFormed(recs) && f == FirstLost(recs, Losers(recs), 0, s) &&
             c == LastKept(recs, |recs|, Uncommitted(recs), s)
    ensures f != c
  {
    hide WellFormed, Active, FirstLost, LastKept, HasCommitted;
    if f < |recs| {
      LoserNotCommitted(recs, recs[f].tid);
    }
  }

  /**
   After a redo that repeated an isolated history, undo ends without error with the rows of the committed transactions
   if and only if every unfinished insert or update meets a row, and no committed transaction has changed what an
   unfinished one had found.
   */
  lemma {:induction false} CommittedExact(base: Records, recs: seq<LogRecord>)
    requires Isolated(base, recs)
    ensures UndoRun(recs, Losers(recs), |recs|, Replay(base, recs)) == Some(Replay(base, Committed(recs))) <==>
            UndoMeetsRows(recs, Losers(recs)) && CommittedAgree(recs)
  {
    hide UndoRun, Replay, Committed, Reached, FindsRow, UndoMeetsRows, CommittedAgreesAt, Isolated, Look;
    var db, goal := Replay(base, recs), Replay(base, Committed(recs));
    UndoRunIs(recs, Losers(recs), db, goal);
    MeetsAll(base, recs, Losers(recs));
    forall s ensures Look(goal, s) == Reached(recs, Losers(recs), 0, s, Look(db, s)) <==> CommittedAgreesAt(recs, s) {
      CommittedAt(base, recs, s);
    }
  }

  /** Unfinished transactions that write last do no harm. */
  lemma {:induction false} LosersLastAgree(recs: seq<LogRecord>)
    requires WellFormed(recs) && LosersLast(recs)
    ensures CommittedAgree(recs)
  {
    hide WellFormed, Active, FirstLost, LastKept, HasCommitted, GoneLast;
    forall s ensures CommittedAgreesAt(recs, s) {
      var f, c := FirstLost(recs, Losers(recs), 0, s), LastKept(recs, |recs|, Uncommitted(recs), s);
      if f < |recs| {
        LaterIsLost(recs, Losers(recs), f, s);
        if c >= 0 {
          LoserNotCommitted(recs, recs[c].tid);
        }
      }
    }
  }

  /** Then replaying without losers, and replaying only what committed, is the same. */
  lemma {:induction false} WinnersAreCommitted(base: Records, recs: seq<LogRecord>)
    requires Isolated(base, recs) && LosersLast(recs)
    ensures Replay(base, Kept(recs, Losers(recs))) == Replay(base, Committed(recs))
  {
    hide Replay, Committed, UndoRun, Kept, UndoMeetsRows, KeptAgree, CommittedAgree, WellFormed, LegalHistory,
         GoneLast, Contiguous, AbortsClean;
    GoneLastMeet(base, recs, Losers(recs));
    LosersLastAgree(recs);
    UndoExact(base, recs, Losers(recs));
    CommittedExact(base, recs);
  }
}

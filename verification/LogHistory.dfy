/**
 What a log means: replaying it, repeating history page by page, and undoing the losers.
 */
module LogHistory {
  import opened Options
  import opened LogCodec

  /** The live records of all tables. */
  type Records = map<Slot, seq<Byte>>

  datatype PageId = PageId(table: seq<Byte>, pageNo: int)

  function PageOf(s: Slot): PageId {
    PageId(s.table, s.pageNo)
  }

  predicate IsWrite(op: Op) {
    op.Insert? || op.Delete? || op.Update?
  }

  predicate Writes(op: Op, s: Slot) {
    IsWrite(op) && op.slot == s
  }

  function Look(db: Records, s: Slot): Option<seq<Byte>> {
    if s in db then Some(db[s]) else None
  }

  /** What a slot holds after a write, and what it held before. */
  function After(op: Op): Option<seq<Byte>>
    requires IsWrite(op)
  {
    match op
    case Insert(_, v) => Some(v)
    case Delete(_, _) => None
    case Update(_, _, w) => Some(w)
  }

  function Before(op: Op): Option<seq<Byte>>
    requires IsWrite(op)
  {
    match op
    case Insert(_, _) => None
    case Delete(_, v) => Some(v)
    case Update(_, v, _) => Some(v)
  }

  function Put(db: Records, s: Slot, v: Option<seq<Byte>>): Records {
    match v
    case Some(x) => db[s := x]
    case None => db - {s}
  }

  function Apply(db: Records, op: Op): Records {
    if IsWrite(op) then Put(db, op.slot, After(op)) else db
  }

  /** The inverse of a write. */
  function Undone(db: Records, op: Op): Records {
    if IsWrite(op) then Put(db, op.slot, Before(op)) else db
  }

  function Replay(db: Records, recs: seq<LogRecord>): Records {
    if recs == [] then db else Apply(Replay(db, recs[..|recs| - 1]), recs[|recs| - 1].op)
  }

  /** Every write found its slot as the record says. */
  ghost predicate LegalHistory(base: Records, recs: seq<LogRecord>) {
    forall n :: 0 <= n < |recs| && IsWrite(recs[n].op) ==>
      Look(Replay(base, recs[..n]), recs[n].op.slot) == Before(recs[n].op)
  }

  // ----- slot-wise reading of a replay -----

  lemma {:induction false} LookPut(db: Records, s: Slot, v: Option<seq<Byte>>, x: Slot)
    ensures Look(Put(db, s, v), x) == if x == s then v else Look(db, x)
  {
  }

  lemma {:induction false} SameLook(a: Records, b: Records)
    requires forall s :: Look(a, s) == Look(b, s)
    ensures a == b
  {
    forall s ensures s in a <==> s in b {
      assert Look(a, s) == Look(b, s);
    }
    forall s | s in a ensures a[s] == b[s] {
      assert Look(a, s) == Look(b, s);
    }
  }

  lemma {:induction false} ReplayOne(db: Records, recs: seq<LogRecord>, r: LogRecord)
    ensures Replay(db, recs + [r]) == Apply(Replay(db, recs), r.op)
  {
    assert (recs + [r])[..|recs|] == recs;
  }

  ghost predicate Untouched(recs: seq<LogRecord>, s: Slot) {
    forall i :: 0 <= i < |recs| ==> !Writes(recs[i].op, s)
  }

  lemma {:induction false} UntouchedLook(base: Records, a: seq<LogRecord>, w: seq<LogRecord>, s: Slot)
    requires Untouched(w, s)
    ensures Look(Replay(base, a + w), s) == Look(Replay(base, a), s)
    decreases |w|
  {
    if w == [] {
      assert a + w == a;
    } else {
      var w', r := w[..|w| - 1], w[|w| - 1];
      assert a + w == (a + w') + [r];
      ReplayOne(base, a + w', r);
      UntouchedLook(base, a, w', s);
      assert !Writes(w[|w| - 1].op, s);
    }
  }

  /** Index of the last write of `s`, or -1. */
  function LastWrite(recs: seq<LogRecord>, s: Slot): (i: int)
    ensures -1 <= i < |recs|
    ensures i >= 0 ==> Writes(recs[i].op, s)
    ensures forall x :: i < x < |recs| ==> !Writes(recs[x].op, s)
  {
    if recs == [] then -1
    else
      var n := |recs| - 1;
      if Writes(recs[n].op, s) then n else LastWrite(recs[..n], s)
  }

  lemma {:induction false} LastWriteOne(recs: seq<LogRecord>, r: LogRecord, s: Slot)
    ensures LastWrite(recs + [r], s) == if Writes(r.op, s) then |recs| else LastWrite(recs, s)
  {
    assert (recs + [r])[..|recs|] == recs;
  }

  /** The last write of a slot decides what it holds. */
  lemma {:induction false} LookLast(base: Records, recs: seq<LogRecord>, s: Slot)
    ensures var p := LastWrite(recs, s);
            Look(Replay(base, recs), s) == if p < 0 then Look(base, s) else After(recs[p].op)
  {
    hide Replay;
    var p := LastWrite(recs, s);
    if p < 0 {
      UntouchedLook(base, [], recs, s);
      assert [] + recs == recs;
      ReplayNothing(base);
    } else {
      assert recs == (recs[..p] + [recs[p]]) + recs[p + 1..];
      UntouchedLook(base, recs[..p] + [recs[p]], recs[p + 1..], s);
      ReplayOne(base, recs[..p], recs[p]);
      LookPut(Replay(base, recs[..p]), s, After(recs[p].op), s);
    }
  }

  lemma {:induction false} ReplayNothing(base: Records)
    ensures Replay(base, []) == base
  {
  }

  // ----- well-formed logs -----

  /** Index of the last record of `tid` before `n`, or -1. */
  function LastOf(recs: seq<LogRecord>, tid: int, n: nat): (i: int)
    requires n <= |recs|
    ensures -1 <= i < n
    ensures i >= 0 ==> recs[i].tid == tid
    ensures forall x :: i < x < n ==> recs[x].tid != tid
  {
    if n == 0 then -1 else if recs[n - 1].tid == tid then n - 1 else LastOf(recs, tid, n - 1)
  }

  predicate Ends(op: Op) {
    op.Commit? || op.Abort?
  }

  /** Record `n` continues the chain of its transaction. */
  ghost predicate Chained(recs: seq<LogRecord>, n: nat)
    requires n < |recs|
  {
    var p := LastOf(recs, recs[n].tid, n);
    if p < 0 then recs[n].op.Begin? && recs[n].prevLsn == INVALID_LSN
    else !recs[n].op.Begin? && recs[n].prevLsn == recs[p].lsn && !Ends(recs[p].op)
  }

  ghost predicate Increasing(recs: seq<LogRecord>) {
    forall i, j :: 0 <= i < j < |recs| ==> recs[i].lsn < recs[j].lsn
  }

  ghost predicate WellFormed(recs: seq<LogRecord>) {
    && Increasing(recs)
    && (forall n :: 0 <= n < |recs| ==> 0 <= recs[n].lsn && 0 <= recs[n].tid)
    && (forall n :: 0 <= n < |recs| ==> Chained(recs, n))
  }

  /** `tid` has begun within the first `n` records and not ended. */
  ghost predicate Active(recs: seq<LogRecord>, n: nat, tid: int)
    requires n <= |recs|
  {
    var p := LastOf(recs, tid, n);
    p >= 0 && !Ends(recs[p].op)
  }

  ghost predicate SameSlot(a: LogRecord, b: LogRecord) {
    IsWrite(a.op) && IsWrite(b.op) && a.op.slot == b.op.slot
  }

  /** The transactions still active at the end. */
  ghost function Losers(recs: seq<LogRecord>): iset<int> {
    iset t: int | Active(recs, |recs|, t)
  }

  /** No slot written by a transaction of `gone` is written later by another one. */
  ghost predicate GoneLast(recs: seq<LogRecord>, gone: iset<int>) {
    forall i, j :: 0 <= i < j < |recs| && SameSlot(recs[i], recs[j]) && recs[i].tid in gone ==> recs[j].tid in gone
  }

  ghost predicate LosersLast(recs: seq<LogRecord>) {
    GoneLast(recs, Losers(recs))
  }

  // ----- leaving transactions out -----

  /** The records of all transactions but those in `gone`. */
  ghost function Kept(recs: seq<LogRecord>, gone: iset<int>): seq<LogRecord> {
    if recs == [] then []
    else
      var n := |recs| - 1;
      Kept(recs[..n], gone) + (if recs[n].tid in gone then [] else [recs[n]])
  }

  lemma {:induction false} KeptEmpty(recs: seq<LogRecord>, gone: iset<int>)
    requires recs == []
    ensures Kept(recs, gone) == []
  {
  }

  lemma {:induction false} KeptOne(recs: seq<LogRecord>, r: LogRecord, gone: iset<int>)
    ensures Kept(recs + [r], gone) == if r.tid in gone then Kept(recs, gone) else Kept(recs, gone) + [r]
  {
    assert (recs + [r])[..|recs|] == recs;
  }

  /** Index of the last write of `s` before `n` by a transaction outside `gone`, or -1. */
  ghost function LastKept(recs: seq<LogRecord>, n: nat, gone: iset<int>, s: Slot): (i: int)
    requires n <= |recs|
    ensures -1 <= i < n && (i >= 0 ==> recs[i].tid !in gone && Writes(recs[i].op, s))
    ensures forall x :: i < x < n ==> recs[x].tid in gone || !Writes(recs[x].op, s)
  {
    if n == 0 then -1
    else if recs[n - 1].tid !in gone && Writes(recs[n - 1].op, s) then n - 1
    else LastKept(recs, n - 1, gone, s)
  }

  /** The last write that is kept decides what a slot holds. */
  lemma {:induction false} KeptLook(base: Records, recs: seq<LogRecord>, n: nat, gone: iset<int>, s: Slot)
    requires n <= |recs|
    ensures var c := LastKept(recs, n, gone, s);
            Look(Replay(base, Kept(recs[..n], gone)), s) == if c >= 0 then After(recs[c].op) else Look(base, s)
  {
    hide Replay, Kept;
    if n == 0 {
      KeptEmpty(recs[..n], gone);
      ReplayNothing(base);
    } else {
      KeptLook(base, recs, n - 1, gone, s);
      var front, r := recs[..n - 1], recs[n - 1];
      assert recs[..n] == front + [r];
      KeptOne(front, r, gone);
      ReplayOne(base, Kept(front, gone), r);
      if IsWrite(r.op) {
        LookPut(Replay(base, Kept(front, gone)), r.op.slot, After(r.op), s);
      }
    }
  }

  // ----- redo -----

  function LsnOf(pageLsn: map<PageId, int>, p: PageId): int {
    if p in pageLsn then pageLsn[p] else INVALID_LSN
  }

  /** How many leading records have an LSN of at most `lsn`. */
  function Seen(recs: seq<LogRecord>, lsn: int): (n: nat)
    ensures n <= |recs|
  {
    if recs == [] then 0
    else if recs[|recs| - 1].lsn <= lsn then |recs|
    else Seen(recs[..|recs| - 1], lsn)
  }

  lemma {:induction false} SeenSplits(recs: seq<LogRecord>, lsn: int, i: nat)
    requires Increasing(recs) && i < |recs|
    ensures recs[i].lsn <= lsn <==> i < Seen(recs, lsn)
  {
    var n := |recs| - 1;
    if recs[n].lsn > lsn && i < n {
      SeenSplits(recs[..n], lsn, i);
    }
  }

  /** The page of record `n` has not seen it. */
  predicate NeedsRedo(recs: seq<LogRecord>, lsns: map<PageId, int>, n: nat)
    requires n < |recs|
  {
    IsWrite(recs[n].op) && LsnOf(lsns, PageOf(recs[n].op.slot)) < recs[n].lsn
  }

  /** The LSNs of the records from `n` on that their pages have not seen. */
  function Dirty(recs: seq<LogRecord>, lsns: map<PageId, int>, n: nat): seq<int>
    requires n <= |recs|
    decreases |recs| - n
  {
    if n == |recs| then []
    else if NeedsRedo(recs, lsns, n) then [recs[n].lsn] + Dirty(recs, lsns, n + 1)
    else Dirty(recs, lsns, n + 1)
  }
}

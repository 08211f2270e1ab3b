/**
 The order in which undo visits the log: the heap of LSNs and the chains it follows.
 */
module LogUndo {
  import opened Options
  import opened LogCodec
  import opened LogHistory

  ghost predicate Loser(recs: seq<LogRecord>, i: int)
    requires 0 <= i < |recs|
  {
    Active(recs, |recs|, recs[i].tid)
  }

  /** `x` is the LSN of the last record before `n` of some loser. */
  ghost predicate Pending(recs: seq<LogRecord>, n: nat, x: int)
    requires n <= |recs|
  {
    exists i :: 0 <= i < n && recs[i].lsn == x && Loser(recs, i) && LastOf(recs, recs[i].tid, n) == i
  }

  /** The heap holds, once each, the LSNs where the losers' chains stand. */
  ghost predicate HeapIs(heap: multiset<int>, recs: seq<LogRecord>, n: nat)
    requires n <= |recs|
  {
    forall x :: heap[x] == if Pending(recs, n, x) then 1 else 0
  }

  /** The LSNs of the losers' records among the first `n`, latest first. */
  ghost function LosersDown(recs: seq<LogRecord>, n: nat): seq<int>
    requires n <= |recs|
  {
    if n == 0 then []
    else (if Loser(recs, n - 1) then [recs[n - 1].lsn] else []) + LosersDown(recs, n - 1)
  }

  lemma {:induction false} LastOfSame(recs: seq<LogRecord>, tid: int, m: nat, n: nat)
    requires m <= n <= |recs| && forall i :: m <= i < n ==> recs[i].tid != tid
    ensures LastOf(recs, tid, m) == LastOf(recs, tid, n)
    decreases n
  {
    if m < n {
      LastOfSame(recs, tid, m, n - 1);
    }
  }

  /** The top of the heap is the latest loser record below `n`. */
  lemma {:induction false} TopIsLatest(heap: multiset<int>, recs: seq<LogRecord>, n: nat, lsn: int) returns (m: nat)
    requires n <= |recs| && Increasing(recs) && HeapIs(heap, recs, n)
    requires lsn in heap && forall y :: y in heap ==> y <= lsn
    ensures m < n && recs[m].lsn == lsn && Loser(recs, m)
    ensures forall i :: m < i < n ==> !Loser(recs, i)
  {
    hide Active;
    assert heap[lsn] == 1;
    m :| 0 <= m < n && recs[m].lsn == lsn && Loser(recs, m) && LastOf(recs, recs[m].tid, n) == m;
    forall i | m < i < n ensures !Loser(recs, i) {
      var j := LastOf(recs, recs[i].tid, n);
      LoserPending(recs, i, j, n);
      var x := recs[j].lsn;
      assert heap[x] == if Pending(recs, n, x) then 1 else 0;
    }
  }

  lemma {:induction false} LoserPending(recs: seq<LogRecord>, i: nat, j: int, n: nat)
    requires i < n <= |recs| && j == LastOf(recs, recs[i].tid, n)
    ensures i <= j < n && (Loser(recs, i) ==> Pending(recs, n, recs[j].lsn))
  {
    hide Active;
    assert recs[j].tid == recs[i].tid;
    assert Loser(recs, i) ==> recs[j].lsn == recs[j].lsn && Loser(recs, j);
  }

  lemma {:induction false} SameRecord(recs: seq<LogRecord>, i: nat, j: nat)
    requires Increasing(recs) && i < |recs| && j < |recs| && recs[i].lsn == recs[j].lsn
    ensures i == j
  {
  }

  /** Which LSNs are pending below the record just taken. */
  lemma {:induction false} PendingDown(recs: seq<LogRecord>, n: nat, m: nat, x: int)
    requires m < n <= |recs| && WellFormed(recs) && Loser(recs, m) && forall i :: m < i < n ==> !Loser(recs, i)
    ensures Pending(recs, m, x) <==>
            (Pending(recs, n, x) && x != recs[m].lsn) || (x == recs[m].prevLsn && x != INVALID_LSN)
    ensures recs[m].prevLsn != INVALID_LSN ==> !Pending(recs, n, recs[m].prevLsn)
  {
    hide Active;
    var t := recs[m].tid;
    var p := LastOf(recs, t, m);
    assert Chained(recs, m);
    if Pending(recs, m, x) {
      var i :| 0 <= i < m && recs[i].lsn == x && Loser(recs, i) && LastOf(recs, recs[i].tid, m) == i;
      if recs[i].tid != t {
        KeepsLast(recs, recs[i].tid, m, n, i);
        assert recs[i].lsn == x && LastOf(recs, recs[i].tid, n) == i;
      }
    }
    if Pending(recs, n, x) && x != recs[m].lsn {
      var i :| 0 <= i < n && recs[i].lsn == x && Loser(recs, i) && LastOf(recs, recs[i].tid, n) == i;
      assert i < m;
      if recs[i].tid != t {
        KeepsLast(recs, recs[i].tid, m, n, i);
        assert recs[i].lsn == x && LastOf(recs, recs[i].tid, m) == i;
      }
    }
    if p >= 0 {
      assert recs[p].lsn == recs[m].prevLsn && Loser(recs, p) && LastOf(recs, recs[p].tid, m) == p;
      NotPending(recs, n, m, p);
    }
  }

  /** Between `m` and `n` there is no record of another loser. */
  lemma {:induction false} KeepsLast(recs: seq<LogRecord>, tid: int, m: nat, n: nat, i: int)
    requires m < n <= |recs| && 0 <= i < |recs| && recs[i].tid == tid && Loser(recs, i) && recs[m].tid != tid
    requires forall x :: m < x < n ==> !Loser(recs, x)
    ensures LastOf(recs, tid, m) == LastOf(recs, tid, n)
  {
    hide Active;
    forall x | m <= x < n ensures recs[x].tid != tid {
      if x > m {
        assert !Loser(recs, x);
      }
    }
    LastOfSame(recs, tid, m, n);
  }

  lemma {:induction false} NotPending(recs: seq<LogRecord>, n: nat, m: nat, p: nat)
    requires Increasing(recs) && p < m < n <= |recs| && recs[p].tid == recs[m].tid
    ensures !Pending(recs, n, recs[p].lsn)
  {
    hide Active;
    forall i | 0 <= i < n && recs[i].lsn == recs[p].lsn ensures LastOf(recs, recs[i].tid, n) != i {
      SameRecord(recs, i, p);
    }
  }

  /** Replacing the taken LSN by its predecessor in the chain. */
  lemma {:induction false} HeapStep(heap: multiset<int>, recs: seq<LogRecord>, n: nat, m: nat)
    requires m < n <= |recs| && WellFormed(recs) && HeapIs(heap, recs, n)
    requires recs[m].lsn in heap && Loser(recs, m) && forall i :: m < i < n ==> !Loser(recs, i)
    ensures var rest := heap - multiset{recs[m].lsn};
            HeapIs(if recs[m].prevLsn == INVALID_LSN then rest else rest + multiset{recs[m].prevLsn}, recs, m)
  {
    hide Active, Pending, WellFormed;
    var rest := heap - multiset{recs[m].lsn};
    var next := if recs[m].prevLsn == INVALID_LSN then rest else rest + multiset{recs[m].prevLsn};
    PrevBefore(recs, m);
    forall x ensures next[x] == if Pending(recs, m, x) then 1 else 0 {
      PendingDown(recs, n, m, x);
      assert heap[x] == if Pending(recs, n, x) then 1 else 0;
    }
  }

  lemma {:induction false} PrevBefore(recs: seq<LogRecord>, m: nat)
    requires WellFormed(recs) && m < |recs|
    ensures recs[m].prevLsn < recs[m].lsn
  {
    assert Chained(recs, m);
  }

  // ----- what undo does -----

  /** Undo swallows no error: only the undo of a delete does not need its row. */
  predicate CanUndo(db: Records, op: Op)
    requires IsWrite(op)
  {
    op.Delete? || op.slot in db
  }

  /** Undoing the records of `gone` among the first `n`, latest first; none if an error escapes. */
  ghost function UndoRun(recs: seq<LogRecord>, gone: iset<int>, n: nat, db: Records): Option<Records>
    requires n <= |recs|
  {
    if n == 0 then Some(db)
    else if recs[n - 1].tid !in gone || !IsWrite(recs[n - 1].op) then UndoRun(recs, gone, n - 1, db)
    else if CanUndo(db, recs[n - 1].op) then UndoRun(recs, gone, n - 1, Undone(db, recs[n - 1].op))
    else None
  }

  /** Records that are not losers' do not matter. */
  lemma {:induction false} UndoDownTo(recs: seq<LogRecord>, m: nat, n: nat, db: Records)
    requires m <= n <= |recs| && forall i :: m <= i < n ==> !Loser(recs, i)
    ensures UndoRun(recs, Losers(recs), n, db) == UndoRun(recs, Losers(recs), m, db)
    decreases n
  {
    hide Active;
    if m < n {
      assert !Loser(recs, n - 1);
      UndoDownTo(recs, m, n - 1, db);
    }
  }
}

/**
 `LockManager`: the calls on table locks, step by step, against the state machine of `LockModel`.
 */
module LockManager {
  import opened Options
  import opened Sequences
  import opened LockModel
  import opened LockSafety
  import opened LockRuns
  import opened LockSteps
  import opened LockAnswers
  import opened LockSerial
  import opened LockOvertaking

  /** Walks the list to the request of `t`. */
  method Locate(reqs: seq<Request>, t: int) returns (i: nat)
    ensures i == Find(reqs, t)
  {
    i := 0;
    while i < |reqs| && reqs[i].tid != t
      invariant i <= |reqs|
      invariant forall x :: 0 <= x < i ==> reqs[x].tid != t
    {
      i := i + 1;
    }
  }

  /** The predicate a sleeping request re-evaluates when it is notified. */
  method IsClear(reqs: seq<Request>, t: int, mode: Mode) returns (clear: bool)
    ensures clear == Clear(reqs, t, mode)
  {
    for i := 0 to |reqs|
      invariant forall x :: 0 <= x < i ==>
                  reqs[x].tid == t || !reqs[x].granted || (mode == Shared && reqs[x].mode == Shared)
    {
      if reqs[i].tid != t && reqs[i].granted && (mode == Exclusive || reqs[i].mode == Exclusive) {
        return false;
      }
    }
    return true;
  }

  /** One pass for the strongest mode and the oldest id of what is left. */
  method Recompute(reqs: seq<Request>) returns (group: Group, oldest: int)
    ensures group == Strongest(reqs) && oldest == LockModel.Least(reqs)
  {
    group, oldest := NonLock, INT32_MAX;
    for i := 0 to |reqs|
      invariant group == NonLock <==> i == 0
      invariant group == GroupX <==> exists x :: 0 <= x < i && reqs[x].mode == Exclusive
      invariant oldest <= INT32_MAX && forall x :: 0 <= x < i ==> oldest <= reqs[x].tid
      invariant oldest < INT32_MAX ==> exists x :: 0 <= x < i && reqs[x].tid == oldest
    {
      if reqs[i].mode == Exclusive {
        group := GroupX;
      } else if group == NonLock {
        group := GroupS;
      }
      if reqs[i].tid < oldest {
        oldest := reqs[i].tid;
      }
    }
  }

  class LockManager {
    var lockTable: map<int, Queue>
    var txns: map<int, Txn>

    ghost function View(): LockModel.State
      reads this
    {
      State(lockTable, txns)
    }

    ghost predicate Valid()
      reads this
    {
      Inv(View()) && Sleepers(View())
    }

    constructor ()
      ensures Valid() && View() == INIT
    {
      lockTable, txns := map[], map[];
      new;
      InitInv();
      assert forall t: int, fd: int :: RequestOf(INIT, t, fd) == None;
    }

    /** `check_lock`: two-phase locking. */
    method CheckLock(t: int) returns (o: Outcome)
      modifies this`txns
      ensures var x := TxnOf(old(View()), t);
              if MayAsk(x) then o == Granted && View() == Grow(old(View()), t)
              else o == Refusal(x) && View() == old(View())
    {
      var x := if t in txns then txns[t] else NEW_TXN;
      if x.phase == Committed || x.phase == Aborted {
        return Refused;
      }
      if x.phase == Shrinking {
        return Died;
      }
      txns := txns[t := x.(phase := Growing)];
      return Granted;
    }

    /** The lock set of `t` gains `fd`. */
    method Emplace(t: int, fd: int)
      modifies this`txns
      ensures View() == AddLock(old(View()), t, fd)
    {
      var x := if t in txns then txns[t] else NEW_TXN;
      txns := txns[t := x.(locks := x.locks + {fd})];
    }

    method LockSharedOnTable(t: int, fd: int) returns (o: Outcome)
      requires Valid() && !Blocked(View(), t) && 0 <= t < INT32_MAX
      modifies this
      ensures Valid() && (View(), o) == RequestShared(old(View()), t, fd)
      ensures Answers(old(View()), View(), t, fd, Shared, o) && OnlyAt(old(View()), View(), t, fd)
      ensures MayAsk(TxnOf(old(View()), t)) && SharedAtOnce(old(View()), t, fd) ==> o == Granted
    {
      hide Inv, Blocked, Sleepers, Find, Answers, OnlyAt, SharedAtOnce;
      ghost var s := View();
      SharedAnswer(s, t, fd);
      AskSharedStep(s, t, fd);
      SleepersStep(s, AskS(t, fd));
      o := CheckLock(t);
      if o != Granted {
        return;
      }
      var q := EMPTY_QUEUE;
      if fd in lockTable {
        q := lockTable[fd];
        var i := Locate(q.reqs, t);
        if i < |q.reqs| {
          return Granted;
        }
        if q.group == GroupX {
          if t > q.oldest {
            return Died;
          }
          lockTable := lockTable[fd := q.(oldest := t, reqs := q.reqs + [Request(t, Shared, false)])];
          return Waiting;
        }
      }
      if t < q.oldest {
        q := q.(oldest := t);
      }
      q := q.(reqs := q.reqs + [Request(t, Shared, true)]);
      lockTable := lockTable[fd := q.(group := GroupS, sharedNum := q.sharedNum + 1)];
      Emplace(t, fd);
      return Granted;
    }

    method LockExclusiveOnTable(t: int, fd: int) returns (o: Outcome)
      requires Valid() && !Blocked(View(), t) && 0 <= t < INT32_MAX
      modifies this
      ensures Valid() && (View(), o) == RequestExclusive(old(View()), t, fd)
      ensures Answers(old(View()), View(), t, fd, Exclusive, o) && OnlyAt(old(View()), View(), t, fd)
      ensures MayAsk(TxnOf(old(View()), t)) && ExclusiveAtOnce(old(View()), t, fd) ==> o == Granted
    {
      hide Inv, Blocked, Sleepers, Find, Answers, OnlyAt, ExclusiveAtOnce;
      ghost var s := View();
      ExclusiveAnswer(s, t, fd);
      AskExclusiveStep(s, t, fd);
      SleepersStep(s, AskX(t, fd));
      o := CheckLock(t);
      if o != Granted {
        return;
      }
      var q := EMPTY_QUEUE;
      if fd in lockTable {
        q := lockTable[fd];
        var i := Locate(q.reqs, t);
        if i < |q.reqs| {
          o := Upgrade(t, fd, i);
          return;
        }
        if q.group != NonLock {
          if t > q.oldest {
            return Died;
          }
          lockTable := lockTable[fd := q.(oldest := t, reqs := q.reqs + [Request(t, Exclusive, false)])];
          return Waiting;
        }
      }
      if t < q.oldest {
        q := q.(oldest := t);
      }
      lockTable := lockTable[fd := q.(reqs := q.reqs + [Request(t, Exclusive, true)], group := GroupX)];
      Emplace(t, fd);
      return Granted;
    }

    /** The transaction, past `check_lock`, already has request `i` in the queue. */
    method Upgrade(t: int, fd: int, i: nat) returns (o: Outcome)
      requires t in txns && txns[t].phase == Growing && fd in lockTable &&
               i == Find(lockTable[fd].reqs, t) < |lockTable[fd].reqs|
      modifies this`lockTable
      ensures (View(), o) == RequestExclusive(old(View()), t, fd)
    {
      hide Find;
      assert txns[t := txns[t].(phase := Growing)] == txns;
      var q := lockTable[fd];
      var r := q.reqs[i];
      if r.mode == Exclusive {
        return Granted;
      }
      if q.sharedNum == 1 {
        lockTable := lockTable[fd := q.(reqs := q.reqs[i := r.(mode := Exclusive)], group := GroupX)];
        return Granted;
      }
      if t > q.oldest {
        return Died;
      }
      r := r.(granted := false, mode := Exclusive);
      lockTable := lockTable[fd := q.(reqs := q.reqs[i := r], oldest := t)];
      return Waiting;
    }

    /** A notified waiter: it sleeps on, or takes its grant. */
    method Notified(t: int, fd: int) returns (granted: bool)
      requires Valid() && Waits(View(), t, fd)
      modifies this
      ensures Valid() && granted == CanWake(old(View()), t, fd)
      ensures granted <==>
              forall u: int :: u != t && Holds(old(View()), u, fd) ==>
                RequestOf(old(View()), t, fd).value.mode == Shared && !HoldsX(old(View()), u, fd)
      ensures View() == if granted then Wake(old(View()), t, fd) else old(View())
    {
      hide Inv, Sleepers, Find, Clear;
      ghost var s := View();
      WakeAnswer(s, t, fd);
      LookupFound(QueueOf(s, fd).reqs, t);
      var q := lockTable[fd];
      var i := Locate(q.reqs, t);
      granted := IsClear(q.reqs, t, q.reqs[i].mode);
      if granted {
        WakeStep(s, t, fd);
        SleepersStep(s, WakeUp(t, fd));
        q := q.(reqs := q.reqs[i := q.reqs[i].(granted := true)]);
        if q.reqs[i].mode == Shared {
          q := q.(sharedNum := q.sharedNum + 1, group := if q.group == GroupX then GroupX else GroupS);
        } else {
          q := q.(group := GroupX);
        }
        lockTable := lockTable[fd := q];
        Emplace(t, fd);
      }
    }

    /** Removes every request of `t`; there is only one. */
    static method Erase(q: Queue, t: int) returns (q': Queue)
      requires Safe(q) && Find(q.reqs, t) < |q.reqs|
      ensures var i := Find(q.reqs, t);
              q' == q.(reqs := Drop(q.reqs, i),
                       sharedNum := if q.reqs[i].mode == Shared then q.sharedNum - 1 else q.sharedNum)
    {
      hide Find, Bounds, Exclusion;
      var i := Locate(q.reqs, t);
      ghost var i0 := i;
      q' := q;
      while i < |q'.reqs|
        invariant i == Find(q'.reqs, t)
        invariant q' == q ||
                  (i == |q'.reqs| &&
                   q' == q.(reqs := Drop(q.reqs, i0),
                            sharedNum := if q.reqs[i0].mode == Shared then q.sharedNum - 1 else q.sharedNum))
        decreases |q'.reqs|
      {
        if q'.reqs[i].mode == Shared {
          q' := q'.(sharedNum := q'.sharedNum - 1);
        }
        q' := q'.(reqs := q'.reqs[..i] + q'.reqs[i + 1..]);
        LookupDrop(q.reqs, i0, t);
        LookupFound(q'.reqs, t);
        i := Locate(q'.reqs, t);
      }
    }

    method Unlock(t: int, fd: int)
      requires Valid() && !Blocked(View(), t) && fd in TxnOf(View(), t).locks
      modifies this
      ensures Valid() && View() == LockModel.Unlock(old(View()), t, fd)
    {
      hide Inv, Blocked, Sleepers, Find, Safe;
      ghost var s := View();
      ReleaseStep(s, t, fd);
      SleepersStep(s, Release(t, fd));
      assert Safe(QueueOf(s, fd)) by {
        InvQueue(s, fd);
      }
      var x := if t in txns then txns[t] else NEW_TXN;
      if x.phase == Committed || x.phase == Aborted {
        return;
      }
      if x.phase == Growing {
        txns := txns[t := x.(phase := Shrinking)];
      }
      if fd !in lockTable {
        return;
      }
      var q := lockTable[fd];
      var i := Locate(q.reqs, t);
      if i == |q.reqs| {
        return;
      }
      q := Erase(q, t);
      if q.reqs == [] {
        lockTable := lockTable - {fd};
        return;
      }
      var group, oldest := Recompute(q.reqs);
      lockTable := lockTable[fd := q.(group := group, oldest := oldest)];
    }

    /** The end of commit and abort: every lock is released, then the lock set is cleared and the state set. */
    method Finish(t: int, end: Phase)
      requires Valid() && !Blocked(View(), t) && TxnOf(View(), t).phase !in {Committed, Aborted} &&
               (end == Committed || end == Aborted)
      modifies this
      ensures Valid() && TxnOf(View(), t) == Txn(end, {})
      ensures forall fd: int :: RequestOf(View(), t, fd) == None
      ensures forall u: int, fd: int :: u != t ==> RequestOf(View(), u, fd) == RequestOf(old(View()), u, fd)
      ensures forall u: int :: u != t ==> TxnOf(View(), u) == TxnOf(old(View()), u)
    {
      hide Inv, Blocked, Sleepers, Find, Lookup, LockModel.Unlock;
      var locks := if t in txns then txns[t].locks else {};
      var left := locks;
      LocksAll(View(), t);
      while left != {}
        invariant Valid() && !Blocked(View(), t) && left <= locks <= TxnOf(View(), t).locks
        invariant TxnOf(View(), t).phase !in {Committed, Aborted}
        invariant forall fd: int :: fd !in left ==> RequestOf(View(), t, fd) == None
        invariant forall u: int, fd: int :: u != t ==> RequestOf(View(), u, fd) == RequestOf(old(View()), u, fd)
        invariant forall u: int :: u != t ==> TxnOf(View(), u) == TxnOf(old(View()), u)
        decreases |left|
      {
        ghost var some := SomeMember(left);
        var fd :| fd in left;
        ReleaseOne(View(), t, fd);
        Unlock(t, fd);
        left := left - {fd};
      }
      FinishStep(View(), t, end);
      SleepersStep(View(), Event.Finish(t, end));
      txns := txns[t := Txn(end, {})];
    }
  }

  lemma {:induction false} InvQueue(s: State, fd: int)
    requires Inv(s)
    ensures Safe(QueueOf(s, fd))
  {
    hide Safe;
    SafeQueue(s, fd);
  }

  lemma {:induction false} LocksAll(s: State, t: int)
    requires Inv(s) && !Blocked(s, t)
    ensures forall fd: int :: fd !in TxnOf(s, t).locks ==> RequestOf(s, t, fd) == None
  {
    hide Find, Lookup, Safe, Blocked;
    forall fd: int | RequestOf(s, t, fd).Some? ensures fd in TxnOf(s, t).locks {
      NotBlocked(s, t, fd);
    }
  }

  lemma {:induction false} ReleaseOne(s: State, t: int, fd: int)
    requires Inv(s) && Sleepers(s) && !Blocked(s, t) && fd in TxnOf(s, t).locks &&
             TxnOf(s, t).phase !in {Committed, Aborted}
    ensures var s' := LockModel.Unlock(s, t, fd);
            && !Blocked(s', t) && OnlyAt(s, s', t, fd) && OnlyTxn(s, s', t)
            && RequestOf(s', t, fd) == None && TxnOf(s', t).phase == Shrinking
  {
    hide Find, Lookup, Inv, LockModel.Unlock;
    ReleaseStep(s, t, fd);
    var s' := LockModel.Unlock(s, t, fd);
    forall gd: int | RequestOf(s', t, gd).Some? ensures Holds(s', t, gd) {
      assert RequestOf(s', t, gd) == RequestOf(s, t, gd);
      assert Holds(s, t, gd);
    }
  }
}

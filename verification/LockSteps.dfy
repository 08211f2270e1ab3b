/**
 Each step keeps the invariant, and what it changes.
 */
module LockSteps {
  import opened Options
  import opened LockModel
  import opened LockSafety
  import opened LockRuns

  /** Only the request of `t` at table `fd` may differ. */
  ghost predicate OnlyAt(s: State, s': State, t: int, fd: int) {
    forall u: int, gd: int :: u != t || gd != fd ==> RequestOf(s', u, gd) == RequestOf(s, u, gd)
  }

  /** Only transaction `t` may differ, and it keeps its locks. */
  ghost predicate OnlyTxn(s: State, s': State, t: int) {
    && (forall u :: u != t ==> TxnOf(s', u) == TxnOf(s, u))
    && TxnOf(s, t).locks <= TxnOf(s', t).locks
  }

  /** A step that rewrites one queue and one transaction. */
  lemma {:induction false} Rewrite(s: State, s': State, t: int, fd: int, q: Queue)
    requires Inv(s) && s'.queues == s.queues[fd := q] && Safe(q) && q.reqs != []
    requires forall u: int :: u != t ==> Lookup(q.reqs, u) == Lookup(QueueOf(s, fd).reqs, u)
    requires OnlyTxn(s, s', t) && TxnOf(s', t).phase != Default
    requires Lookup(q.reqs, t).Some? && Lookup(q.reqs, t).value.granted ==> fd in TxnOf(s', t).locks
    ensures Inv(s') && OnlyAt(s, s', t, fd) && RequestOf(s', t, fd) == Lookup(q.reqs, t)
  {
    hide Safe, Find, Lookup;
    assert QueueOf(s', fd) == q;
    forall u: int, gd: int | u != t || gd != fd ensures RequestOf(s', u, gd) == RequestOf(s, u, gd) {
    }
    forall u, gd | Holds(s', u, gd) ensures gd in TxnOf(s', u).locks {
      if u != t || gd != fd {
        assert RequestOf(s', u, gd) == RequestOf(s, u, gd);
        assert Holds(s, u, gd);
      }
    }
  }

  /** A step that leaves the queues alone. */
  lemma {:induction false} SameQueues(s: State, s': State, t: int)
    requires Inv(s) && s'.queues == s.queues && OnlyTxn(s, s', t)
    requires TxnOf(s', t).locks == TxnOf(s, t).locks && (TxnOf(s', t).phase == Default ==> TxnOf(s, t).phase == Default)
    ensures Inv(s') && forall u: int, gd: int :: RequestOf(s', u, gd) == RequestOf(s, u, gd)
  {
    hide Safe, Find;
    forall u: int, gd: int ensures RequestOf(s', u, gd) == RequestOf(s, u, gd) {
    }
    forall u, gd | Holds(s', u, gd) ensures gd in TxnOf(s', u).locks {
      assert Holds(s, u, gd);
    }
  }

  lemma {:induction false} NotBlocked(s: State, t: int, fd: int)
    requires !Blocked(s, t) && RequestOf(s, t, fd).Some?
    ensures Holds(s, t, fd)
  {
  }

  lemma {:induction false} LookupFound(reqs: seq<Request>, t: int)
    ensures Lookup(reqs, t).Some? <==> Find(reqs, t) < |reqs|
    ensures Find(reqs, t) < |reqs| ==> Lookup(reqs, t) == Some(reqs[Find(reqs, t)])
  {
    hide Find;
  }

  // ----- requests -----

  lemma {:induction false} AskSharedStep(s: State, t: int, fd: int)
    requires Inv(s) && !Blocked(s, t) && 0 <= t < INT32_MAX
    ensures var s' := RequestShared(s, t, fd).0;
            && Inv(s') && OnlyAt(s, s', t, fd) && OnlyTxn(s, s', t)
            && (RequestOf(s, t, fd).Some? ==> RequestOf(s', t, fd) == RequestOf(s, t, fd))
            && (HoldsX(s', t, fd) ==> HoldsX(s, t, fd))
            && (TxnOf(s', t).phase == TxnOf(s, t).phase || (MayAsk(TxnOf(s, t)) && TxnOf(s', t).phase == Growing))
  {
    hide Safe, Find, Blocked, Queues, Locks, Phases;
    var s', x, q := RequestShared(s, t, fd).0, TxnOf(s, t), QueueOf(s, fd);
    LookupFound(q.reqs, t);
    SafeQueue(s, fd);
    if !MayAsk(x) {
      SameQueues(s, s', t);
    } else if Find(q.reqs, t) < |q.reqs| || (q.group == GroupX && t > q.oldest) {
      SameQueues(s, s', t);
    } else {
      var r := Request(t, Shared, q.group != GroupX);
      NoSharedOldest(q);
      AppendQueue(q, r);
      var q' := QueueOf(s', fd);
      forall u: int | u != t ensures Lookup(q'.reqs, u) == Lookup(q.reqs, u) {
        LookupAppend(q.reqs, r, u);
      }
      LookupAppend(q.reqs, r, t);
      Rewrite(s, s', t, fd, q');
    }
  }

  lemma {:induction false} NoSharedOldest(q: Queue)
    requires Safe(q)
    ensures q.group == GroupX ==> q.reqs != []
    ensures q.reqs == [] ==> q.group == NonLock
  {
  }

  /** The queue after a new shared request. */
  lemma {:induction false} AppendQueue(q: Queue, r: Request)
    requires Safe(q) && Find(q.reqs, r.tid) == |q.reqs| && 0 <= r.tid < INT32_MAX && r.mode == Shared &&
             r.granted == (q.group != GroupX)
    requires q.group == GroupX ==> r.tid <= q.oldest
    requires q.reqs == [] ==> q.oldest == INT32_MAX
    ensures if r.granted then Safe(
                                   Queue(q.reqs + [r], GroupS, q.sharedNum + 1,
                                         if r.tid < q.oldest then r.tid else q.oldest))
            else Safe(q.(oldest := r.tid, reqs := q.reqs + [r]))
  {
    hide Find, SharedGrants;
    AppendSafe(q, r, if r.granted then GroupS else GroupX, if r.granted then q.sharedNum + 1 else q.sharedNum,
               if r.tid < q.oldest || q.reqs == [] then r.tid else q.oldest);
    OldestDiffers(q, r.tid);
  }

  lemma {:induction false} OldestDiffers(q: Queue, t: int)
    requires Safe(q) && Find(q.reqs, t) == |q.reqs|
    ensures q.reqs != [] ==> t != q.oldest
  {
    hide Find, SharedGrants;
  }

  /** The queue after a new exclusive request. */
  lemma {:induction false} AppendQueueX(q: Queue, r: Request)
    requires Safe(q) && Find(q.reqs, r.tid) == |q.reqs| && 0 <= r.tid < INT32_MAX && r.mode == Exclusive &&
             r.granted == (q.group == NonLock)
    requires q.group != NonLock ==> r.tid <= q.oldest
    requires q.reqs == [] ==> q.oldest == INT32_MAX
    ensures if r.granted then Safe(
                                   Queue(q.reqs + [r], GroupX, q.sharedNum,
                                         if r.tid < q.oldest then r.tid else q.oldest))
            else Safe(q.(oldest := r.tid, reqs := q.reqs + [r]))
  {
    hide Find, SharedGrants;
    AppendSafe(q, r, if r.granted then GroupX else q.group, q.sharedNum,
               if r.tid < q.oldest || q.reqs == [] then r.tid else q.oldest);
    OldestDiffers(q, r.tid);
  }

  /** A holder of S asks for X: at once if it is alone, else it gives its grant up and waits. */
  lemma {:induction false} UpgradeQueue(q: Queue, i: nat)
    requires Safe(q) && i < |q.reqs| && q.reqs[i].granted && q.reqs[i].mode == Shared
    ensures q.sharedNum == 1 ==> Safe(q.(reqs := q.reqs[i := q.reqs[i].(mode := Exclusive)], group := GroupX))
    ensures q.reqs[i].tid <= q.oldest ==>
              Safe(q.(reqs := q.reqs[i := Request(q.reqs[i].tid, Exclusive, false)], oldest := q.reqs[i].tid))
  {
    hide SharedGrants;
    var t := q.reqs[i].tid;
    if q.sharedNum == 1 {
      LoneHolder(q, i);
      SetSafe(q, i, q.reqs[i].(mode := Exclusive), GroupX, 1);
    }
    SetSafe(q, i, Request(t, Exclusive, false), q.group, q.sharedNum);
    assert q.oldest <= t;
  }

  /** `t` holds S at `fd`, asks for X, and has to wait: the one step that gives a grant up early. */
  predicate UpgradeWaits(s: State, e: Event) {
    && e.AskX? && Holds(s, e.tid, e.fd) && RequestExclusive(s, e.tid, e.fd).1 == Waiting
  }

  lemma {:induction false} AskExclusiveStep(s: State, t: int, fd: int)
    requires Inv(s) && !Blocked(s, t) && 0 <= t < INT32_MAX
    ensures var s' := RequestExclusive(s, t, fd).0;
            && Inv(s') && OnlyAt(s, s', t, fd) && OnlyTxn(s, s', t)
            && (RequestOf(s, t, fd).Some? && !UpgradeWaits(s, AskX(t, fd)) ==>
                  Holds(s', t, fd) && (HoldsX(s, t, fd) ==> HoldsX(s', t, fd)))
            && (TxnOf(s', t).phase == TxnOf(s, t).phase || (MayAsk(TxnOf(s, t)) && TxnOf(s', t).phase == Growing))
  {
    hide Safe, Find, Blocked, Queues, Locks, Phases;
    var s', x, q := RequestExclusive(s, t, fd).0, TxnOf(s, t), QueueOf(s, fd);
    var i := Find(q.reqs, t);
    LookupFound(q.reqs, t);
    SafeQueue(s, fd);
    if RequestOf(s, t, fd).Some? {
      NotBlocked(s, t, fd);
      HolderLocks(s, t, fd);
    }
    if s'.queues == s.queues {
      SameQueues(s, s', t);
    } else if i < |q.reqs| {
      var q' := QueueOf(s', fd);
      UpgradeQueue(q, i);
      UpgradeLookup(q, i, q'.reqs[i]);
      Rewrite(s, s', t, fd, q');
    } else {
      var r := Request(t, Exclusive, q.group == NonLock);
      AppendQueueX(q, r);
      var q' := QueueOf(s', fd);
      forall u: int ensures Lookup(q'.reqs, u) == if u == t then Some(r) else Lookup(q.reqs, u) {
        LookupAppend(q.reqs, r, u);
      }
      Rewrite(s, s', t, fd, q');
    }
  }

  lemma {:induction false} HolderLocks(s: State, t: int, fd: int)
    requires Inv(s) && Holds(s, t, fd)
    ensures fd in TxnOf(s, t).locks && TxnOf(s, t).phase != Default
  {
    hide Safe, Find, Holds;
  }

  lemma {:induction false} UpgradeLookup(q: Queue, i: nat, r: Request)
    requires Safe(q) && i < |q.reqs| && r.tid == q.reqs[i].tid
    ensures forall u: int :: Lookup(q.reqs[i := r], u) == if u == r.tid then Some(r) else Lookup(q.reqs, u)
  {
    hide Find, SharedGrants;
    forall u: int ensures Lookup(q.reqs[i := r], u) == if u == r.tid then Some(r) else Lookup(q.reqs, u) {
      LookupSet(q.reqs, i, r, u);
    }
  }

  // ----- wake-up and release -----

  lemma {:induction false} WakeStep(s: State, t: int, fd: int)
    requires Inv(s) && CanWake(s, t, fd)
    ensures var s' := Wake(s, t, fd);
            && Inv(s') && OnlyAt(s, s', t, fd) && OnlyTxn(s, s', t) && TxnOf(s', t).phase == TxnOf(s, t).phase
            && RequestOf(s, t, fd).Some? && RequestOf(s', t, fd) == Some(RequestOf(s, t, fd).value.(granted := true))
  {
    hide Safe, Find, Blocked, Queues, Locks, Phases, Clear;
    var s', q := Wake(s, t, fd), QueueOf(s, fd);
    var i := Find(q.reqs, t);
    LookupFound(q.reqs, t);
    SafeQueue(s, fd);
    WakeQueue(q, i);
    assert RequestOf(s, t, fd).Some?;
    var q' := QueueOf(s', fd);
    UpgradeLookup(q, i, q'.reqs[i]);
    Rewrite(s, s', t, fd, q');
  }

  lemma {:induction false} WakeQueue(q: Queue, i: nat)
    requires Safe(q) && i < |q.reqs| && !q.reqs[i].granted && Clear(q.reqs, q.reqs[i].tid, q.reqs[i].mode)
    ensures var reqs := q.reqs[i := q.reqs[i].(granted := true)];
            if q.reqs[i].mode == Shared then
              Safe(Queue(reqs, if q.group == GroupX then GroupX else GroupS, q.sharedNum + 1, q.oldest))
            else Safe(q.(reqs := reqs, group := GroupX))
  {
    hide SharedGrants, Clear;
    var r := q.reqs[i].(granted := true);
    if r.mode == Shared {
      SetSafe(q, i, r, if q.group == GroupX then GroupX else GroupS, q.sharedNum + 1);
    } else {
      SetSafe(q, i, r, GroupX, q.sharedNum);
    }
  }

  lemma {:induction false} ReleaseStep(s: State, t: int, fd: int)
    requires Inv(s) && !Blocked(s, t) && fd in TxnOf(s, t).locks
    ensures var s' := Unlock(s, t, fd);
            && Inv(s') && OnlyAt(s, s', t, fd) && OnlyTxn(s, s', t)
            && TxnOf(s', t).phase != Growing && TxnOf(s', t).phase != Default
            && (RequestOf(s', t, fd) == None || RequestOf(s', t, fd) == RequestOf(s, t, fd))
            && (TxnOf(s, t).phase !in {Committed, Aborted} ==>
                  TxnOf(s', t).phase == Shrinking && RequestOf(s', t, fd) == None)
  {
    hide Safe, Find, Blocked, Queues, Locks;
    var s', q := Unlock(s, t, fd), QueueOf(s, fd);
    var i := Find(q.reqs, t);
    LookupFound(q.reqs, t);
    SafeQueue(s, fd);
    assert TxnOf(s, t).locks != {};
    if s'.queues == s.queues {
      SameQueues(s, s', t);
    } else {
      NotBlocked(s, t, fd);
      DropLookup(q, i);
      if Drop(q.reqs, i) == [] {
        Erase(s, s', t, fd);
      } else {
        DropSafe(q, i, if q.reqs[i].mode == Shared then q.sharedNum - 1 else q.sharedNum);
        Rewrite(s, s', t, fd, QueueOf(s', fd));
      }
    }
  }

  lemma {:induction false} DropLookup(q: Queue, i: nat)
    requires Safe(q) && i < |q.reqs|
    ensures forall u: int :: Lookup(Drop(q.reqs, i), u) == if u == q.reqs[i].tid then None else Lookup(q.reqs, u)
  {
    hide Find, SharedGrants;
    forall u: int ensures Lookup(Drop(q.reqs, i), u) == if u == q.reqs[i].tid then None else Lookup(q.reqs, u) {
      LookupDrop(q.reqs, i, u);
    }
  }

  /** The last request leaves, and its queue with it. */
  lemma {:induction false} Erase(s: State, s': State, t: int, fd: int)
    requires Inv(s) && s'.queues == s.queues - {fd} && OnlyTxn(s, s', t) && TxnOf(s', t).phase != Default
    requires forall u: int :: u != t ==> Lookup(QueueOf(s, fd).reqs, u) == None
    ensures Inv(s') && OnlyAt(s, s', t, fd)
  {
    hide Safe;
    assert QueueOf(s', fd) == EMPTY_QUEUE;
    forall u: int, gd: int ensures RequestOf(s', u, gd) == if gd == fd then None else RequestOf(s, u, gd) {
    }
    forall u, gd | Holds(s', u, gd) ensures gd in TxnOf(s', u).locks {
      assert Holds(s, u, gd);
    }
  }
}

/**
 What a call on a table lock answers, in terms of who has asked and who holds what: neither the group mode nor the
 oldest id of the queue is needed to say it.
 */
module LockAnswers {
  import opened Options
  import opened LockModel
  import opened LockSafety
  import opened LockRuns
  import opened LockSteps
  import opened LockSerial

  /** An older transaction has a request for the table. */
  ghost predicate Older(s: State, t: int, fd: int) {
    exists u: int :: u < t && RequestOf(s, u, fd).Some?
  }

  predicate Has(s: State, t: int, fd: int, mode: Mode) {
    if mode == Shared then Holds(s, t, fd) else HoldsX(s, t, fd)
  }

  /**
   Wait-die under two phases: a transaction that has ended is refused, one that has released a lock dies. Any other
   gets the lock, or waits for it if it is the oldest to ask for the table, or dies.
   */
  ghost predicate Answers(s: State, s': State, t: int, fd: int, mode: Mode, o: Outcome) {
    var x := TxnOf(s, t);
    match x.phase
    case Committed => o == Refused && s' == s
    case Aborted => o == Refused && s' == s
    case Shrinking => o == Died && s' == s
    case _ =>
      if Has(s', t, fd, mode) then o == Granted && TxnOf(s', t) == Txn(Growing, x.locks + {fd})
      else
        && TxnOf(s', t) == Txn(Growing, x.locks)
        && o == (if Older(s, t, fd) then Died else Waiting)
        && RequestOf(s', t, fd) == (if o == Died then RequestOf(s, t, fd) else Some(Request(t, mode, false)))
  }

  /** S is there at once if nobody has asked for X, and for whoever has S or X already. */
  ghost predicate SharedAtOnce(s: State, t: int, fd: int) {
    RequestOf(s, t, fd).Some? ||
    forall u: int :: RequestOf(s, u, fd).Some? ==> RequestOf(s, u, fd).value.mode == Shared
  }

  /** X is there at once if nobody has asked for the table, and for whoever has X already. */
  ghost predicate ExclusiveAtOnce(s: State, t: int, fd: int) {
    HoldsX(s, t, fd) || forall u: int :: RequestOf(s, u, fd).None?
  }

  // ----- the fields of the queue, in terms of its requests -----

  lemma {:induction false} OldestIs(s: State, t: int, fd: int)
    requires Safe(QueueOf(s, fd))
    ensures QueueOf(s, fd).reqs != [] ==> (t > QueueOf(s, fd).oldest <==> Older(s, t, fd))
  {
    hide Find, SharedGrants, Accounted;
    var q := QueueOf(s, fd);
    if q.reqs != [] {
      var i :| 0 <= i < |q.reqs| && q.reqs[i].tid == q.oldest;
      LookupIs(q.reqs, i);
      assert RequestOf(s, q.oldest, fd).Some?;
      forall u: int | RequestOf(s, u, fd).Some? ensures q.oldest <= u {
        LookupFound(q.reqs, u);
      }
    }
  }

  lemma {:induction false} GroupIs(s: State, fd: int)
    requires Safe(QueueOf(s, fd))
    ensures QueueOf(s, fd).group == NonLock ==> QueueOf(s, fd).reqs == []
    ensures QueueOf(s, fd).group != NonLock ==> exists u: int :: RequestOf(s, u, fd).Some?
    ensures QueueOf(s, fd).group == GroupX ==>
              exists u: int :: RequestOf(s, u, fd).Some? && RequestOf(s, u, fd).value.mode == Exclusive
  {
    hide Find, SharedGrants;
    var q := QueueOf(s, fd);
    if q.reqs != [] {
      LookupIs(q.reqs, 0);
      assert RequestOf(s, q.reqs[0].tid, fd).Some?;
    }
    if q.group == GroupX {
      var i :| 0 <= i < |q.reqs| && q.reqs[i].mode == Exclusive;
      LookupIs(q.reqs, i);
      assert RequestOf(s, q.reqs[i].tid, fd).Some?;
    }
  }

  /** Whoever is awake and in the queue holds the table, and knows it. */
  lemma {:induction false} AwakeHolds(s: State, t: int, fd: int)
    requires Inv(s) && !Blocked(s, t)
    ensures RequestOf(s, t, fd).Some? ==> Holds(s, t, fd) && TxnOf(s, t).locks + {fd} == TxnOf(s, t).locks
  {
    hide Safe, Find, Blocked, Holds, RequestOf;
    if RequestOf(s, t, fd).Some? {
      NotBlocked(s, t, fd);
      HolderLocks(s, t, fd);
    }
  }

  // ----- the answers -----

  lemma {:induction false} SharedAnswer(s: State, t: int, fd: int)
    requires Inv(s) && !Blocked(s, t) && 0 <= t < INT32_MAX
    ensures var (s', o) := RequestShared(s, t, fd);
            && Answers(s, s', t, fd, Shared, o)
            && (MayAsk(TxnOf(s, t)) && SharedAtOnce(s, t, fd) ==> o == Granted)
  {
    hide Safe, Find, Lookup, Blocked, Queues, Locks, Phases, Older, Asked;
    var q := QueueOf(s, fd);
    LookupFound(q.reqs, t);
    SafeQueue(s, fd);
    OldestIs(s, t, fd);
    GroupIs(s, fd);
    AwakeHolds(s, t, fd);
    if Find(q.reqs, t) == |q.reqs| {
      LookupAppend(q.reqs, Request(t, Shared, q.group != GroupX), t);
    }
  }

  lemma {:induction false} ExclusiveAnswer(s: State, t: int, fd: int)
    requires Inv(s) && !Blocked(s, t) && 0 <= t < INT32_MAX
    ensures var (s', o) := RequestExclusive(s, t, fd);
            && Answers(s, s', t, fd, Exclusive, o)
            && (MayAsk(TxnOf(s, t)) && ExclusiveAtOnce(s, t, fd) ==> o == Granted)
  {
    hide Safe, Find, Lookup, Blocked, Queues, Locks, Phases, Older, Asked;
    var q := QueueOf(s, fd);
    var i := Find(q.reqs, t);
    LookupFound(q.reqs, t);
    SafeQueue(s, fd);
    OldestIs(s, t, fd);
    GroupIs(s, fd);
    AwakeHolds(s, t, fd);
    if i < |q.reqs| {
      UpgradeLookup(q, i, q.reqs[i].(mode := Exclusive));
      UpgradeLookup(q, i, Request(t, Exclusive, false));
    } else {
      LookupAppend(q.reqs, Request(t, Exclusive, q.group == NonLock), t);
    }
  }

  /** A sleeper takes its grant exactly if no other transaction holds a lock that conflicts with it. */
  lemma {:induction false} WakeAnswer(s: State, t: int, fd: int)
    requires Inv(s)
    ensures CanWake(s, t, fd) <==>
            var r := RequestOf(s, t, fd);
            && r.Some? && !r.value.granted
            && forall u: int :: u != t && Holds(s, u, fd) ==> r.value.mode == Shared && !HoldsX(s, u, fd)
  {
    hide Find, Lookup, Locks, Phases, Asked, Bounds, Accounted, Exclusion;
    var q := QueueOf(s, fd);
    LookupFound(q.reqs, t);
    SafeQueue(s, fd);
    if CanWake(s, t, fd) {
      forall u: int | u != t && Holds(s, u, fd)
        ensures RequestOf(s, t, fd).value.mode == Shared && !HoldsX(s, u, fd)
      {
        LookupFound(q.reqs, u);
      }
    } else if RequestOf(s, t, fd).Some? && !RequestOf(s, t, fd).value.granted {
      var mode := RequestOf(s, t, fd).value.mode;
      var j :| 0 <= j < |q.reqs| && q.reqs[j].tid != t && q.reqs[j].granted &&
               !(mode == Shared && q.reqs[j].mode == Shared);
      LookupIs(q.reqs, j);
      assert Holds(s, q.reqs[j].tid, fd);
    }
  }

  // ----- before anybody asks for X -----

  /** Readers only, and all of them counted. */
  ghost predicate Readers(q: Queue) {
    && (forall i :: 0 <= i < |q.reqs| ==> q.reqs[i].granted && q.reqs[i].mode == Shared)
    && q.sharedNum == |q.reqs| && q.group == if q.reqs == [] then NonLock else GroupS
  }

  ghost predicate NoWriterYet(es: seq<Event>, n: nat, fd: int)
    requires n <= |es|
  {
    forall k :: 0 <= k < n && es[k].AskX? ==> es[k].fd != fd
  }

  lemma {:induction false} ReadersStep(s: State, e: Event, fd: int)
    requires Readers(QueueOf(s, fd)) && (e.AskX? ==> e.fd != fd)
    ensures Readers(QueueOf(Next(s, e), fd))
  {
    hide Find;
    var q := QueueOf(s, fd);
    if e.Release? && e.fd == fd {
      var i := Find(q.reqs, e.tid);
      if i < |q.reqs| {
        ReadersDrop(q, i);
      }
    }
  }

  lemma {:induction false} ReadersDrop(q: Queue, i: nat)
    requires Readers(q) && i < |q.reqs|
    ensures Readers(Queue(Drop(q.reqs, i), Strongest(Drop(q.reqs, i)), q.sharedNum - 1,
                          LockModel.Least(Drop(q.reqs, i))))
  {
    hide Strongest, LockModel.Least;
    var rest := Drop(q.reqs, i);
    assert forall x :: 0 <= x < |rest| ==> rest[x] == q.reqs[if x < i then x else x + 1];
  }

  lemma {:induction false} ReadersOnly(es: seq<Event>, n: nat, fd: int)
    requires n <= |es| && NoWriterYet(es, n, fd)
    ensures Readers(QueueOf(StateAt(es, n), fd))
  {
    hide Next;
    if n > 0 {
      ReadersOnly(es, n - 1, fd);
      ReadersStep(StateAt(es, n - 1), es[n - 1], fd);
    }
  }

  /** The first to ask for X gets it at once exactly if nobody else has asked for the table; S is always there. */
  lemma {:induction false} FirstWriter(es: seq<Event>, n: nat, t: int, fd: int)
    requires ValidRun(es) && n <= |es| && NoWriterYet(es, n, fd) && MayAsk(TxnOf(StateAt(es, n), t))
    ensures RequestShared(StateAt(es, n), t, fd).1 == Granted
    ensures RequestExclusive(StateAt(es, n), t, fd).1 == Granted <==>
            forall u: int :: u != t ==> RequestOf(StateAt(es, n), u, fd) == None
  {
    hide Find, StateAt, ValidRun, NoWriterYet, Bounds, Exclusion, Accounted;
    var s := StateAt(es, n);
    var q := QueueOf(s, fd);
    RunSafe(es, n, fd);
    ReadersOnly(es, n, fd);
    forall u: int ensures RequestOf(s, u, fd).Some? <==> Find(q.reqs, u) < |q.reqs| {
      LookupFound(q.reqs, u);
    }
    forall i | 0 <= i < |q.reqs| ensures RequestOf(s, q.reqs[i].tid, fd).Some? {
      LookupIs(q.reqs, i);
    }
    if |q.reqs| > 1 {
      assert q.reqs[0].tid != q.reqs[1].tid;
    }
  }
}

/**
 An overtaken upgrade always breaks serializability: the condition of `Serializable` is needed.
 */
module LockOvertaking {
  import opened Options
  import opened LockModel
  import opened LockSafety
  import opened LockRuns
  import opened LockSteps
  import opened LockSerial

  predicate Waits(s: State, t: int, fd: int) {
    RequestOf(s, t, fd).Some? && !Holds(s, t, fd)
  }

  /** A sleeping transaction waits for one table, and has released nothing. */
  ghost predicate Sleepers(s: State) {
    && (forall t: int, fd: int :: Waits(s, t, fd) ==> TxnOf(s, t).phase == Growing)
    && (forall t: int, fd: int, gd: int :: Waits(s, t, fd) && Waits(s, t, gd) ==> fd == gd)
  }

  /** A step that changes one request of a transaction that has no other wait. */
  lemma {:induction false} SleepersKept(s: State, s': State, t: int, fd: int)
    requires Sleepers(s) && OnlyAt(s, s', t, fd)
    requires forall u :: u != t ==> TxnOf(s', u) == TxnOf(s, u)
    requires forall gd: int :: gd != fd ==> !Waits(s, t, gd)
    requires Waits(s', t, fd) ==> TxnOf(s', t).phase == Growing
    ensures Sleepers(s')
  {
    hide Find, Lookup;
    forall u: int, gd: int | u != t || gd != fd ensures Waits(s', u, gd) <==> Waits(s, u, gd) {
      assert RequestOf(s', u, gd) == RequestOf(s, u, gd);
    }
  }

  lemma {:induction false} AskerGrows(s: State, e: Event)
    requires Inv(s) && Enabled(s, e) && (e.AskS? || e.AskX?)
    ensures var s' := Next(s, e);
            && (Waits(s', e.tid, e.fd) ==> TxnOf(s', e.tid).phase == Growing)
            && (!HoldsX(s, e.tid, e.fd) && HoldsX(s', e.tid, e.fd) ==> TxnOf(s', e.tid).phase == Growing)
  {
    hide Find, Safe, Blocked, Inv;
    var t, fd := e.tid, e.fd;
    var s' := Next(s, e);
    if MayAsk(TxnOf(s, t)) {
      assert TxnOf(s', t).phase == Growing;
    } else if RequestOf(s, t, fd).Some? {
      NotBlocked(s, t, fd);
    }
  }

  lemma {:induction false} AwakeEverywhere(s: State, t: int)
    requires !Blocked(s, t)
    ensures forall fd: int :: !Waits(s, t, fd)
  {
    hide Find, Lookup;
  }

  lemma {:induction false} SleepersStep(s: State, e: Event)
    requires Inv(s) && Sleepers(s) && Enabled(s, e)
    ensures Sleepers(Next(s, e))
  {
    hide Inv, Blocked, RequestShared, RequestExclusive, Wake, Unlock, Find, Lookup, Sleepers;
    var s', t := Next(s, e), e.tid;
    match e
    case AskS(_, fd) =>
      AskSharedStep(s, t, fd);
      AwakeEverywhere(s, t);
      AskerGrows(s, e);
      SleepersKept(s, s', t, fd);
    case AskX(_, fd) =>
      AskExclusiveStep(s, t, fd);
      AwakeEverywhere(s, t);
      AskerGrows(s, e);
      SleepersKept(s, s', t, fd);
    case WakeUp(_, fd) =>
      WakeStep(s, t, fd);
      OneWait(s, t, fd);
      SleepersKept(s, s', t, fd);
    case ReadTable(_, _) =>
    case WriteTable(_, _) =>
    case Release(_, fd) =>
      ReleaseStep(s, t, fd);
      AwakeEverywhere(s, t);
      assert !Waits(s, t, fd);
      SleepersKept(s, s', t, fd);
    case Finish(_, end) =>
      FinishStep(s, t, end);
      SleepersKept(s, s', t, 0);
  }

  lemma {:induction false} OneWait(s: State, t: int, fd: int)
    requires Sleepers(s) && CanWake(s, t, fd)
    ensures Waits(s, t, fd) && TxnOf(s, t).phase == Growing && forall gd: int :: gd != fd ==> !Waits(s, t, gd)
  {
    hide Find;
    Asleep(s, t, fd);
    assert Waits(s, t, fd);
  }

  lemma {:induction false} RunSleepers(es: seq<Event>, n: nat)
    requires ValidRun(es) && n <= |es|
    ensures Sleepers(StateAt(es, n))
  {
    hide Inv, Enabled, Next;
    if n == 0 {
      assert forall t: int, fd: int :: RequestOf(INIT, t, fd) == None;
    } else {
      RunSleepers(es, n - 1);
      RunInv(es, n - 1);
      SleepersStep(StateAt(es, n - 1), es[n - 1]);
    }
  }

  // ----- after an overtaking -----

  /** `u` was just granted X while `t` waits for X. */
  ghost predicate Overtaken(s: State, t: int, u: int, fd: int) {
    && Inv(s) && Sleepers(s) && t != u && WaitsX(s, t, fd)
    && HoldsX(s, u, fd) && !Blocked(s, u) && TxnOf(s, u).phase == Growing
  }

  lemma {:induction false} GranteeRuns(s: State, e: Event, u: int, fd: int)
    requires Inv(s) && Sleepers(s) && Enabled(s, e) && !HoldsX(s, u, fd) && HoldsX(Next(s, e), u, fd)
    ensures !Blocked(Next(s, e), u) && TxnOf(Next(s, e), u).phase == Growing
  {
    hide Inv, Blocked, RequestShared, RequestExclusive, Wake, Unlock, Find, Lookup, Sleepers;
    var s', t := Next(s, e), e.tid;
    match e
    case AskS(_, gd) => AskSharedStep(s, t, gd);
    case AskX(_, gd) =>
      AskExclusiveStep(s, t, gd);
      AwakeEverywhere(s, t);
      AskerGrows(s, e);
      StaysAwake(s, s', t, gd);
    case WakeUp(_, gd) =>
      WakeStep(s, t, gd);
      OneWait(s, t, gd);
      StaysAwake(s, s', t, gd);
    case ReadTable(_, _) =>
    case WriteTable(_, _) =>
    case Release(_, gd) => ReleaseStep(s, t, gd);
    case Finish(_, end) => FinishStep(s, t, end);
  }

  lemma {:induction false} StaysAwake(s: State, s': State, t: int, fd: int)
    requires OnlyAt(s, s', t, fd) && forall gd: int :: gd != fd ==> !Waits(s, t, gd)
    ensures Holds(s', t, fd) ==> !Blocked(s', t)
  {
    hide Find, Lookup;
    forall gd: int ensures Holds(s', t, fd) && RequestOf(s', t, gd).Some? ==> Holds(s', t, gd) {
      if gd != fd {
        assert RequestOf(s', t, gd) == RequestOf(s, t, gd);
        assert !Waits(s, t, gd);
      }
    }
  }

  lemma {:induction false} OvertakenState(es: seq<Event>, n: nat, t: int, u: int, fd: int)
    requires ValidRun(es) && Overtakes(es, n, t, u, fd)
    ensures Overtaken(StateAt(es, n + 1), t, u, fd)
  {
    hide Inv, Enabled, Next, Holds, HoldsX, UpgradeWaits, WaitsX, Sleepers, Blocked;
    var s, e, s' := StateAt(es, n), es[n], StateAt(es, n + 1);
    RunInv(es, n);
    RunInv(es, n + 1);
    RunSleepers(es, n);
    RunSleepers(es, n + 1);
    GranteeRuns(s, e, u, fd);
    var m: nat :| UpgradingSince(es, m, n, t, fd);
    WaitLasts(s, e, t, fd);
    NotBothX(s', t, u, fd);
  }

  lemma {:induction false} NotBothX(s: State, t: int, u: int, fd: int)
    requires Inv(s) && t != u && HoldsX(s, u, fd)
    ensures !Holds(s, t, fd) && !HoldsX(s, t, fd)
  {
    hide Find, Inv, Lookup;
    if Holds(s, t, fd) {
      NoConflictingHolders(s, t, u, fd);
    }
  }

  /** Once `u` releases, nothing keeps the waiting `t` from its X. */
  lemma {:induction false} ReleaseClears(s: State, t: int, u: int, fd: int)
    requires Overtaken(s, t, u, fd)
    ensures Enabled(s, Release(u, fd)) && CanWake(Unlock(s, u, fd), t, fd) && WaitsX(Unlock(s, u, fd), t, fd)
  {
    hide Inv, Blocked, Find, Unlock, Sleepers;
    HolderLocks(s, u, fd);
    ReleaseStep(s, u, fd);
    var s' := Unlock(s, u, fd);
    var q := QueueOf(s', fd);
    assert SafeIn(s', fd) by {
      InvSafe(s', fd);
    }
    assert RequestOf(s', t, fd) == RequestOf(s, t, fd);
    forall i | 0 <= i < |q.reqs| && q.reqs[i].tid != t ensures !q.reqs[i].granted {
      LookupIs(q.reqs, i);
      var v := q.reqs[i].tid;
      NotBothX(s, v, u, fd);
    }
  }

  ghost predicate SafeIn(s: State, fd: int) {
    OnePerTxn(QueueOf(s, fd).reqs)
  }

  lemma {:induction false} InvSafe(s: State, fd: int)
    requires Inv(s)
    ensures SafeIn(s, fd)
  {
    SafeQueue(s, fd);
  }

  lemma {:induction false} WokenWrites(s: State, t: int, fd: int)
    requires Inv(s) && Sleepers(s) && CanWake(s, t, fd) && WaitsX(s, t, fd)
    ensures Enabled(Next(s, WakeUp(t, fd)), WriteTable(t, fd))
  {
    hide Inv, Blocked, Find, Lookup, Wake, Sleepers, CanWake;
    WakeStep(s, t, fd);
    OneWait(s, t, fd);
    StaysAwake(s, Wake(s, t, fd), t, fd);
  }

  lemma {:induction false} SamePrefix(es: seq<Event>, ds: seq<Event>, n: nat)
    requires n <= |es| && n <= |ds| && es[..n] == ds[..n]
    ensures StateAt(es, n) == StateAt(ds, n)
  {
    hide Next;
    if n > 0 {
      assert es[..n][n - 1] == ds[..n][n - 1];
      assert es[..n][..n - 1] == es[..n - 1] && ds[..n][..n - 1] == ds[..n - 1];
      SamePrefix(es, ds, n - 1);
    }
  }

  lemma {:induction false} ExtendRun(es: seq<Event>, e: Event)
    requires ValidRun(es) && Enabled(StateAt(es, |es|), e)
    ensures ValidRun(es + [e]) && StateAt(es + [e], |es| + 1) == Next(StateAt(es, |es|), e)
  {
    hide Next, Enabled, StateAt;
    var ds := es + [e];
    forall n | 0 <= n <= |es| ensures StateAt(ds, n) == StateAt(es, n) {
      assert ds[..n] == es[..n];
      SamePrefix(es, ds, n);
    }
    LastState(ds);
  }

  lemma {:induction false} LastState(ds: seq<Event>)
    requires ds != []
    ensures StateAt(ds, |ds|) == Next(StateAt(ds, |ds| - 1), ds[|ds| - 1])
  {
  }

  lemma {:induction false} PrefixRun(es: seq<Event>, n: nat)
    requires ValidRun(es) && n <= |es|
    ensures ValidRun(es[..n]) && StateAt(es[..n], n) == StateAt(es, n)
  {
    hide Next, Enabled, StateAt;
    var ds := es[..n];
    forall k | 0 <= k <= n ensures StateAt(ds, k) == StateAt(es, k) {
      assert ds[..k] == es[..k];
      SamePrefix(es, ds, k);
    }
  }

  /** The overtaker writes and releases, the overtaken one wakes and writes. */
  function Tail(t: int, u: int, fd: int): seq<Event> {
    [WriteTable(u, fd), Release(u, fd), WakeUp(t, fd), WriteTable(t, fd)]
  }

  lemma {:induction false} TailRuns(es: seq<Event>, t: int, u: int, fd: int)
    requires ValidRun(es) && Overtaken(StateAt(es, |es|), t, u, fd)
    ensures ValidRun(es + Tail(t, u, fd))
  {
    hide Inv, Sleepers, CanWake, Blocked, StateAt, ValidRun, HoldsX, WaitsX, Unlock, Wake;
    var s := StateAt(es, |es|);
    var w, r, a := WriteTable(u, fd), Release(u, fd), WakeUp(t, fd);
    HoldsXHolds(s, u, fd);
    ExtendRun(es, w);
    ReleaseClears(s, t, u, fd);
    ExtendRun(es + [w], r);
    var s' := Unlock(s, u, fd);
    RunInv(es + [w] + [r], |es| + 2);
    RunSleepers(es + [w] + [r], |es| + 2);
    ExtendRun(es + [w] + [r], a);
    WokenWrites(s', t, fd);
    ExtendRun(es + [w] + [r] + [a], WriteTable(t, fd));
    assert es + [w] + [r] + [a] + [WriteTable(t, fd)] == es + Tail(t, u, fd);
  }

  lemma {:induction false} HoldsXHolds(s: State, t: int, fd: int)
    requires HoldsX(s, t, fd)
    ensures Holds(s, t, fd)
  {
  }

  /**
   Whenever an upgrade is overtaken, the run can go on in four steps so that the two transactions
   each precede the other: no serial order exists.
   */
  lemma {:induction false} OvertakingBreaks(es: seq<Event>, n: nat, t: int, u: int, fd: int)
    requires ValidRun(es) && Overtakes(es, n, t, u, fd)
    ensures var ds := es[..n + 1] + Tail(t, u, fd);
            ValidRun(ds) && Precedes(ds, t, u) && Precedes(ds, u, t)
  {
    hide ValidRun, StateAt, Upgrading, Overtaken, GrantsX;
    OvertakenState(es, n, t, u, fd);
    assert n < |es| by {
      GrantInside(es, n, u, fd);
    }
    PrefixRun(es, n + 1);
    TailRuns(es[..n + 1], t, u, fd);
    var ds := es[..n + 1] + Tail(t, u, fd);
    var i: nat :| i < n <= |es| && IsAccess(es[i]) && es[i].tid == t && es[i].fd == fd;
    assert ds[i] == es[i] && ds[n + 1] == WriteTable(u, fd) && ds[n + 4] == WriteTable(t, fd);
    assert Conflict(ds, i, n + 1) && Conflict(ds, n + 1, n + 4);
  }

  lemma {:induction false} GrantInside(es: seq<Event>, n: nat, u: int, fd: int)
    requires GrantsX(es, n, u, fd)
    ensures n < |es|
  {
  }
}

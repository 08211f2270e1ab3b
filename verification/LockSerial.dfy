/**
 Safety over whole runs, and serializability: transactions are ordered by their first release.
 */
module LockSerial {
  import opened Options
  import opened LockModel
  import opened LockSafety
  import opened LockRuns
  import opened LockSteps

  lemma {:induction false} FinishStep(s: State, t: int, end: Phase)
    requires Inv(s) && (end == Committed || end == Aborted) && forall fd: int :: RequestOf(s, t, fd).None?
    ensures var s' := Next(s, Finish(t, end));
            && Inv(s') && TxnOf(s', t).phase == end
            && (forall u: int, gd: int :: RequestOf(s', u, gd) == RequestOf(s, u, gd))
            && (forall u: int :: u != t ==> TxnOf(s', u) == TxnOf(s, u))
  {
    hide Safe, Find;
    var s' := Next(s, Finish(t, end));
    forall u: int, gd: int ensures RequestOf(s', u, gd) == RequestOf(s, u, gd) {
    }
    forall u, gd | Holds(s', u, gd) ensures gd in TxnOf(s', u).locks {
      assert Holds(s, u, gd);
      assert RequestOf(s, t, gd).None?;
    }
    forall u: int, gd: int | RequestOf(s', u, gd).Some? ensures TxnOf(s', u).phase != Default {
      assert RequestOf(s, u, gd).Some?;
    }
    forall u: int ensures TxnOf(s', u).locks != {} ==> TxnOf(s', u).phase != Default {
      assert TxnOf(s', u) == if u == t then Txn(end, {}) else TxnOf(s, u);
    }
  }

  /** Every step keeps the invariant. */
  lemma {:induction false} StepInv(s: State, e: Event)
    requires Inv(s) && Enabled(s, e)
    ensures Inv(Next(s, e))
  {
    hide Inv, Blocked;
    match e
    case AskS(t, fd) => AskSharedStep(s, t, fd);
    case AskX(t, fd) => AskExclusiveStep(s, t, fd);
    case WakeUp(t, fd) => WakeStep(s, t, fd);
    case ReadTable(_, _) =>
    case WriteTable(_, _) =>
    case Release(t, fd) => ReleaseStep(s, t, fd);
    case Finish(t, end) => FinishStep(s, t, end);
  }

  lemma {:induction false} InitInv()
    ensures Inv(INIT)
  {
    assert forall t: int, fd: int :: RequestOf(INIT, t, fd) == None;
  }

  lemma {:induction false} RunInv(es: seq<Event>, n: nat)
    requires ValidRun(es) && n <= |es|
    ensures Inv(StateAt(es, n))
  {
    hide Inv, Enabled, Next;
    if n == 0 {
      InitInv();
    } else {
      RunInv(es, n - 1);
      StepInv(StateAt(es, n - 1), es[n - 1]);
    }
  }

  /** In every reachable state: one request per transaction and table, and a granted X is alone. */
  lemma {:induction false} RunSafe(es: seq<Event>, n: nat, fd: int)
    requires ValidRun(es) && n <= |es|
    ensures Safe(QueueOf(StateAt(es, n), fd))
  {
    hide Safe, ValidRun, StateAt;
    RunInv(es, n);
    SafeQueue(StateAt(es, n), fd);
  }

  /** Two transactions never hold a table together if one of them holds it exclusively. */
  lemma {:induction false} NoConflictingHolders(s: State, t: int, u: int, fd: int)
    requires Inv(s) && t != u && Holds(s, t, fd) && Holds(s, u, fd)
    ensures !HoldsX(s, t, fd) && !HoldsX(s, u, fd)
  {
    hide Find;
    SafeQueue(s, fd);
    var reqs := QueueOf(s, fd).reqs;
    var i, j := Find(reqs, t), Find(reqs, u);
    assert reqs[i].tid == t && reqs[j].tid == u;
  }

  /** A grant lasts, and is never weakened, until its own release or a waiting upgrade. */
  lemma {:induction false} GrantLasts(s: State, e: Event, t: int, fd: int)
    requires Inv(s) && Enabled(s, e) && Holds(s, t, fd) && e != Release(t, fd) &&
             (e == AskX(t, fd) ==> !UpgradeWaits(s, e))
    ensures Holds(Next(s, e), t, fd) && (HoldsX(s, t, fd) ==> HoldsX(Next(s, e), t, fd))
  {
    hide Inv, Blocked, RequestShared, RequestExclusive, Wake, Unlock, Find, Lookup, CanWake;
    match e
    case AskS(u, gd) => AskSharedStep(s, u, gd);
    case AskX(u, gd) => AskExclusiveStep(s, u, gd);
    case WakeUp(u, gd) =>
      WakeStep(s, u, gd);
      Asleep(s, u, gd);
    case ReadTable(_, _) =>
    case WriteTable(_, _) =>
    case Release(u, gd) => ReleaseStep(s, u, gd);
    case Finish(u, end) => FinishStep(s, u, end);
  }

  lemma {:induction false} Asleep(s: State, t: int, fd: int)
    requires CanWake(s, t, fd)
    ensures !Holds(s, t, fd)
  {
  }

  /** A transaction that released a lock, or ended, never grows again. */
  lemma {:induction false} PhaseLasts(s: State, e: Event, t: int)
    requires Inv(s) && Enabled(s, e) && (!MayAsk(TxnOf(s, t)) || (e.Release? && e.tid == t))
    ensures !MayAsk(TxnOf(Next(s, e), t))
  {
    hide Inv, Blocked, RequestShared, RequestExclusive, Wake, Unlock, Find, Lookup, CanWake;
    match e
    case AskS(u, gd) => AskSharedStep(s, u, gd);
    case AskX(u, gd) => AskExclusiveStep(s, u, gd);
    case WakeUp(u, gd) => WakeStep(s, u, gd);
    case ReadTable(_, _) =>
    case WriteTable(_, _) =>
    case Release(u, gd) => ReleaseStep(s, u, gd);
    case Finish(u, end) => FinishStep(s, u, end);
  }

  // ----- the order of first releases -----

  /** Index of the first release of `t`, or the length of the run. */
  function FirstRelease(es: seq<Event>, t: int): (k: nat)
    ensures k <= |es|
    ensures k < |es| ==> es[k].Release? && es[k].tid == t
    ensures forall i :: 0 <= i < k ==> !(es[i].Release? && es[i].tid == t)
  {
    if es == [] then 0
    else if es[0].Release? && es[0].tid == t then 0
    else
      var k := FirstRelease(es[1..], t);
      assert forall i :: 1 <= i < |es| ==> es[i] == es[1..][i - 1];
      k + 1
  }

  lemma {:induction false} ReleasedStays(es: seq<Event>, t: int, k: nat, n: nat)
    requires ValidRun(es) && k < n <= |es| && es[k].Release? && es[k].tid == t
    ensures !MayAsk(TxnOf(StateAt(es, n), t))
    decreases n
  {
    hide Inv, Enabled, Next, MayAsk;
    RunInv(es, n - 1);
    if k + 1 < n {
      ReleasedStays(es, t, k, n - 1);
    }
    PhaseLasts(StateAt(es, n - 1), es[n - 1], t);
  }

  predicate IsAccess(e: Event) {
    e.ReadTable? || e.WriteTable?
  }

  /** Accesses to one table by two transactions, at least one of them a write. */
  ghost predicate Conflict(es: seq<Event>, i: nat, j: nat) {
    && i < j < |es| && IsAccess(es[i]) && IsAccess(es[j]) && es[i].fd == es[j].fd && es[i].tid != es[j].tid
    && (es[i].WriteTable? || es[j].WriteTable?)
  }

  predicate WaitsX(s: State, t: int, fd: int) {
    RequestOf(s, t, fd) == Some(Request(t, Exclusive, false))
  }

  ghost predicate UpgradingSince(es: seq<Event>, m: nat, n: nat, t: int, fd: int) {
    && m < n <= |es| && es[m] == AskX(t, fd) && UpgradeWaits(StateAt(es, m), es[m])
    && forall k :: m < k <= n ==> WaitsX(StateAt(es, k), t, fd)
  }

  /** After `n` events, `t` waits to turn its S at `fd` into an X. */
  ghost predicate Upgrading(es: seq<Event>, n: nat, t: int, fd: int) {
    exists m: nat :: UpgradingSince(es, m, n, t, fd)
  }

  /** Event `n` grants `u` an X. */
  ghost predicate GrantsX(es: seq<Event>, n: nat, u: int, fd: int) {
    n < |es| && !HoldsX(StateAt(es, n), u, fd) && HoldsX(StateAt(es, n + 1), u, fd)
  }

  ghost predicate HasAccessed(es: seq<Event>, n: nat, t: int, fd: int) {
    exists i: nat :: i < n <= |es| && IsAccess(es[i]) && es[i].tid == t && es[i].fd == fd
  }

  /** Event `n` grants `u` an X over the head of `t`, which read the table and waits to upgrade. */
  ghost predicate Overtakes(es: seq<Event>, n: nat, t: int, u: int, fd: int) {
    t != u && GrantsX(es, n, u, fd) && Upgrading(es, n, t, fd) && HasAccessed(es, n, t, fd)
  }

  ghost predicate NoOvertaking(es: seq<Event>) {
    forall n: nat, t: int, u: int, fd: int :: !Overtakes(es, n, t, u, fd)
  }

  ghost predicate NoUpgradeWaits(es: seq<Event>) {
    forall n :: 0 <= n < |es| ==> !UpgradeWaits(StateAt(es, n), es[n])
  }

  lemma {:induction false} NoWaitNoOvertaking(es: seq<Event>)
    requires NoUpgradeWaits(es)
    ensures NoOvertaking(es)
  {
    hide UpgradeWaits, StateAt, GrantsX;
    forall n: nat, t: int, fd: int ensures !Upgrading(es, n, t, fd) {
    }
  }

  /** `t` holds `fd`, or held it and waits to upgrade. */
  ghost predicate Protects(es: seq<Event>, n: nat, t: int, fd: int) {
    n <= |es| && (Holds(StateAt(es, n), t, fd) || Upgrading(es, n, t, fd))
  }

  ghost predicate NoOtherX(s: State, t: int, fd: int) {
    forall u :: u != t ==> !HoldsX(s, u, fd)
  }

  lemma {:induction false} UpgradeStarts(s: State, t: int, fd: int)
    requires Inv(s) && UpgradeWaits(s, AskX(t, fd))
    ensures WaitsX(Next(s, AskX(t, fd)), t, fd)
  {
    hide Find, Safe;
    SafeQueue(s, fd);
    var q := QueueOf(s, fd);
    var i := Find(q.reqs, t);
    LookupFound(q.reqs, t);
    UpgradeLookup(q, i, Request(t, Exclusive, false));
  }

  /** A waiting request stays, or is granted. */
  lemma {:induction false} WaitLasts(s: State, e: Event, t: int, fd: int)
    requires Inv(s) && Enabled(s, e) && WaitsX(s, t, fd)
    ensures WaitsX(Next(s, e), t, fd) || HoldsX(Next(s, e), t, fd)
  {
    hide Inv, RequestShared, RequestExclusive, Wake, Unlock, Find, Lookup, CanWake;
    match e
    case AskS(u, gd) => AskSharedStep(s, u, gd);
    case AskX(u, gd) => AskExclusiveStep(s, u, gd);
    case WakeUp(u, gd) => WakeStep(s, u, gd);
    case ReadTable(_, _) =>
    case WriteTable(_, _) =>
    case Release(u, gd) => ReleaseStep(s, u, gd);
    case Finish(u, end) => FinishStep(s, u, end);
  }

  lemma {:induction false} ProtectsStep(es: seq<Event>, n: nat, t: int, fd: int)
    requires ValidRun(es) && n < |es| && Protects(es, n, t, fd) && es[n] != Release(t, fd)
    ensures Protects(es, n + 1, t, fd)
  {
    hide Inv, Enabled, Next, Holds, UpgradeWaits, WaitsX;
    var s, e := StateAt(es, n), es[n];
    RunInv(es, n);
    if Holds(s, t, fd) {
      if e == AskX(t, fd) && UpgradeWaits(s, e) {
        UpgradeStarts(s, t, fd);
        assert UpgradingSince(es, n, n + 1, t, fd);
      } else {
        GrantLasts(s, e, t, fd);
      }
    } else {
      var m: nat :| UpgradingSince(es, m, n, t, fd);
      WaitLasts(s, e, t, fd);
      if !Holds(Next(s, e), t, fd) {
        assert UpgradingSince(es, m, n + 1, t, fd);
      }
    }
  }

  /** Only a granted request or upgrade makes a new X holder. */
  lemma {:induction false} NewX(es: seq<Event>, n: nat, t: int, u: int, fd: int)
    requires ValidRun(es) && NoOvertaking(es) && n < |es| && t != u && HasAccessed(es, n, t, fd)
    requires Protects(es, n, t, fd) && GrantsX(es, n, u, fd)
    ensures Holds(StateAt(es, n + 1), t, fd)
  {
    hide Inv, Blocked, RequestShared, RequestExclusive, Wake, Unlock, Find, Lookup, CanWake, UpgradeWaits, Upgrading,
         HasAccessed;
    var s, e := StateAt(es, n), es[n];
    RunInv(es, n);
    assert !Overtakes(es, n, t, u, fd);
    match e
    case AskS(v, gd) => AskSharedStep(s, v, gd);
    case AskX(v, gd) => AskExclusiveStep(s, v, gd);
    case WakeUp(v, gd) => WakeStep(s, v, gd);
    case ReadTable(_, _) =>
    case WriteTable(_, _) =>
    case Release(v, gd) => ReleaseStep(s, v, gd);
    case Finish(v, end) => FinishStep(s, v, end);
  }

  lemma {:induction false} NoOtherXStep(es: seq<Event>, n: nat, t: int, fd: int)
    requires ValidRun(es) && NoOvertaking(es) && n < |es| && Protects(es, n, t, fd) && NoOtherX(StateAt(es, n), t, fd)
    requires HasAccessed(es, n, t, fd)
    ensures NoOtherX(StateAt(es, n + 1), t, fd)
  {
    hide Inv, StateAt, ValidRun, Holds, Upgrading, NoOvertaking, HasAccessed;
    RunInv(es, n + 1);
    var s' := StateAt(es, n + 1);
    forall u | u != t ensures !HoldsX(s', u, fd) {
      if HoldsX(s', u, fd) {
        NewX(es, n, t, u, fd);
        NoConflictingHolders(s', t, u, fd);
      }
    }
  }

  /** Until its own release, a holder keeps every other transaction from writing. */
  lemma {:induction false} StillProtects(es: seq<Event>, t: int, fd: int, i: nat, j: nat)
    requires ValidRun(es) && NoOvertaking(es) && i <= j <= |es| && Holds(StateAt(es, i), t, fd)
    requires i < |es| && IsAccess(es[i]) && es[i].tid == t && es[i].fd == fd
    requires forall k :: i <= k < j ==> es[k] != Release(t, fd)
    ensures Protects(es, j, t, fd) && NoOtherX(StateAt(es, j), t, fd)
    decreases j
  {
    hide Inv, StateAt, ValidRun, Holds, Upgrading, NoOvertaking;
    if i < j {
      StillProtects(es, t, fd, i, j - 1);
      ProtectsStep(es, j - 1, t, fd);
      if i < j - 1 {
        assert HasAccessed(es, j - 1, t, fd);
        NoOtherXStep(es, j - 1, t, fd);
      } else {
        SameStateAfter(es, i);
      }
    } else {
      RunInv(es, i);
      forall u | u != t ensures !HoldsX(StateAt(es, i), u, fd) {
        if HoldsX(StateAt(es, i), u, fd) {
          NoConflictingHolders(StateAt(es, i), t, u, fd);
        }
      }
    }
  }

  lemma {:induction false} SameStateAfter(es: seq<Event>, i: nat)
    requires i < |es| && IsAccess(es[i])
    ensures StateAt(es, i + 1) == StateAt(es, i)
  {
  }

  lemma {:induction false} XNeverWaits(s: State, t: int, fd: int)
    requires HoldsX(s, t, fd)
    ensures !UpgradeWaits(s, AskX(t, fd))
  {
  }

  /** An X is kept until its own release. */
  lemma {:induction false} StillHoldsX(es: seq<Event>, t: int, fd: int, i: nat, j: nat)
    requires ValidRun(es) && i <= j <= |es| && HoldsX(StateAt(es, i), t, fd)
    requires forall k :: i <= k < j ==> es[k] != Release(t, fd)
    ensures HoldsX(StateAt(es, j), t, fd)
    decreases j
  {
    hide Inv, Enabled, Next, Holds, UpgradeWaits;
    if i < j {
      StillHoldsX(es, t, fd, i, j - 1);
      RunInv(es, j - 1);
      XNeverWaits(StateAt(es, j - 1), t, fd);
      GrantLasts(StateAt(es, j - 1), es[j - 1], t, fd);
    }
  }

  lemma {:induction false} AccessHolds(s: State, e: Event)
    requires Enabled(s, e) && IsAccess(e)
    ensures Holds(s, e.tid, e.fd) && TxnOf(s, e.tid).phase == Growing && (e.WriteTable? ==> HoldsX(s, e.tid, e.fd))
  {
  }

  /** Of two conflicting accesses, the earlier one's transaction releases first. */
  lemma {:induction false} ConflictOrder(es: seq<Event>, i: nat, j: nat)
    requires ValidRun(es) && NoOvertaking(es) && Conflict(es, i, j)
    ensures FirstRelease(es, es[i].tid) < j < FirstRelease(es, es[j].tid)
  {
    hide Inv, Enabled, Next, Holds, UpgradeWaits, StateAt, FirstRelease, NoOvertaking, Upgrading;
    var t, u, fd := es[i].tid, es[j].tid, es[i].fd;
    var a, b := StateAt(es, i), StateAt(es, j);
    AccessHolds(a, es[i]);
    AccessHolds(b, es[j]);
    RunInv(es, j);
    if forall k :: i <= k < j ==> es[k] != Release(t, fd) {
      if es[i].WriteTable? {
        StillHoldsX(es, t, fd, i, j);
        NoConflictingHolders(b, t, u, fd);
      } else {
        StillProtects(es, t, fd, i, j);
      }
      assert false;
    }
    var k :| i <= k < j && es[k] == Release(t, fd);
    FirstIsFirst(es, t, k);
    NotReleased(es, u, j);
  }

  lemma {:induction false} FirstIsFirst(es: seq<Event>, t: int, k: nat)
    requires k < |es| && es[k].Release? && es[k].tid == t
    ensures FirstRelease(es, t) <= k
  {
  }

  /** A transaction that accesses data at `j` has released nothing before. */
  lemma {:induction false} NotReleased(es: seq<Event>, u: int, j: nat)
    requires ValidRun(es) && j < |es| && TxnOf(StateAt(es, j), u).phase == Growing && IsAccess(es[j])
    ensures FirstRelease(es, u) > j
  {
    hide StateAt, ValidRun;
    var k := FirstRelease(es, u);
    if k < j {
      ReleasedStays(es, u, k, j);
    }
  }

  /** A path in the conflict graph: each transaction has an access that conflicts with a later one of the next. */
  ghost predicate ConflictPath(es: seq<Event>, path: seq<int>) {
    forall x :: 0 <= x < |path| - 1 ==> Precedes(es, path[x], path[x + 1])
  }

  ghost predicate Precedes(es: seq<Event>, t: int, u: int) {
    exists i: nat, j: nat :: Conflict(es, i, j) && es[i].tid == t && es[j].tid == u
  }

  lemma {:induction false} PrecedesOrder(es: seq<Event>, t: int, u: int)
    requires ValidRun(es) && NoOvertaking(es) && Precedes(es, t, u)
    ensures FirstRelease(es, t) < FirstRelease(es, u)
  {
    hide ValidRun, NoOvertaking, FirstRelease;
    var i: nat, j: nat :| Conflict(es, i, j) && es[i].tid == t && es[j].tid == u;
    ConflictOrder(es, i, j);
  }

  /**
   Serializability: in every run where no waiting upgrade from S to X is overtaken, the conflict
   graph has no cycle, because every edge goes from an earlier first release to a later one.
   */
  lemma {:induction false} Serializable(es: seq<Event>, path: seq<int>)
    requires ValidRun(es) && NoOvertaking(es) && |path| > 1 && ConflictPath(es, path)
    ensures FirstRelease(es, path[0]) < FirstRelease(es, path[|path| - 1])
    ensures path[0] != path[|path| - 1]
    decreases |path|
  {
    hide ValidRun, NoOvertaking, FirstRelease, Precedes;
    var n := |path| - 1;
    assert Precedes(es, path[n - 1], path[n - 1 + 1]);
    PrecedesOrder(es, path[n - 1], path[n]);
    if n > 1 {
      var front := path[..n];
      forall x | 0 <= x < |front| - 1 ensures Precedes(es, front[x], front[x + 1]) {
        assert Precedes(es, path[x], path[x + 1]);
      }
      Serializable(es, front);
    }
  }

  // ----- the equivalent serial execution -----

  /** The serial schedule: whole transactions by first release (then by id), accesses in their own order. */
  predicate SerialBefore(es: seq<Event>, a: nat, b: nat)
    requires a < |es| && b < |es| && IsAccess(es[a]) && IsAccess(es[b])
  {
    var x, y := FirstRelease(es, es[a].tid), FirstRelease(es, es[b].tid);
    x < y || (x == y && (es[a].tid < es[b].tid || (es[a].tid == es[b].tid && a < b)))
  }

  /** Dependent accesses come in the same order in the run and in the serial schedule. */
  lemma {:induction false} SameOrder(es: seq<Event>, a: nat, b: nat)
    requires ValidRun(es) && NoOvertaking(es) && a < |es| && b < |es| && a != b
    requires IsAccess(es[a]) && IsAccess(es[b]) && es[a].fd == es[b].fd && (es[a].WriteTable? || es[b].WriteTable?)
    ensures a < b <==> SerialBefore(es, a, b)
  {
    hide ValidRun, NoOvertaking, FirstRelease;
    if es[a].tid != es[b].tid {
      if a < b {
        ConflictOrder(es, a, b);
      } else {
        ConflictOrder(es, b, a);
      }
    }
  }

  predicate WritesTo(es: seq<Event>, i: nat, fd: int) {
    i < |es| && es[i].WriteTable? && es[i].fd == fd
  }

  /** In the run, access `j` sees the version written at `i`. */
  ghost predicate ReadsFrom(es: seq<Event>, j: nat, i: nat)
    requires j < |es| && IsAccess(es[j])
  {
    WritesTo(es, i, es[j].fd) && i < j && forall k: nat :: WritesTo(es, k, es[j].fd) && k < j ==> k <= i
  }

  /** The same in the serial schedule. */
  ghost predicate SeriallyReadsFrom(es: seq<Event>, j: nat, i: nat)
    requires j < |es| && IsAccess(es[j])
  {
    && WritesTo(es, i, es[j].fd) && i != j && SerialBefore(es, i, j)
    && forall k: nat :: WritesTo(es, k, es[j].fd) && k != j && SerialBefore(es, k, j) ==>
         k == i || SerialBefore(es, k, i)
  }

  /** Every access sees the same version as in the serial execution. */
  lemma {:induction false} ViewEquivalent(es: seq<Event>, j: nat, i: nat)
    requires ValidRun(es) && NoOvertaking(es) && j < |es| && IsAccess(es[j])
    ensures ReadsFrom(es, j, i) <==> SeriallyReadsFrom(es, j, i)
  {
    hide ValidRun, NoOvertaking, SerialBefore;
    if WritesTo(es, i, es[j].fd) && i != j {
      SameOrder(es, i, j);
      forall k: nat | WritesTo(es, k, es[j].fd) && k != j && k != i
        ensures (k < j <==> SerialBefore(es, k, j)) && (k < i <==> SerialBefore(es, k, i))
      {
        SameOrder(es, k, j);
        SameOrder(es, k, i);
      }
    }
  }

  /** Every table ends with the version the serial execution leaves. */
  lemma {:induction false} FinalEquivalent(es: seq<Event>, fd: int, i: nat)
    requires ValidRun(es) && NoOvertaking(es) && WritesTo(es, i, fd)
    ensures (forall k: nat :: WritesTo(es, k, fd) ==> k <= i) <==>
            (forall k: nat :: WritesTo(es, k, fd) && k != i ==> SerialBefore(es, k, i))
  {
    hide ValidRun, NoOvertaking, SerialBefore;
    forall k: nat | WritesTo(es, k, fd) && k != i ensures k < i <==> SerialBefore(es, k, i) {
      SameOrder(es, k, i);
    }
  }
}

/**
 Runs of the lock protocol: every interleaving of requests, wake-ups, accesses and releases.
 */
module LockRuns {
  import opened Options
  import opened LockModel
  import opened LockSafety

  datatype Event =
    | AskS(tid: int, fd: int)
    | AskX(tid: int, fd: int)
    | WakeUp(tid: int, fd: int)
    | ReadTable(tid: int, fd: int)
    | WriteTable(tid: int, fd: int)
    | Release(tid: int, fd: int)
    | Finish(tid: int, end: Phase)

  function Lookup(reqs: seq<Request>, t: int): Option<Request> {
    var i := Find(reqs, t);
    if i < |reqs| then Some(reqs[i]) else None
  }

  function RequestOf(s: State, t: int, fd: int): Option<Request> {
    Lookup(QueueOf(s, fd).reqs, t)
  }

  predicate Holds(s: State, t: int, fd: int) {
    var r := RequestOf(s, t, fd);
    r.Some? && r.value.granted
  }

  predicate HoldsX(s: State, t: int, fd: int) {
    Holds(s, t, fd) && RequestOf(s, t, fd).value.mode == Exclusive
  }

  /** A transaction with an ungranted request is asleep. */
  ghost predicate Blocked(s: State, t: int) {
    exists fd: int :: RequestOf(s, t, fd).Some? && !Holds(s, t, fd)
  }

  /** When an event can happen. Data is accessed under a lock, and before the first release. */
  ghost predicate Enabled(s: State, e: Event) {
    match e
    case AskS(t, fd) => !Blocked(s, t) && 0 <= t < INT32_MAX
    case AskX(t, fd) => !Blocked(s, t) && 0 <= t < INT32_MAX
    case WakeUp(t, fd) => CanWake(s, t, fd)
    case ReadTable(t, fd) => !Blocked(s, t) && Holds(s, t, fd) && TxnOf(s, t).phase == Growing
    case WriteTable(t, fd) => !Blocked(s, t) && HoldsX(s, t, fd) && TxnOf(s, t).phase == Growing
    case Release(t, fd) => !Blocked(s, t) && fd in TxnOf(s, t).locks
    case Finish(t, end) => (end == Committed || end == Aborted) && forall fd: int :: RequestOf(s, t, fd).None?
  }

  function Next(s: State, e: Event): State {
    match e
    case AskS(t, fd) => RequestShared(s, t, fd).0
    case AskX(t, fd) => RequestExclusive(s, t, fd).0
    case WakeUp(t, fd) => if CanWake(s, t, fd) then Wake(s, t, fd) else s
    case ReadTable(t, fd) => s
    case WriteTable(t, fd) => s
    case Release(t, fd) => Unlock(s, t, fd)
    case Finish(t, end) => SetTxn(s, t, Txn(end, {}))
  }

  const INIT := State(map[], map[])

  function StateAt(es: seq<Event>, n: nat): State
    requires n <= |es|
  {
    if n == 0 then INIT else Next(StateAt(es, n - 1), es[n - 1])
  }

  ghost predicate ValidRun(es: seq<Event>) {
    forall n :: 0 <= n < |es| ==> Enabled(StateAt(es, n), es[n])
  }

  // ----- the invariant of all reachable states -----

  ghost predicate Queues(s: State) {
    forall fd :: fd in s.queues ==> Safe(s.queues[fd]) && s.queues[fd].reqs != []
  }

  ghost predicate Locks(s: State) {
    forall t, fd :: Holds(s, t, fd) ==> fd in TxnOf(s, t).locks
  }

  ghost predicate Phases(s: State) {
    forall t: int :: TxnOf(s, t).locks != {} ==> TxnOf(s, t).phase != Default
  }

  ghost predicate Asked(s: State) {
    forall t: int, fd: int :: RequestOf(s, t, fd).Some? ==> TxnOf(s, t).phase != Default
  }

  ghost predicate Inv(s: State) {
    Queues(s) && Locks(s) && Phases(s) && Asked(s)
  }

  lemma {:induction false} SafeQueue(s: State, fd: int)
    requires Queues(s)
    ensures Safe(QueueOf(s, fd)) && (QueueOf(s, fd).reqs == [] ==> QueueOf(s, fd) == EMPTY_QUEUE)
  {
  }

  // ----- looking requests up in changed queues -----

  lemma {:induction false} LookupIs(reqs: seq<Request>, i: nat)
    requires OnePerTxn(reqs) && i < |reqs|
    ensures Find(reqs, reqs[i].tid) == i && Lookup(reqs, reqs[i].tid) == Some(reqs[i])
  {
    hide Find;
  }

  lemma {:induction false} LookupAppend(reqs: seq<Request>, r: Request, t: int)
    requires Lookup(reqs, r.tid) == None
    ensures Lookup(reqs + [r], t) == if t == r.tid then Some(r) else Lookup(reqs, t)
  {
    hide Find;
    var all := reqs + [r];
    var i := Find(all, t);
    assert forall x :: 0 <= x < |reqs| ==> all[x] == reqs[x];
    assert all[|reqs|] == r;
  }

  lemma {:induction false} LookupSet(reqs: seq<Request>, i: nat, r: Request, t: int)
    requires OnePerTxn(reqs) && i < |reqs| && r.tid == reqs[i].tid
    ensures Lookup(reqs[i := r], t) == if t == r.tid then Some(r) else Lookup(reqs, t)
  {
    hide Find;
    var all := reqs[i := r];
    var x, y := Find(all, t), Find(reqs, t);
    assert forall z :: 0 <= z < |reqs| ==> all[z].tid == reqs[z].tid;
    assert x == y;
  }

  lemma {:induction false} LookupDrop(reqs: seq<Request>, i: nat, t: int)
    requires OnePerTxn(reqs) && i < |reqs|
    ensures Lookup(Drop(reqs, i), t) == if t == reqs[i].tid then None else Lookup(reqs, t)
  {
    hide Find;
    var all := Drop(reqs, i);
    assert forall z :: 0 <= z < |all| ==> all[z] == reqs[if z < i then z else z + 1];
    var x, y := Find(all, t), Find(reqs, t);
    if y < |reqs| && y != i {
      var z := if y < i then y else y - 1;
      assert all[z] == reqs[y];
      DropDistinct(reqs, i);
      LookupIs(all, z);
    } else {
      forall z | 0 <= z < |all| ensures all[z].tid != t {
        assert all[z] == reqs[if z < i then z else z + 1];
      }
    }
  }

  lemma {:induction false} DropDistinct(reqs: seq<Request>, i: nat)
    requires OnePerTxn(reqs) && i < |reqs|
    ensures OnePerTxn(Drop(reqs, i))
  {
    var all := Drop(reqs, i);
    assert forall z :: 0 <= z < |all| ==> all[z] == reqs[if z < i then z else z + 1];
  }
}

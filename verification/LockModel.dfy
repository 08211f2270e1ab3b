/**
 Table locks of `src/transaction/concurrency/lock_manager.cpp` as a state machine: each step is what
 one call does between taking and giving up `latch_`.
 */
module LockModel {

  datatype Mode = Shared | Exclusive

  /** `GroupLockMode`, as far as table S and X locks reach it. */
  datatype Group = NonLock | GroupS | GroupX

  datatype Request = Request(tid: int, mode: Mode, granted: bool)

  datatype Queue = Queue(reqs: seq<Request>, group: Group, sharedNum: int, oldest: int)

  datatype Phase = Default | Growing | Shrinking | Committed | Aborted

  datatype Txn = Txn(phase: Phase, locks: set<int>)

  /** Queues by table, transactions by id; what is missing is a fresh one. */
  datatype State = State(queues: map<int, Queue>, txns: map<int, Txn>)

  datatype Outcome = Granted | Waiting | Refused | Died

  const INT32_MAX := 0x7FFF_FFFF
  const EMPTY_QUEUE := Queue([], NonLock, 0, INT32_MAX)
  const NEW_TXN := Txn(Default, {})

  function QueueOf(s: State, fd: int): Queue {
    if fd in s.queues then s.queues[fd] else EMPTY_QUEUE
  }

  function TxnOf(s: State, t: int): Txn {
    if t in s.txns then s.txns[t] else NEW_TXN
  }

  function SetQueue(s: State, fd: int, q: Queue): State {
    s.(queues := s.queues[fd := q])
  }

  function SetTxn(s: State, t: int, x: Txn): State {
    s.(txns := s.txns[t := x])
  }

  function AddLock(s: State, t: int, fd: int): State {
    SetTxn(s, t, TxnOf(s, t).(locks := TxnOf(s, t).locks + {fd}))
  }

  /** Index of the request of `t`, or the length if there is none. */
  function Find(reqs: seq<Request>, t: int): (i: nat)
    ensures i <= |reqs|
    ensures i < |reqs| ==> reqs[i].tid == t
    ensures forall x :: 0 <= x < i ==> reqs[x].tid != t
  {
    if reqs == [] then 0 else if reqs[0].tid == t then 0 else 1 + Find(reqs[1..], t)
  }

  function Drop(reqs: seq<Request>, i: nat): seq<Request>
    requires i < |reqs|
  {
    reqs[..i] + reqs[i + 1..]
  }

  /** The strongest mode in the queue, as a group mode. */
  function Strongest(reqs: seq<Request>): (g: Group)
    ensures g == GroupX <==> exists i :: 0 <= i < |reqs| && reqs[i].mode == Exclusive
    ensures g == NonLock <==> reqs == []
  {
    if reqs == [] then NonLock
    else if reqs[0].mode == Exclusive || Strongest(reqs[1..]) == GroupX then
      assert reqs[0].mode != Exclusive ==> exists i :: 0 <= i < |reqs[1..]| && reqs[1..][i].mode == Exclusive;
      GroupX
    else
      assert forall i :: 1 <= i < |reqs| ==> reqs[i] == reqs[1..][i - 1];
      GroupS
  }

  function Least(reqs: seq<Request>): (m: int)
    ensures forall i :: 0 <= i < |reqs| ==> m <= reqs[i].tid
    ensures m <= INT32_MAX
    ensures reqs == [] ==> m == INT32_MAX
    ensures m < INT32_MAX ==> exists i :: 0 <= i < |reqs| && reqs[i].tid == m
  {
    if reqs == [] then INT32_MAX
    else
      var m := Least(reqs[1..]);
      assert forall i :: 1 <= i < |reqs| ==> reqs[i] == reqs[1..][i - 1];
      if reqs[0].tid < m then reqs[0].tid else m
  }

  // ----- requests -----

  /** `check_lock`: may the transaction still ask for locks? */
  predicate MayAsk(x: Txn) {
    x.phase == Default || x.phase == Growing
  }

  function Refusal(x: Txn): Outcome {
    if x.phase == Shrinking then Died else Refused
  }

  function Grow(s: State, t: int): State {
    SetTxn(s, t, TxnOf(s, t).(phase := Growing))
  }

  function RequestShared(s: State, t: int, fd: int): (r: (State, Outcome)) {
    if !MayAsk(TxnOf(s, t)) then (s, Refusal(TxnOf(s, t)))
    else
      var s, q := Grow(s, t), QueueOf(s, fd);
      if Find(q.reqs, t) < |q.reqs| then (s, Granted)
      else if q.group == GroupX then
        if t > q.oldest then (s, Died)
        else (SetQueue(s, fd, q.(oldest := t, reqs := q.reqs + [Request(t, Shared, false)])), Waiting)
      else
        var q' := Queue(q.reqs + [Request(t, Shared, true)], GroupS, q.sharedNum + 1,
                        if t < q.oldest then t else q.oldest);
        (AddLock(SetQueue(s, fd, q'), t, fd), Granted)
  }

  function RequestExclusive(s: State, t: int, fd: int): (r: (State, Outcome)) {
    if !MayAsk(TxnOf(s, t)) then (s, Refusal(TxnOf(s, t)))
    else
      var s, q := Grow(s, t), QueueOf(s, fd);
      var i := Find(q.reqs, t);
      if i < |q.reqs| then
        if q.reqs[i].mode == Exclusive then (s, Granted)
        else if q.sharedNum == 1 then
          (SetQueue(s, fd, q.(reqs := q.reqs[i := q.reqs[i].(mode := Exclusive)], group := GroupX)), Granted)
        else if t > q.oldest then (s, Died)
        else (SetQueue(s, fd, q.(reqs := q.reqs[i := Request(t, Exclusive, false)], oldest := t)), Waiting)
      else if q.group != NonLock then
        if t > q.oldest then (s, Died)
        else (SetQueue(s, fd, q.(oldest := t, reqs := q.reqs + [Request(t, Exclusive, false)])), Waiting)
      else
        var q' := Queue(q.reqs + [Request(t, Exclusive, true)], GroupX, q.sharedNum,
                        if t < q.oldest then t else q.oldest);
        (AddLock(SetQueue(s, fd, q'), t, fd), Granted)
  }

  // ----- wake-up -----

  /** What a waiting request waits for: no other granted X, or no other grant at all. */
  predicate Clear(reqs: seq<Request>, t: int, mode: Mode) {
    forall i :: 0 <= i < |reqs| ==> reqs[i].tid == t || !reqs[i].granted || (mode == Shared && reqs[i].mode == Shared)
  }

  predicate CanWake(s: State, t: int, fd: int) {
    var q := QueueOf(s, fd);
    var i := Find(q.reqs, t);
    i < |q.reqs| && !q.reqs[i].granted && Clear(q.reqs, t, q.reqs[i].mode)
  }

  function Wake(s: State, t: int, fd: int): State
    requires CanWake(s, t, fd)
  {
    var q := QueueOf(s, fd);
    var i := Find(q.reqs, t);
    var reqs := q.reqs[i := q.reqs[i].(granted := true)];
    var q' := if q.reqs[i].mode == Shared
              then Queue(reqs, if q.group == GroupX then GroupX else GroupS, q.sharedNum + 1, q.oldest)
              else q.(reqs := reqs, group := GroupX);
    AddLock(SetQueue(s, fd, q'), t, fd)
  }

  // ----- release -----

  function Unlock(s: State, t: int, fd: int): State {
    var x := TxnOf(s, t);
    if x.phase == Committed || x.phase == Aborted then s
    else
      var s := if x.phase == Growing then SetTxn(s, t, x.(phase := Shrinking)) else s;
      var q := QueueOf(s, fd);
      var i := Find(q.reqs, t);
      if i == |q.reqs| then s
      else
        var rest := Drop(q.reqs, i);
        if rest == [] then s.(queues := s.queues - {fd})
        else SetQueue(s, fd,
                      Queue(rest, Strongest(rest), if q.reqs[i].mode == Shared then q.sharedNum - 1 else q.sharedNum,
                            Least(rest)))
  }
}

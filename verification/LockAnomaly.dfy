/**
 Upgrades are overtaken: a concrete run, which then has no serial order.
 */
module LockAnomaly {
  import opened Options
  import opened LockModel
  import opened LockRuns
  import opened LockSteps
  import opened LockSerial
  import opened LockOvertaking

  /** Transactions 1 and 2 share table 7, 1 asks to upgrade and waits, and the older 0 overtakes it. */
  const RUN := [AskS(1, 7), AskS(2, 7), ReadTable(1, 7), AskX(1, 7), AskX(0, 7), Release(2, 7),
                WakeUp(0, 7)]

  function OneTable(q: Queue, txns: map<int, Txn>): State {
    State(map[7 := q], txns)
  }

  const G := Txn(Growing, {7})
  const W := Txn(Growing, {})
  const R := Txn(Shrinking, {7})

  const S1 := OneTable(Queue([Request(1, Shared, true)], GroupS, 1, 1), map[1 := G])
  const S2 := OneTable(Queue([Request(1, Shared, true), Request(2, Shared, true)], GroupS, 2, 1), map[1 := G, 2 := G])
  const S4 := OneTable(Queue([Request(1, Exclusive, false), Request(2, Shared, true)], GroupS, 2, 1),
                       map[1 := G, 2 := G])
  const S5 := OneTable(Queue([Request(1, Exclusive, false), Request(2, Shared, true), Request(0, Exclusive, false)],
                             GroupS, 2, 0),
                       map[1 := G, 2 := G, 0 := W])
  const S6 := OneTable(Queue([Request(1, Exclusive, false), Request(0, Exclusive, false)], GroupX, 1, 0),
                       map[1 := G, 2 := R, 0 := W])
  const S7 := OneTable(Queue([Request(1, Exclusive, false), Request(0, Exclusive, true)], GroupX, 1, 0),
                       map[1 := G, 2 := R, 0 := G])

  function At(n: nat): State {
    match n
    case 0 => INIT
    case 1 => S1
    case 2 => S2
    case 3 => S2
    case 4 => S4
    case 5 => S5
    case 6 => S6
    case _ => S7
  }

  lemma {:induction false} Find0(reqs: seq<Request>, t: int)
    ensures reqs == [] ==> Find(reqs, t) == 0
    ensures reqs != [] && reqs[0].tid == t ==> Find(reqs, t) == 0
    ensures |reqs| == 1 && reqs[0].tid != t ==> Find(reqs, t) == 1
    ensures |reqs| > 1 && reqs[0].tid != t && reqs[1].tid == t ==> Find(reqs, t) == 1
    ensures |reqs| == 2 && reqs[0].tid != t && reqs[1].tid != t ==> Find(reqs, t) == 2
    ensures |reqs| == 3 && reqs[0].tid != t && reqs[1].tid != t && reqs[2].tid == t ==> Find(reqs, t) == 2
  {
    hide Find;
  }

  /** Two states with one and the same queue and the same transactions. */
  lemma {:induction false} Same(a: State, b: State, q: Queue)
    requires a.queues == map[7 := q] && b.queues == map[7 := q] && a.txns == b.txns
    ensures a == b
  {
  }

  lemma {:induction false} Ask1()
    ensures Next(INIT, AskS(1, 7)) == S1
  {
    Find0([], 1);
    assert [] + [Request(1, Shared, true)] == S1.queues[7].reqs;
    assert NEW_TXN.locks + {7} == G.locks;
    Same(Next(INIT, AskS(1, 7)), S1, S1.queues[7]);
  }

  lemma {:induction false} Ask2()
    ensures Next(S1, AskS(2, 7)) == S2
  {
    Find0(S1.queues[7].reqs, 2);
    assert S1.queues[7].reqs + [Request(2, Shared, true)] == S2.queues[7].reqs;
    assert NEW_TXN.locks + {7} == G.locks;
    Same(Next(S1, AskS(2, 7)), S2, S2.queues[7]);
  }

  lemma {:induction false} Upgrade1()
    ensures Next(S2, AskX(1, 7)) == S4 && UpgradeWaits(S2, AskX(1, 7))
  {
    Find0(S2.queues[7].reqs, 1);
    assert S2.queues[7].reqs[0 := Request(1, Exclusive, false)] == S4.queues[7].reqs;
    Same(Next(S2, AskX(1, 7)), S4, S4.queues[7]);
  }

  lemma {:induction false} Ask0()
    ensures Next(S4, AskX(0, 7)) == S5
  {
    Find0(S4.queues[7].reqs, 0);
    assert S4.queues[7].reqs + [Request(0, Exclusive, false)] == S5.queues[7].reqs;
    Same(Next(S4, AskX(0, 7)), S5, S5.queues[7]);
  }

  lemma {:induction false} Release2()
    ensures Next(S5, Release(2, 7)) == S6
  {
    var reqs := S5.queues[7].reqs;
    Find0(reqs, 2);
    var rest := [Request(1, Exclusive, false), Request(0, Exclusive, false)];
    assert Drop(reqs, 1) == rest;
    assert rest[0].mode == Exclusive;
    LeastTwo(rest);
  }

  lemma {:induction false} LeastTwo(rest: seq<Request>)
    requires rest == [Request(1, Exclusive, false), Request(0, Exclusive, false)]
    ensures LockModel.Least(rest) == 0 && Strongest(rest) == GroupX
  {
    assert rest[1].tid == 0;
    assert rest[1..] == [Request(0, Exclusive, false)];
    assert rest[1..][1..] == [];
  }

  lemma {:induction false} Wake0()
    ensures CanWake(S6, 0, 7) && Next(S6, WakeUp(0, 7)) == S7
  {
    Find0(S6.queues[7].reqs, 0);
    assert S6.queues[7].reqs[1 := Request(0, Exclusive, true)] == S7.queues[7].reqs;
    assert W.locks + {7} == G.locks;
    Same(Next(S6, WakeUp(0, 7)), S7, S7.queues[7]);
  }

  lemma {:induction false} States(n: nat)
    requires n <= |RUN|
    ensures StateAt(RUN, n) == At(n)
  {
    hide Next;
    if n > 0 {
      States(n - 1);
      Step(n - 1);
    }
  }

  lemma {:induction false} Step(n: nat)
    requires n < |RUN|
    ensures Next(At(n), RUN[n]) == At(n + 1)
  {
    hide RequestShared, RequestExclusive, Wake, Unlock, CanWake;
    Ask1();
    Ask2();
    Upgrade1();
    Ask0();
    Release2();
    Wake0();
  }

  /** Who is awake in a state with one queue. */
  lemma {:induction false} AwakeIn(q: Queue, txns: map<int, Txn>, t: int)
    requires Lookup(q.reqs, t).Some? ==> Lookup(q.reqs, t).value.granted
    ensures !Blocked(OneTable(q, txns), t)
  {
    var s := OneTable(q, txns);
    forall fd: int | RequestOf(s, t, fd).Some? ensures Holds(s, t, fd) {
      assert fd == 7;
    }
  }

  lemma {:induction false} EnabledAt(n: nat)
    requires n < |RUN|
    ensures Enabled(At(n), RUN[n])
  {
    hide Find, CanWake, Blocked;
    var e := RUN[n];
    Wake0();
    AwakeAtStart();
    if n > 0 && !e.WakeUp? {
      var q := At(n).queues[7];
      Find0(q.reqs, e.tid);
      AwakeIn(q, At(n).txns, e.tid);
    }
  }

  lemma {:induction false} AwakeAtStart()
    ensures !Blocked(INIT, 1)
  {
    forall fd: int ensures RequestOf(INIT, 1, fd) == None {
    }
  }

  /** Transaction 0 overtakes the waiting upgrade of 1 at table 7. */
  lemma {:induction false} UpgradeOvertaken()
    ensures ValidRun(RUN) && Overtakes(RUN, 6, 1, 0, 7)
  {
    hide Enabled, StateAt, Next, At, UpgradeWaits;
    forall n | 0 <= n < |RUN| ensures Enabled(StateAt(RUN, n), RUN[n]) {
      States(n);
      EnabledAt(n);
    }
    forall n | 0 <= n <= 7 ensures StateAt(RUN, n) == At(n) {
      States(n);
    }
    Requests();
    Upgrade1();
    assert UpgradingSince(RUN, 3, 6, 1, 7);
    assert RUN[2] == ReadTable(1, 7);
  }

  lemma {:induction false} Requests()
    ensures At(3) == S2 && !HoldsX(At(6), 0, 7) && HoldsX(At(7), 0, 7)
    ensures forall k :: 3 < k <= 6 ==> WaitsX(At(k), 1, 7)
  {
    hide Find;
    Find0(S6.queues[7].reqs, 0);
    Find0(S7.queues[7].reqs, 0);
    Find0(S4.queues[7].reqs, 1);
    Find0(S5.queues[7].reqs, 1);
    Find0(S6.queues[7].reqs, 1);
  }

  /** So table locking as coded is not serializable. */
  lemma {:induction false} NotSerializable()
    ensures exists es: seq<Event> :: ValidRun(es) && Precedes(es, 1, 0) && Precedes(es, 0, 1)
  {
    hide ValidRun, Overtakes, Precedes;
    UpgradeOvertaken();
    OvertakingBreaks(RUN, 6, 1, 0, 7);
  }
}

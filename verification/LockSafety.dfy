/**
 What every step of the lock protocol keeps.
 */
module LockSafety {
  import opened LockModel

  // ----- one queue -----

  function SharedGrants(reqs: seq<Request>): nat {
    if reqs == [] then 0
    else (if reqs[0].granted && reqs[0].mode == Shared then 1 else 0) + SharedGrants(reqs[1..])
  }

  ghost predicate OnePerTxn(reqs: seq<Request>) {
    forall i, j :: 0 <= i < j < |reqs| ==> reqs[i].tid != reqs[j].tid
  }

  /** A granted X is the only grant. */
  ghost predicate Exclusion(reqs: seq<Request>) {
    forall i, j ::
      0 <= i < |reqs| && 0 <= j < |reqs| && reqs[i].granted && reqs[j].granted && reqs[i].mode == Exclusive ==> i == j
  }

  ghost predicate Bounds(q: Queue) {
    && (q.group == NonLock <==> q.reqs == [])
    && (q.group != GroupX ==> forall i :: 0 <= i < |q.reqs| && q.reqs[i].granted ==> q.reqs[i].mode == Shared)
    && SharedGrants(q.reqs) <= q.sharedNum
    && (forall i :: 0 <= i < |q.reqs| ==> q.oldest <= q.reqs[i].tid < INT32_MAX)
    && (q.reqs != [] ==> exists i :: 0 <= i < |q.reqs| && q.reqs[i].tid == q.oldest)
  }

  /** The group mode X comes from a request for X. */
  ghost predicate Accounted(q: Queue) {
    q.group == GroupX ==> exists i :: 0 <= i < |q.reqs| && q.reqs[i].mode == Exclusive
  }

  ghost predicate Safe(q: Queue) {
    OnePerTxn(q.reqs) && Exclusion(q.reqs) && Bounds(q) && Accounted(q)
  }

  // ----- counting shared grants -----

  lemma {:induction false} GrantsAppend(a: seq<Request>, b: seq<Request>)
    ensures SharedGrants(a + b) == SharedGrants(a) + SharedGrants(b)
  {
    if a == [] {
      assert a + b == b;
    } else {
      GrantsAppend(a[1..], b);
      assert (a + b)[1..] == a[1..] + b;
    }
  }

  function One(r: Request): nat {
    if r.granted && r.mode == Shared then 1 else 0
  }

  lemma {:induction false} GrantsAt(reqs: seq<Request>, i: nat)
    requires i < |reqs|
    ensures SharedGrants(reqs) == SharedGrants(reqs[..i]) + One(reqs[i]) + SharedGrants(reqs[i + 1..])
  {
    hide SharedGrants;
    assert reqs == (reqs[..i] + [reqs[i]]) + reqs[i + 1..];
    GrantsAppend(reqs[..i] + [reqs[i]], reqs[i + 1..]);
    GrantsAppend(reqs[..i], [reqs[i]]);
    GrantsOne(reqs[i]);
  }

  lemma {:induction false} GrantsOne(r: Request)
    ensures SharedGrants([r]) == One(r)
  {
    assert [r][1..] == [];
  }

  lemma {:induction false} GrantsSet(reqs: seq<Request>, i: nat, r: Request)
    requires i < |reqs|
    ensures SharedGrants(reqs[i := r]) == SharedGrants(reqs) - One(reqs[i]) + One(r)
  {
    hide SharedGrants;
    GrantsAt(reqs, i);
    GrantsAt(reqs[i := r], i);
    assert reqs[i := r][..i] == reqs[..i] && reqs[i := r][i + 1..] == reqs[i + 1..];
  }

  lemma {:induction false} GrantsDrop(reqs: seq<Request>, i: nat)
    requires i < |reqs|
    ensures SharedGrants(Drop(reqs, i)) == SharedGrants(reqs) - One(reqs[i])
  {
    hide SharedGrants;
    GrantsAt(reqs, i);
    GrantsAppend(reqs[..i], reqs[i + 1..]);
  }

  /** Two different shared grants count as two. */
  lemma {:induction false} TwoGrants(reqs: seq<Request>, i: nat, j: nat)
    requires i < j < |reqs| && One(reqs[i]) == 1 && One(reqs[j]) == 1
    ensures SharedGrants(reqs) >= 2
  {
    hide SharedGrants;
    GrantsAt(reqs, i);
    GrantsAt(reqs[i + 1..], j - i - 1);
  }

  // ----- queue updates -----

  lemma {:induction false} AppendSafe(q: Queue, r: Request, g: Group, n: int, o: int)
    requires Safe(q) && Find(q.reqs, r.tid) == |q.reqs| && r.tid < INT32_MAX
    requires !r.granted || (r.mode == Shared && q.group != GroupX) || q.reqs == []
    requires g != NonLock && (q.group == GroupX || (r.granted && r.mode == Exclusive) ==> g == GroupX)
    requires g == GroupX ==> q.group == GroupX || r.mode == Exclusive
    requires n >= q.sharedNum + One(r)
    requires o == (if r.tid < q.oldest || q.reqs == [] then r.tid else q.oldest)
    ensures Safe(Queue(q.reqs + [r], g, n, o))
  {
    hide SharedGrants, Accounted;
    var reqs := q.reqs + [r];
    GrantsAppend(q.reqs, [r]);
    GrantsOne(r);
    assert forall i :: 0 <= i < |q.reqs| ==> reqs[i] == q.reqs[i];
    assert reqs[|q.reqs|] == r;
    if o != r.tid {
      var i :| 0 <= i < |q.reqs| && q.reqs[i].tid == q.oldest;
      assert reqs[i].tid == o;
    }
    AppendAccounted(q, r, g, n, o);
  }

  lemma {:induction false} AppendAccounted(q: Queue, r: Request, g: Group, n: int, o: int)
    requires Accounted(q) && (g == GroupX ==> q.group == GroupX || r.mode == Exclusive)
    ensures Accounted(Queue(q.reqs + [r], g, n, o))
  {
    var reqs := q.reqs + [r];
    if r.mode == Exclusive {
      assert reqs[|q.reqs|].mode == Exclusive;
    } else if g == GroupX {
      var i :| 0 <= i < |q.reqs| && q.reqs[i].mode == Exclusive;
      assert reqs[i].mode == Exclusive;
    }
  }

  /** A request may change in place if a new grant finds the queue clear. */
  lemma {:induction false} SetSafe(q: Queue, i: nat, r: Request, g: Group, n: int)
    requires Safe(q) && i < |q.reqs| && r.tid == q.reqs[i].tid
    requires r.granted ==> Clear(q.reqs, r.tid, r.mode)
    requires g != NonLock && (q.group == GroupX || (r.granted && r.mode == Exclusive) ==> g == GroupX)
    requires g == GroupX ==> r.mode == Exclusive || (q.group == GroupX && q.reqs[i].mode == Shared)
    requires n >= q.sharedNum - One(q.reqs[i]) + One(r)
    ensures Safe(Queue(q.reqs[i := r], g, n, q.oldest))
  {
    hide SharedGrants, Accounted;
    var reqs := q.reqs[i := r];
    GrantsSet(q.reqs, i, r);
    var o :| 0 <= o < |q.reqs| && q.reqs[o].tid == q.oldest;
    assert reqs[o].tid == q.oldest;
    SetAccounted(q, i, r, g, n);
  }

  lemma {:induction false} SetAccounted(q: Queue, i: nat, r: Request, g: Group, n: int)
    requires Accounted(q) && i < |q.reqs|
    requires g == GroupX ==> r.mode == Exclusive || (q.group == GroupX && q.reqs[i].mode == Shared)
    ensures Accounted(Queue(q.reqs[i := r], g, n, q.oldest))
  {
    var reqs := q.reqs[i := r];
    if r.mode == Exclusive {
      assert reqs[i].mode == Exclusive;
    } else if g == GroupX {
      var x :| 0 <= x < |q.reqs| && q.reqs[x].mode == Exclusive;
      assert reqs[x].mode == Exclusive;
    }
  }

  lemma {:induction false} DropSafe(q: Queue, i: nat, n: int)
    requires Safe(q) && i < |q.reqs| && Drop(q.reqs, i) != [] && n >= q.sharedNum - One(q.reqs[i])
    ensures Safe(Queue(Drop(q.reqs, i), Strongest(Drop(q.reqs, i)), n, LockModel.Least(Drop(q.reqs, i))))
  {
    hide SharedGrants, LockModel.Least, Strongest, Accounted;
    var rest := Drop(q.reqs, i);
    GrantsDrop(q.reqs, i);
    assert forall x :: 0 <= x < |rest| ==> rest[x] == q.reqs[if x < i then x else x + 1];
    DropBounds(rest);
    DropAccounted(rest, n, LockModel.Least(rest));
  }

  lemma {:induction false} DropAccounted(rest: seq<Request>, n: int, o: int)
    ensures Accounted(Queue(rest, Strongest(rest), n, o))
  {
    hide Strongest;
  }

  lemma {:induction false} DropBounds(rest: seq<Request>)
    requires rest != [] && forall x :: 0 <= x < |rest| ==> rest[x].tid < INT32_MAX
    ensures Strongest(rest) != NonLock
    ensures Strongest(rest) != GroupX ==> forall x :: 0 <= x < |rest| ==> rest[x].mode == Shared
    ensures forall x :: 0 <= x < |rest| ==> LockModel.Least(rest) <= rest[x].tid
    ensures exists x :: 0 <= x < |rest| && rest[x].tid == LockModel.Least(rest)
  {
    assert rest[0].tid < INT32_MAX;
  }

  /** With a shared count of one, the holder's S is the only grant. */
  lemma {:induction false} LoneHolder(q: Queue, i: nat)
    requires Safe(q) && i < |q.reqs| && q.reqs[i].granted && q.reqs[i].mode == Shared && q.sharedNum == 1
    ensures Clear(q.reqs, q.reqs[i].tid, Exclusive)
  {
    hide SharedGrants;
    forall j | 0 <= j < |q.reqs| && q.reqs[j].granted ensures j == i {
      if q.reqs[j].mode == Shared && j != i {
        TwoGrants(q.reqs, if i < j then i else j, if i < j then j else i);
      }
    }
  }
}

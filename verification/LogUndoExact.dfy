/**
 Exactly when undo brings back what all other transactions did, and what a second undo does.
 */
module LogUndoExact {
  import opened Options
  import opened LogCodec
  import opened LogHistory
  import opened LogUndo

  // ----- slot by slot -----

  predicate NeedsRow(op: Op) {
    op.Insert? || op.Update?
  }

  /** What undo makes of one slot that holds `v`. */
  ghost function UndoSlot(recs: seq<LogRecord>, gone: iset<int>, n: nat, s: Slot,
                          v: Option<seq<Byte>>): Option<Option<seq<Byte>>>
    requires n <= |recs|
  {
    if n == 0 then Some(v)
    else if !LostWrite(recs, gone, n - 1, s) then UndoSlot(recs, gone, n - 1, s, v)
    else if NeedsRow(recs[n - 1].op) && v.None? then None
    else UndoSlot(recs, gone, n - 1, s, Before(recs[n - 1].op))
  }

  /** A write of `s` that is to be undone. */
  ghost predicate LostWrite(recs: seq<LogRecord>, gone: iset<int>, i: int, s: Slot)
    requires 0 <= i < |recs|
  {
    recs[i].tid in gone && Writes(recs[i].op, s)
  }

  /** Undo fails if it fails for some slot, and otherwise treats every slot alone. */
  lemma {:induction false} UndoSlots(recs: seq<LogRecord>, gone: iset<int>, n: nat, db: Records)
    requires n <= |recs|
    ensures UndoRun(recs, gone, n, db).None? ==> exists s :: UndoSlot(recs, gone, n, s, Look(db, s)).None?
    ensures UndoRun(recs, gone, n, db).Some? ==>
              forall s :: UndoSlot(recs, gone, n, s, Look(db, s)) == Some(Look(UndoRun(recs, gone, n, db).value, s))
  {
    hide Look, Put;
    if n > 0 {
      var op := recs[n - 1].op;
      if recs[n - 1].tid !in gone || !IsWrite(op) {
        UndoSlots(recs, gone, n - 1, db);
        if s :| UndoSlot(recs, gone, n - 1, s, Look(db, s)).None? {
          assert UndoSlot(recs, gone, n, s, Look(db, s)).None?;
        }
      } else {
        UndoHere(recs, gone, n, db);
        if CanUndo(db, op) {
          UndoSlots(recs, gone, n - 1, Undone(db, op));
          if s :| UndoSlot(recs, gone, n - 1, s, Look(Undone(db, op), s)).None? {
            assert UndoSlot(recs, gone, n, s, Look(db, s)).None?;
          }
        } else {
          assert UndoSlot(recs, gone, n, op.slot, Look(db, op.slot)).None?;
        }
      }
    }
  }

  lemma {:induction false} UndoHere(recs: seq<LogRecord>, gone: iset<int>, n: nat, db: Records)
    requires 0 < n <= |recs| && recs[n - 1].tid in gone && IsWrite(recs[n - 1].op)
    ensures !CanUndo(db, recs[n - 1].op) ==>
              UndoSlot(recs, gone, n, recs[n - 1].op.slot, Look(db, recs[n - 1].op.slot)).None?
    ensures CanUndo(db, recs[n - 1].op) ==>
              forall s ::
                UndoSlot(recs, gone, n, s, Look(db, s)) ==
                UndoSlot(recs, gone, n - 1, s, Look(Undone(db, recs[n - 1].op), s))
  {
    var op := recs[n - 1].op;
    if CanUndo(db, op) {
      forall s
        ensures UndoSlot(recs, gone, n, s, Look(db, s)) == UndoSlot(recs, gone, n - 1, s, Look(Undone(db, op), s))
      {
        LookPut(db, op.slot, Before(op), s);
      }
    }
  }

  // ----- in closed form -----

  /** Index of the first lost write of `s` from `n` on, or the length. */
  ghost function FirstLost(recs: seq<LogRecord>, gone: iset<int>, n: nat, s: Slot): (i: nat)
    requires n <= |recs|
    ensures n <= i <= |recs| && (i < |recs| ==> LostWrite(recs, gone, i, s))
    ensures forall x :: n <= x < i ==> !LostWrite(recs, gone, x, s)
    decreases |recs| - n
  {
    if n == |recs| || LostWrite(recs, gone, n, s) then n else FirstLost(recs, gone, n + 1, s)
  }

  /** What `s`, holding `v` before undo, holds when the lost writes from `n` on are undone. */
  ghost function Reached(recs: seq<LogRecord>, gone: iset<int>, n: nat, s: Slot,
                         v: Option<seq<Byte>>): Option<seq<Byte>>
    requires n <= |recs|
  {
    var i := FirstLost(recs, gone, n, s);
    if i < |recs| then Before(recs[i].op) else v
  }

  /** Every lost insert or update of `s` among the first `n` records finds a row to take back. */
  ghost predicate FindsRow(recs: seq<LogRecord>, gone: iset<int>, n: nat, s: Slot, v: Option<seq<Byte>>)
    requires n <= |recs|
  {
    forall i :: 0 <= i < n && LostWrite(recs, gone, i, s) && NeedsRow(recs[i].op) ==>
      Reached(recs, gone, i + 1, s, v).Some?
  }

  lemma {:induction false} FindsOneMore(recs: seq<LogRecord>, gone: iset<int>, n: nat, s: Slot, v: Option<seq<Byte>>)
    requires n < |recs|
    ensures FindsRow(recs, gone, n + 1, s, v) <==>
            FindsRow(recs, gone, n, s, v) &&
            (LostWrite(recs, gone, n, s) && NeedsRow(recs[n].op) ==> Reached(recs, gone, n + 1, s, v).Some?)
  {
    hide LostWrite, Reached;
  }

  lemma {:induction false} UndoSlotIs(recs: seq<LogRecord>, gone: iset<int>, n: nat, s: Slot, v: Option<seq<Byte>>)
    requires n <= |recs|
    ensures UndoSlot(recs, gone, n, s, Reached(recs, gone, n, s, v)) ==
            if FindsRow(recs, gone, n, s, v) then Some(Reached(recs, gone, 0, s, v)) else None
  {
    hide FirstLost, FindsRow;
    if n > 0 {
      UndoSlotIs(recs, gone, n - 1, s, v);
      OneFurther(recs, gone, n - 1, s);
      FindsOneMore(recs, gone, n - 1, s, v);
    } else {
      FindsNothing(recs, gone, s, v);
    }
  }

  lemma {:induction false} FindsNothing(recs: seq<LogRecord>, gone: iset<int>, s: Slot, v: Option<seq<Byte>>)
    ensures FindsRow(recs, gone, 0, s, v)
  {
  }

  lemma {:induction false} OneFurther(recs: seq<LogRecord>, gone: iset<int>, n: nat, s: Slot)
    requires n < |recs|
    ensures FirstLost(recs, gone, n, s) == if LostWrite(recs, gone, n, s) then n else FirstLost(recs, gone, n + 1, s)
  {
    hide LostWrite;
  }

  lemma {:induction false} NoneBehind(recs: seq<LogRecord>, gone: iset<int>, s: Slot, v: Option<seq<Byte>>)
    ensures Reached(recs, gone, |recs|, s, v) == v
  {
  }

  /**
   Undo from any rows: it ends without error if and only if every lost insert and update finds a row, and then every
   slot with lost writes is as the first of these found it.
   */
  lemma {:induction false} UndoRunIs(recs: seq<LogRecord>, gone: iset<int>, db: Records, goal: Records)
    ensures UndoRun(recs, gone, |recs|, db) == Some(goal) <==>
            forall s ::
              FindsRow(recs, gone, |recs|, s, Look(db, s)) && Look(goal, s) == Reached(recs, gone, 0, s, Look(db, s))
  {
    hide UndoRun, UndoSlot, FindsRow, Reached, Look;
    var r := UndoRun(recs, gone, |recs|, db);
    UndoSlots(recs, gone, |recs|, db);
    forall s ensures UndoSlot(recs, gone, |recs|, s, Look(db, s)) ==
                     if FindsRow(recs, gone, |recs|, s, Look(db, s)) then Some(Reached(recs, gone, 0, s, Look(db, s)))
                     else None
    {
      UndoSlotIs(recs, gone, |recs|, s, Look(db, s));
      NoneBehind(recs, gone, s, Look(db, s));
    }
    if r == Some(goal) {
      forall s
        ensures FindsRow(recs, gone, |recs|, s, Look(db, s)) && Look(goal, s) == Reached(recs, gone, 0, s, Look(db, s))
      {
        assert UndoSlot(recs, gone, |recs|, s, Look(db, s)) == Some(Look(goal, s));
      }
    }
    if forall s ::
        FindsRow(recs, gone, |recs|, s, Look(db, s)) && Look(goal, s) == Reached(recs, gone, 0, s, Look(db, s))
    {
      if r.Some? {
        forall s ensures Look(r.value, s) == Look(goal, s) {
          assert UndoSlot(recs, gone, |recs|, s, Look(db, s)) == Some(Look(r.value, s));
        }
        SameLook(r.value, goal);
      }
    }
  }

  // ----- exactly when -----

  /** What undo of record `i` meets in its slot: what the next lost write found, or else what the last write left. */
  ghost function Met(recs: seq<LogRecord>, gone: iset<int>, i: nat): Option<seq<Byte>>
    requires i < |recs| && IsWrite(recs[i].op)
  {
    var s := recs[i].op.slot;
    var j, p := FirstLost(recs, gone, i + 1, s), LastWrite(recs, s);
    if j < |recs| then Before(recs[j].op) else if p >= 0 then After(recs[p].op) else None
  }

  /** Every lost insert or update meets a row. */
  ghost predicate UndoMeetsRows(recs: seq<LogRecord>, gone: iset<int>) {
    forall i :: 0 <= i < |recs| && recs[i].tid in gone && NeedsRow(recs[i].op) ==> Met(recs, gone, i).Some?
  }

  /** If others write a slot after the first lost write, the last of them leaves what that one had found. */
  ghost predicate KeptAgree(recs: seq<LogRecord>, gone: iset<int>) {
    forall s :: AgreesAt(recs, gone, s)
  }

  ghost predicate AgreesAt(recs: seq<LogRecord>, gone: iset<int>, s: Slot) {
    var f, w := FirstLost(recs, gone, 0, s), LastKept(recs, |recs|, gone, s);
    f < w ==> After(recs[w].op) == Before(recs[f].op)
  }

  lemma {:induction false} MetIsReached(base: Records, recs: seq<LogRecord>, gone: iset<int>, i: nat)
    requires i < |recs| && IsWrite(recs[i].op)
    ensures Met(recs, gone, i) == Reached(recs, gone, i + 1, recs[i].op.slot, Look(Replay(base, recs), recs[i].op.slot))
  {
    hide Replay, FirstLost, LastWrite;
    LookLast(base, recs, recs[i].op.slot);
  }

  /** The rows others leave and the rows undo leaves, at one slot. */
  lemma {:induction false} SlotAgrees(base: Records, recs: seq<LogRecord>, gone: iset<int>, s: Slot)
    requires LegalHistory(base, recs)
    ensures Look(Replay(base, Kept(recs, gone)), s) == Reached(recs, gone, 0, s, Look(Replay(base, recs), s)) <==>
            AgreesAt(recs, gone, s)
  {
    hide Replay, LastKept, FirstLost, LastWrite, Kept;
    var f, w := FirstLost(recs, gone, 0, s), LastKept(recs, |recs|, gone, s);
    KeptLook(base, recs, |recs|, gone, s);
    assert recs[..|recs|] == recs;
    LookLast(base, recs, s);
    if f == |recs| {
      var p := LastWrite(recs, s);
      SameLast(recs, gone, s);
    } else if w < f {
      BeforeFirst(base, recs, gone, f, w, s);
    }
  }

  /** Without lost writes, the last write is the last that is kept. */
  lemma {:induction false} SameLast(recs: seq<LogRecord>, gone: iset<int>, s: Slot)
    requires FirstLost(recs, gone, 0, s) == |recs|
    ensures LastWrite(recs, s) == LastKept(recs, |recs|, gone, s)
  {
    hide LastKept, FirstLost, LastWrite;
    var p, w := LastWrite(recs, s), LastKept(recs, |recs|, gone, s);
    assert p >= 0 ==> !LostWrite(recs, gone, p, s);
  }

  lemma {:induction false} BeforeFirst(base: Records, recs: seq<LogRecord>, gone: iset<int>, f: nat, w: int, s: Slot)
    requires LegalHistory(base, recs) && f < |recs| && f == FirstLost(recs, gone, 0, s) &&
             w == LastKept(recs, |recs|, gone, s) &&
             w < f
    ensures Before(recs[f].op) == if w < 0 then Look(base, s) else After(recs[w].op)
  {
    hide Replay, LastKept, FirstLost, LastWrite;
    var pre := recs[..f];
    LookLast(base, pre, s);
    var p := LastWrite(pre, s);
    assert p >= 0 ==> pre[p] == recs[p] && !LostWrite(recs, gone, p, s);
    assert w >= 0 ==> pre[w] == recs[w];
  }

  lemma {:induction false} MeetsHere(base: Records, recs: seq<LogRecord>, gone: iset<int>, s: Slot)
    requires UndoMeetsRows(recs, gone)
    ensures FindsRow(recs, gone, |recs|, s, Look(Replay(base, recs), s))
  {
    hide Replay, Reached, Met, Look;
    var v := Look(Replay(base, recs), s);
    forall i | 0 <= i < |recs| && LostWrite(recs, gone, i, s) && NeedsRow(recs[i].op)
      ensures Reached(recs, gone, i + 1, s, v).Some?
    {
      MetIsReached(base, recs, gone, i);
    }
  }

  lemma {:induction false} MissesHere(base: Records, recs: seq<LogRecord>, gone: iset<int>, i: nat)
    requires i < |recs| && recs[i].tid in gone && NeedsRow(recs[i].op) && Met(recs, gone, i).None?
    ensures !FindsRow(recs, gone, |recs|, recs[i].op.slot, Look(Replay(base, recs), recs[i].op.slot))
  {
    hide Replay, Reached, Met, Look;
    MetIsReached(base, recs, gone, i);
    assert LostWrite(recs, gone, i, recs[i].op.slot);
  }

  lemma {:induction false} MeetsAll(base: Records, recs: seq<LogRecord>, gone: iset<int>)
    ensures UndoMeetsRows(recs, gone) <==> forall s :: FindsRow(recs, gone, |recs|, s, Look(Replay(base, recs), s))
  {
    hide Replay, Met, Look, FindsRow;
    if UndoMeetsRows(recs, gone) {
      forall s ensures FindsRow(recs, gone, |recs|, s, Look(Replay(base, recs), s)) {
        MeetsHere(base, recs, gone, s);
      }
    } else {
      var i :| 0 <= i < |recs| && recs[i].tid in gone && NeedsRow(recs[i].op) && Met(recs, gone, i).None?;
      MissesHere(base, recs, gone, i);
    }
  }

  /**
   Undo of a legal history ends without error with the rows of the other transactions if and only if every lost insert
   or update meets a row, and no other transaction has changed what the first lost write of its slot had found.
   */
  lemma {:induction false} UndoExact(base: Records, recs: seq<LogRecord>, gone: iset<int>)
    requires LegalHistory(base, recs)
    ensures UndoRun(recs, gone, |recs|, Replay(base, recs)) == Some(Replay(base, Kept(recs, gone))) <==>
            UndoMeetsRows(recs, gone) && KeptAgree(recs, gone)
  {
    hide UndoRun, Replay, Kept, Reached, FindsRow, UndoMeetsRows, AgreesAt, LegalHistory, Look;
    var db, goal := Replay(base, recs), Replay(base, Kept(recs, gone));
    UndoRunIs(recs, gone, db, goal);
    MeetsAll(base, recs, gone);
    forall s ensures Look(goal, s) == Reached(recs, gone, 0, s, Look(db, s)) <==> AgreesAt(recs, gone, s) {
      SlotAgrees(base, recs, gone, s);
    }
  }

  // ----- lost writes last -----

  /** The next write of a slot finds what this one left. */
  lemma {:induction false} NextFinds(base: Records, recs: seq<LogRecord>, i: nat, j: nat, s: Slot)
    requires LegalHistory(base, recs) && i < j < |recs| && Writes(recs[i].op, s) && Writes(recs[j].op, s)
    requires forall x :: i < x < j ==> !Writes(recs[x].op, s)
    ensures Before(recs[j].op) == After(recs[i].op)
  {
    hide Replay, LastWrite;
    var pre := recs[..j];
    LookLast(base, pre, s);
    assert pre[i] == recs[i];
    var p := LastWrite(pre, s);
    assert pre[p] == recs[p];
  }

  /** If no slot with lost writes is written later by others, undo meets what these left. */
  lemma {:induction false} GoneLastMeet(base: Records, recs: seq<LogRecord>, gone: iset<int>)
    requires LegalHistory(base, recs) && GoneLast(recs, gone)
    ensures UndoMeetsRows(recs, gone) && KeptAgree(recs, gone)
  {
    hide Replay, LastKept, FirstLost, LastWrite, LegalHistory;
    forall i | 0 <= i < |recs| && recs[i].tid in gone && NeedsRow(recs[i].op) ensures Met(recs, gone, i).Some? {
      MeetsLeft(base, recs, gone, i);
    }
    forall s ensures AgreesAt(recs, gone, s) {
      var f, w := FirstLost(recs, gone, 0, s), LastKept(recs, |recs|, gone, s);
      if f < w {
        assert SameSlot(recs[f], recs[w]);
      }
    }
  }

  lemma {:induction false} MeetsLeft(base: Records, recs: seq<LogRecord>, gone: iset<int>, i: nat)
    requires LegalHistory(base, recs) && GoneLast(recs, gone) && i < |recs| && recs[i].tid in gone &&
             NeedsRow(recs[i].op)
    ensures Met(recs, gone, i).Some?
  {
    hide Replay, FirstLost, LastWrite, LegalHistory;
    var s := recs[i].op.slot;
    var j, p := FirstLost(recs, gone, i + 1, s), LastWrite(recs, s);
    LaterIsLost(recs, gone, i, s);
    assert p >= i;
    if j < |recs| {
      forall x | i < x < j ensures !Writes(recs[x].op, s) {
        assert !LostWrite(recs, gone, x, s);
      }
      NextFinds(base, recs, i, j, s);
    }
  }

  lemma {:induction false} LaterIsLost(recs: seq<LogRecord>, gone: iset<int>, i: nat, s: Slot)
    requires GoneLast(recs, gone) && i < |recs| && LostWrite(recs, gone, i, s)
    ensures forall x :: i < x < |recs| && Writes(recs[x].op, s) ==> LostWrite(recs, gone, x, s)
  {
    forall x | i < x < |recs| && Writes(recs[x].op, s) ensures LostWrite(recs, gone, x, s) {
      assert SameSlot(recs[i], recs[x]);
    }
  }

  // ----- undo again -----

  /** Only the transactions that have records matter. */
  lemma {:induction false} UndoRunSame(recs: seq<LogRecord>, gone: iset<int>, gone': iset<int>, n: nat, db: Records)
    requires n <= |recs| && forall i :: 0 <= i < |recs| ==> (recs[i].tid in gone <==> recs[i].tid in gone')
    ensures UndoRun(recs, gone, n, db) == UndoRun(recs, gone', n, db)
  {
    if n > 0 {
      UndoRunSame(recs, gone, gone', n - 1, db);
      UndoRunSame(recs, gone, gone', n - 1, Undone(db, recs[n - 1].op));
    }
  }

  lemma {:induction false} LastOfBoth(recs: seq<LogRecord>, post: seq<LogRecord>, t: int, n: nat)
    requires n <= |recs|
    ensures LastOf(recs + post, t, n) == LastOf(recs, t, n)
  {
    if n > 0 {
      LastOfBoth(recs, post, t, n - 1);
    }
  }

  /** Later records are of other transactions, all of them finished. */
  ghost predicate Continues(recs: seq<LogRecord>, post: seq<LogRecord>) {
    && (forall x, y :: 0 <= x < |post| && 0 <= y < |recs| ==> post[x].tid != recs[y].tid)
    && (forall x :: 0 <= x < |post| ==> !Active(recs + post, |recs + post|, post[x].tid))
  }

  /** So the same transactions are unfinished. */
  lemma {:induction false} SameLosers(recs: seq<LogRecord>, post: seq<LogRecord>)
    requires Continues(recs, post)
    ensures forall i :: 0 <= i < |recs + post| ==>
              ((recs + post)[i].tid in Losers(recs + post) <==> (recs + post)[i].tid in Losers(recs))
    ensures forall x :: 0 <= x < |post| ==> post[x].tid !in Losers(recs)
  {
    hide LastOf;
    var all := recs + post;
    forall x | 0 <= x < |post| ensures post[x].tid !in Losers(recs) {
      var p := LastOf(recs, post[x].tid, |recs|);
    }
    forall i | 0 <= i < |all| ensures all[i].tid in Losers(all) <==> all[i].tid in Losers(recs) {
      if i < |recs| {
        var t := recs[i].tid;
        forall x | |recs| <= x < |all| ensures all[x].tid != t {
          assert all[x] == post[x - |recs|];
        }
        LastOfSame(all, t, |recs|, |all|);
        LastOfBoth(recs, post, t, |recs|);
      } else {
        assert all[i] == post[i - |recs|];
      }
    }
  }

  lemma {:induction false} SameLost(recs: seq<LogRecord>, post: seq<LogRecord>, gone: iset<int>, i: nat, s: Slot)
    requires i < |recs + post| && forall x :: 0 <= x < |post| ==> post[x].tid !in gone
    ensures LostWrite(recs + post, gone, i, s) <==> i < |recs| && LostWrite(recs, gone, i, s)
  {
    assert i >= |recs| ==> (recs + post)[i] == post[i - |recs|];
  }

  lemma {:induction false} SameFirst(recs: seq<LogRecord>, post: seq<LogRecord>, gone: iset<int>, n: nat, s: Slot)
    requires n <= |recs| && forall x :: 0 <= x < |post| ==> post[x].tid !in gone
    ensures var i, j := FirstLost(recs, gone, n, s), FirstLost(recs + post, gone, n, s);
            if i < |recs| then j == i else j == |recs + post|
  {
    hide LostWrite, FirstLost;
    var i, j := FirstLost(recs, gone, n, s), FirstLost(recs + post, gone, n, s);
    if i < |recs| {
      SameLost(recs, post, gone, i, s);
    }
    if j < |recs + post| {
      SameLost(recs, post, gone, j, s);
    }
  }

  /**
   What a second undo needs at a slot that holds `v` and should hold `g`. If an unfinished transaction had written it,
   that is what its first write had found, and there is a row unless its last write was a delete.
   */
  ghost predicate StillUndoable(recs: seq<LogRecord>, gone: iset<int>, s: Slot, v: Option<seq<Byte>>,
                                g: Option<seq<Byte>>) {
    var f, p := FirstLost(recs, gone, 0, s), LastWrite(recs, s);
    if f < |recs| then g == Before(recs[f].op) && (0 <= p && NeedsRow(recs[p].op) ==> v.Some?) else g == v
  }

  lemma {:induction false} SecondSlot(base: Records, recs: seq<LogRecord>, post: seq<LogRecord>, gone: iset<int>,
                                      s: Slot,
                                      v: Option<seq<Byte>>, g: Option<seq<Byte>>)
    requires LegalHistory(base, recs) && GoneLast(recs, gone) && forall x :: 0 <= x < |post| ==> post[x].tid !in gone
    ensures FindsRow(recs + post, gone, |recs + post|, s, v) && g == Reached(recs + post, gone, 0, s, v) <==>
            StillUndoable(recs, gone, s, v, g)
  {
    hide FirstLost, LastWrite, Replay, LegalHistory, GoneLast;
    var all, f, p := recs + post, FirstLost(recs, gone, 0, s), LastWrite(recs, s);
    SameFirst(recs, post, gone, 0, s);
    if f < |recs| {
      assert all[f] == recs[f] && p >= f;
      LaterIsLost(recs, gone, f, s);
      SameLost(recs, post, gone, p, s);
      assert LostWrite(recs, gone, p, s) && all[p] == recs[p];
      forall i | 0 <= i < |all| && LostWrite(all, gone, i, s) && NeedsRow(all[i].op) && i != p
        ensures Reached(all, gone, i + 1, s, v).Some?
      {
        SameLost(recs, post, gone, i, s);
        SecondMeets(base, recs, post, gone, i, s, v);
      }
      SameFirst(recs, post, gone, p + 1, s);
      assert FirstLost(recs, gone, p + 1, s) == |recs|;
    } else {
      forall i | 0 <= i < |all| ensures !LostWrite(all, gone, i, s) {
        SameLost(recs, post, gone, i, s);
      }
    }
  }

  lemma {:induction false} SecondMeets(base: Records, recs: seq<LogRecord>, post: seq<LogRecord>, gone: iset<int>,
                                       i: nat,
                                       s: Slot, v: Option<seq<Byte>>)
    requires LegalHistory(base, recs) && GoneLast(recs, gone) && forall x :: 0 <= x < |post| ==> post[x].tid !in gone
    requires i < |recs| && LostWrite(recs, gone, i, s) && NeedsRow(recs[i].op) && i != LastWrite(recs, s)
    ensures Reached(recs + post, gone, i + 1, s, v).Some?
  {
    hide FirstLost, LastWrite, Replay, LegalHistory, GoneLast;
    var j := FirstLost(recs, gone, i + 1, s);
    LaterIsLost(recs, gone, i, s);
    assert LostWrite(recs, gone, LastWrite(recs, s), s);
    forall x | i < x < j ensures !Writes(recs[x].op, s) {
      assert !LostWrite(recs, gone, x, s);
    }
    NextFinds(base, recs, i, j, s);
    SameFirst(recs, post, gone, i + 1, s);
    assert (recs + post)[j] == recs[j];
  }

  /**
   Recovery writes no log, so the next one undoes the same records again, on whatever rows there are then. It ends
   without error with the rows `goal` if and only if every slot an unfinished transaction had written should hold what
   its first write had found, and there is a row unless its last write was a delete; and all other slots are right.
   */
  lemma {:induction false} SecondUndoExact(base: Records, recs: seq<LogRecord>, post: seq<LogRecord>, db: Records,
                                           goal: Records)
    requires Continues(recs, post) && LegalHistory(base, recs) && LosersLast(recs)
    ensures UndoRun(recs + post, Losers(recs + post), |recs + post|, db) == Some(goal) <==>
            forall s :: StillUndoable(recs, Losers(recs), s, Look(db, s), Look(goal, s))
  {
    hide UndoRun, Reached, FindsRow, StillUndoable, Look, Continues, LegalHistory, GoneLast, Losers;
    var all, gone := recs + post, Losers(recs);
    SameLosers(recs, post);
    UndoRunSame(all, Losers(all), gone, |all|, db);
    UndoRunIs(all, gone, db, goal);
    forall s
      ensures FindsRow(all, gone, |all|, s, Look(db, s)) && Look(goal, s) == Reached(all, gone, 0, s, Look(db, s)) <==>
              StillUndoable(recs, gone, s, Look(db, s), Look(goal, s))
    {
      SecondSlot(base, recs, post, gone, s, Look(db, s), Look(goal, s));
    }
  }
}

/**
 Redo from any pages whatsoever: what it does, and exactly when it repeats history.
 */
module LogRedo {
  import opened Options
  import opened LogCodec
  import opened LogHistory

  /** Redo swallows the error of a missing row for a delete only. */
  predicate CanRedo(db: Records, op: Op) {
    op.Update? ==> op.slot in db
  }

  /** Redoing the records from `n` on that their pages have not seen; none if an error escapes. */
  ghost function RedoRun(recs: seq<LogRecord>, lsns: map<PageId, int>, n: nat, db: Records): Option<Records>
    requires n <= |recs|
    decreases |recs| - n
  {
    if n == |recs| then Some(db)
    else if !NeedsRedo(recs, lsns, n) then RedoRun(recs, lsns, n + 1, db)
    else if CanRedo(db, recs[n].op) then RedoRun(recs, lsns, n + 1, Apply(db, recs[n].op))
    else None
  }

  // ----- slot by slot -----

  predicate RedoesAt(recs: seq<LogRecord>, lsns: map<PageId, int>, n: nat, s: Slot)
    requires n < |recs|
  {
    NeedsRedo(recs, lsns, n) && recs[n].op.slot == s
  }

  /** What redo makes of one slot that holds `v`. */
  ghost function RedoSlot(recs: seq<LogRecord>, lsns: map<PageId, int>, n: nat, s: Slot,
                          v: Option<seq<Byte>>): Option<Option<seq<Byte>>>
    requires n <= |recs|
    decreases |recs| - n
  {
    if n == |recs| then Some(v)
    else if !RedoesAt(recs, lsns, n, s) then RedoSlot(recs, lsns, n + 1, s, v)
    else if recs[n].op.Update? && v.None? then None
    else RedoSlot(recs, lsns, n + 1, s, After(recs[n].op))
  }

  /** Redo fails if it fails for some slot, and otherwise treats every slot alone. */
  lemma {:induction false} RedoSlots(recs: seq<LogRecord>, lsns: map<PageId, int>, n: nat, db: Records)
    requires n <= |recs|
    ensures RedoRun(recs, lsns, n, db).None? ==> exists s :: RedoSlot(recs, lsns, n, s, Look(db, s)).None?
    ensures RedoRun(recs, lsns, n, db).Some? ==>
              forall s :: RedoSlot(recs, lsns, n, s, Look(db, s)) == Some(Look(RedoRun(recs, lsns, n, db).value, s))
    decreases |recs| - n
  {
    hide Look, Put;
    if n < |recs| {
      if !NeedsRedo(recs, lsns, n) {
        RedoSlots(recs, lsns, n + 1, db);
        if s :| RedoSlot(recs, lsns, n + 1, s, Look(db, s)).None? {
          assert RedoSlot(recs, lsns, n, s, Look(db, s)).None?;
        }
      } else {
        var op := recs[n].op;
        RedoHere(recs, lsns, n, db);
        if CanRedo(db, op) {
          RedoSlots(recs, lsns, n + 1, Apply(db, op));
        } else {
          assert RedoSlot(recs, lsns, n, op.slot, Look(db, op.slot)).None?;
        }
      }
    }
  }

  lemma {:induction false} RedoHere(recs: seq<LogRecord>, lsns: map<PageId, int>, n: nat, db: Records)
    requires n < |recs| && NeedsRedo(recs, lsns, n)
    ensures !CanRedo(db, recs[n].op) ==> RedoSlot(recs, lsns, n, recs[n].op.slot, Look(db, recs[n].op.slot)).None?
    ensures CanRedo(db, recs[n].op) ==>
              forall s ::
                RedoSlot(recs, lsns, n, s, Look(db, s)) ==
                RedoSlot(recs, lsns, n + 1, s, Look(Apply(db, recs[n].op), s))
  {
    var op := recs[n].op;
    if CanRedo(db, op) {
      forall s
        ensures RedoSlot(recs, lsns, n, s, Look(db, s)) == RedoSlot(recs, lsns, n + 1, s, Look(Apply(db, op), s))
      {
        LookPut(db, op.slot, After(op), s);
      }
    }
  }

  lemma {:induction false} RedoGives(recs: seq<LogRecord>, lsns: map<PageId, int>, db: Records, goal: Records)
    ensures RedoRun(recs, lsns, 0, db) == Some(goal) <==>
            forall s :: RedoSlot(recs, lsns, 0, s, Look(db, s)) == Some(Look(goal, s))
  {
    hide RedoRun, RedoSlot, Look;
    RedoSlots(recs, lsns, 0, db);
    var r := RedoRun(recs, lsns, 0, db);
    if r.Some? && forall s :: RedoSlot(recs, lsns, 0, s, Look(db, s)) == Some(Look(goal, s)) {
      forall s ensures Look(r.value, s) == Look(goal, s) {
        assert RedoSlot(recs, lsns, 0, s, Look(db, s)) == Some(Look(r.value, s));
      }
      SameLook(r.value, goal);
    }
  }

  // ----- in closed form -----

  /** Index of the last record before `n` that writes `s` and is redone, or -1. */
  function LastRedone(recs: seq<LogRecord>, lsns: map<PageId, int>, n: nat, s: Slot): (i: int)
    requires n <= |recs|
    ensures -1 <= i < n && (i >= 0 ==> RedoesAt(recs, lsns, i, s))
    ensures forall x :: i < x < n ==> !RedoesAt(recs, lsns, x, s)
  {
    if n == 0 then -1 else if RedoesAt(recs, lsns, n - 1, s) then n - 1 else LastRedone(recs, lsns, n - 1, s)
  }

  /** What redo has made of `s`, holding `v` at first, when it comes to record `n`. */
  function Found(recs: seq<LogRecord>, lsns: map<PageId, int>, n: nat, s: Slot, v: Option<seq<Byte>>): Option<seq<Byte>>
    requires n <= |recs|
  {
    var i := LastRedone(recs, lsns, n, s);
    if i >= 0 then After(recs[i].op) else v
  }

  /** Every update of `s` that is redone from record `n` on finds a row. */
  ghost predicate RedoFinds(recs: seq<LogRecord>, lsns: map<PageId, int>, n: nat, s: Slot, v: Option<seq<Byte>>)
    requires n <= |recs|
  {
    forall i :: n <= i < |recs| && RedoesAt(recs, lsns, i, s) && recs[i].op.Update? ==> Found(recs, lsns, i, s, v).Some?
  }

  lemma {:induction false} RedoFindsOne(recs: seq<LogRecord>, lsns: map<PageId, int>, n: nat, s: Slot,
                                        v: Option<seq<Byte>>)
    requires n < |recs|
    ensures RedoFinds(recs, lsns, n, s, v) <==>
            RedoFinds(recs, lsns, n + 1, s, v) &&
            (RedoesAt(recs, lsns, n, s) && recs[n].op.Update? ==> Found(recs, lsns, n, s, v).Some?)
  {
    hide RedoesAt, Found;
  }

  lemma {:induction false} RedoSlotIs(recs: seq<LogRecord>, lsns: map<PageId, int>, n: nat, s: Slot,
                                      v: Option<seq<Byte>>)
    requires n <= |recs|
    ensures RedoSlot(recs, lsns, n, s, Found(recs, lsns, n, s, v)) ==
            if RedoFinds(recs, lsns, n, s, v) then Some(Found(recs, lsns, |recs|, s, v)) else None
    decreases |recs| - n
  {
    hide RedoFinds, NeedsRedo;
    if n < |recs| {
      RedoSlotIs(recs, lsns, n + 1, s, v);
      RedoFindsOne(recs, lsns, n, s, v);
    } else {
      RedoFindsAll(recs, lsns, s, v);
    }
  }

  lemma {:induction false} RedoFindsAll(recs: seq<LogRecord>, lsns: map<PageId, int>, s: Slot, v: Option<seq<Byte>>)
    ensures RedoFinds(recs, lsns, |recs|, s, v) && Found(recs, lsns, 0, s, v) == v
  {
  }

  /**
   Redo of any log: it ends without error if and only if every redone update finds a row; the last redone write
   counts.
   */
  lemma {:induction false} RedoRunIs(recs: seq<LogRecord>, lsns: map<PageId, int>, db: Records)
    ensures RedoRun(recs, lsns, 0, db).Some? <==> forall s :: RedoFinds(recs, lsns, 0, s, Look(db, s))
    ensures RedoRun(recs, lsns, 0, db).Some? ==>
              forall s :: Look(RedoRun(recs, lsns, 0, db).value, s) == Found(recs, lsns, |recs|, s, Look(db, s))
  {
    hide RedoRun, RedoSlot, RedoFinds, Found, Look;
    RedoSlots(recs, lsns, 0, db);
    forall s
      ensures RedoSlot(recs, lsns, 0, s, Look(db, s)) ==
              if RedoFinds(recs, lsns, 0, s, Look(db, s)) then Some(Found(recs, lsns, |recs|, s, Look(db, s))) else None
    {
      RedoSlotIs(recs, lsns, 0, s, Look(db, s));
      RedoFindsAll(recs, lsns, s, Look(db, s));
    }
    var r := RedoRun(recs, lsns, 0, db);
    if r.Some? {
      forall s
        ensures RedoFinds(recs, lsns, 0, s, Look(db, s)) &&
                Look(r.value, s) == Found(recs, lsns, |recs|, s, Look(db, s))
      {
        assert RedoSlot(recs, lsns, 0, s, Look(db, s)) == Some(Look(r.value, s));
      }
    } else {
      var s :| RedoSlot(recs, lsns, 0, s, Look(db, s)).None?;
      assert !RedoFinds(recs, lsns, 0, s, Look(db, s));
    }
  }

  // ----- exactly when -----

  /** Index of the first record from `n` on that writes `s` and is above the LSN of its page, or the length. */
  function FirstAbove(recs: seq<LogRecord>, lsns: map<PageId, int>, n: nat, s: Slot): (i: nat)
    requires n <= |recs|
    ensures n <= i <= |recs| && (i < |recs| ==> RedoesAt(recs, lsns, i, s))
    ensures forall x :: n <= x < i ==> !RedoesAt(recs, lsns, x, s)
    decreases |recs| - n
  {
    if n == |recs| || RedoesAt(recs, lsns, n, s) then n else FirstAbove(recs, lsns, n + 1, s)
  }

  /**
   The page of `s` holds it well enough. If no record above the LSN of the page writes `s`, the page holds `s` as its
   history up to that LSN does. If the first such record is an update, the page has a row for it to find.
   */
  ghost predicate HoldsEnough(base: Records, recs: seq<LogRecord>, lsns: map<PageId, int>, db: Records, s: Slot) {
    var i := FirstAbove(recs, lsns, 0, s);
    if i == |recs| then Look(db, s) == Look(Replay(base, recs[..Seen(recs, LsnOf(lsns, PageOf(s)))]), s)
    else recs[i].op.Update? ==> s in db
  }

  ghost predicate Redoable(base: Records, recs: seq<LogRecord>, lsns: map<PageId, int>, db: Records) {
    forall s :: HoldsEnough(base, recs, lsns, db, s)
  }

  lemma {:induction false} RedoSkips(recs: seq<LogRecord>, lsns: map<PageId, int>, n: nat, m: nat, s: Slot,
                                     v: Option<seq<Byte>>)
    requires n <= m <= |recs| && forall x :: n <= x < m ==> !RedoesAt(recs, lsns, x, s)
    ensures RedoSlot(recs, lsns, n, s, v) == RedoSlot(recs, lsns, m, s, v)
    decreases m - n
  {
    hide RedoesAt;
    if n < m {
      RedoSkips(recs, lsns, n + 1, m, s, v);
    }
  }

  /** Above a record that its page has not seen, the page has seen none. */
  lemma {:induction false} AboveStays(recs: seq<LogRecord>, lsns: map<PageId, int>, i: nat, j: nat, s: Slot)
    requires Increasing(recs) && i < j < |recs| && RedoesAt(recs, lsns, i, s) && Writes(recs[j].op, s)
    ensures RedoesAt(recs, lsns, j, s)
  {
  }

  /** From a slot in step with history, redo follows history. */
  lemma {:induction false} RedoInStep(base: Records, recs: seq<LogRecord>, lsns: map<PageId, int>, n: nat, s: Slot)
    requires n <= |recs| && LegalHistory(base, recs) && forall j :: n <= j < |recs| && Writes(recs[j].op, s) ==>
               RedoesAt(recs, lsns, j, s)
    ensures RedoSlot(recs, lsns, n, s, Look(Replay(base, recs[..n]), s)) == Some(Look(Replay(base, recs), s))
    decreases |recs| - n
  {
    hide Replay, NeedsRedo;
    if n == |recs| {
      assert recs[..n] == recs;
    } else {
      RedoInStep(base, recs, lsns, n + 1, s);
      var r := recs[n];
      assert recs[..n + 1] == recs[..n] + [r];
      ReplayOne(base, recs[..n], r);
      if IsWrite(r.op) {
        LookPut(Replay(base, recs[..n]), r.op.slot, After(r.op), s);
      }
      NeedsWrite(recs, lsns, n, s);
    }
  }

  lemma {:induction false} NeedsWrite(recs: seq<LogRecord>, lsns: map<PageId, int>, n: nat, s: Slot)
    requires n < |recs|
    ensures RedoesAt(recs, lsns, n, s) ==> Writes(recs[n].op, s)
  {
  }

  /** The records above the LSN of a page are those it has not seen. */
  lemma {:induction false} SeenOrAbove(recs: seq<LogRecord>, lsns: map<PageId, int>, j: nat, s: Slot)
    requires Increasing(recs) && j < |recs| && Writes(recs[j].op, s)
    ensures RedoesAt(recs, lsns, j, s) <==> j >= Seen(recs, LsnOf(lsns, PageOf(s)))
  {
    hide Seen;
    SeenSplits(recs, LsnOf(lsns, PageOf(s)), j);
  }

  lemma {:induction false} SlotExact(base: Records, recs: seq<LogRecord>, lsns: map<PageId, int>, db: Records, s: Slot)
    requires LegalHistory(base, recs) && Increasing(recs)
    ensures RedoSlot(recs, lsns, 0, s, Look(db, s)) == Some(Look(Replay(base, recs), s)) <==>
            HoldsEnough(base, recs, lsns, db, s)
  {
    hide Replay, NeedsRedo, Seen, FirstAbove, RedoesAt, LegalHistory;
    var i := FirstAbove(recs, lsns, 0, s);
    RedoSkips(recs, lsns, 0, i, s, Look(db, s));
    if i == |recs| {
      NoneAbove(base, recs, lsns, s);
    } else {
      RestInStep(base, recs, lsns, i, s);
    }
  }

  lemma {:induction false} NoneAbove(base: Records, recs: seq<LogRecord>, lsns: map<PageId, int>, s: Slot)
    requires Increasing(recs) && FirstAbove(recs, lsns, 0, s) == |recs|
    ensures Look(Replay(base, recs[..Seen(recs, LsnOf(lsns, PageOf(s)))]), s) == Look(Replay(base, recs), s)
  {
    hide Replay, Seen, FirstAbove, RedoesAt;
    var m := Seen(recs, LsnOf(lsns, PageOf(s)));
    var w := recs[m..];
    forall x | 0 <= x < |w| ensures !Writes(w[x].op, s) {
      if Writes(recs[m + x].op, s) {
        SeenOrAbove(recs, lsns, m + x, s);
      }
    }
    UntouchedLook(base, recs[..m], w, s);
    assert recs[..m] + w == recs;
  }

  lemma {:induction false} RestInStep(base: Records, recs: seq<LogRecord>, lsns: map<PageId, int>, i: nat, s: Slot)
    requires LegalHistory(base, recs) && Increasing(recs) && i < |recs| && RedoesAt(recs, lsns, i, s)
    ensures RedoSlot(recs, lsns, i + 1, s, After(recs[i].op)) == Some(Look(Replay(base, recs), s))
  {
    hide Replay, RedoSlot, Seen, RedoesAt, LegalHistory;
    NeedsWrite(recs, lsns, i, s);
    forall j | i + 1 <= j < |recs| && Writes(recs[j].op, s) ensures RedoesAt(recs, lsns, j, s) {
      AboveStays(recs, lsns, i, j, s);
    }
    RedoInStep(base, recs, lsns, i + 1, s);
    assert recs[..i + 1] == recs[..i] + [recs[i]];
    ReplayOne(base, recs[..i], recs[i]);
    LookPut(Replay(base, recs[..i]), s, After(recs[i].op), s);
  }

  /** Redo ends without error with the rows of the whole log if and only if every slot fits. */
  lemma {:induction false} RedoExact(base: Records, recs: seq<LogRecord>, lsns: map<PageId, int>, db: Records)
    requires LegalHistory(base, recs) && Increasing(recs)
    ensures RedoRun(recs, lsns, 0, db) == Some(Replay(base, recs)) <==> Redoable(base, recs, lsns, db)
  {
    hide Replay, RedoRun, RedoSlot, LegalHistory, Increasing, HoldsEnough;
    RedoGives(recs, lsns, db, Replay(base, recs));
    forall s
      ensures RedoSlot(recs, lsns, 0, s, Look(db, s)) == Some(Look(Replay(base, recs), s)) <==>
              HoldsEnough(base, recs, lsns, db, s)
    {
      SlotExact(base, recs, lsns, db, s);
    }
  }

  // ----- pages that hold their history up to their LSN -----

  ghost predicate AtLsn(base: Records, recs: seq<LogRecord>, lsns: map<PageId, int>, db: Records, s: Slot) {
    Look(db, s) == Look(Replay(base, recs[..Seen(recs, LsnOf(lsns, PageOf(s)))]), s)
  }

  /** Each page holds exactly the effects up to its LSN. */
  ghost predicate PagesAtLsn(base: Records, recs: seq<LogRecord>, lsns: map<PageId, int>, db: Records) {
    forall s :: AtLsn(base, recs, lsns, db, s)
  }

  /** Between what a page has seen and the first record above its LSN, nothing writes the slot. */
  lemma {:induction false} InStepBelow(base: Records, recs: seq<LogRecord>, lsns: map<PageId, int>, s: Slot, i: nat)
    requires Increasing(recs) && i == FirstAbove(recs, lsns, 0, s) && i < |recs|
    ensures Look(Replay(base, recs[..i]), s) == Look(Replay(base, recs[..Seen(recs, LsnOf(lsns, PageOf(s)))]), s)
  {
    hide Replay, Seen, FirstAbove, RedoesAt;
    var m := Seen(recs, LsnOf(lsns, PageOf(s)));
    NeedsWrite(recs, lsns, i, s);
    SeenOrAbove(recs, lsns, i, s);
    var w := recs[m..i];
    forall x | 0 <= x < |w| ensures !Writes(w[x].op, s) {
      if Writes(recs[m + x].op, s) {
        SeenOrAbove(recs, lsns, m + x, s);
      }
    }
    UntouchedLook(base, recs[..m], w, s);
    assert recs[..m] + w == recs[..i];
  }

  lemma {:induction false} AtLsnFits(base: Records, recs: seq<LogRecord>, lsns: map<PageId, int>, db: Records, s: Slot)
    requires LegalHistory(base, recs) && Increasing(recs) && AtLsn(base, recs, lsns, db, s)
    ensures HoldsEnough(base, recs, lsns, db, s)
  {
    hide Replay, Seen, FirstAbove, RedoesAt, Increasing;
    var i := FirstAbove(recs, lsns, 0, s);
    if i < |recs| {
      NeedsWrite(recs, lsns, i, s);
      InStepBelow(base, recs, lsns, s, i);
    }
  }

  lemma {:induction false} PagesAtLsnRedo(base: Records, recs: seq<LogRecord>, lsns: map<PageId, int>, db: Records)
    requires LegalHistory(base, recs) && Increasing(recs) && PagesAtLsn(base, recs, lsns, db)
    ensures Redoable(base, recs, lsns, db)
  {
    hide AtLsn, HoldsEnough, LegalHistory, Increasing;
    forall s ensures HoldsEnough(base, recs, lsns, db, s) {
      AtLsnFits(base, recs, lsns, db, s);
    }
  }
}

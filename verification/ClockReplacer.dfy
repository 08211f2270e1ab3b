/**
 The clock of `src/replacer/lru_replacer.h`: it finds an unpinned frame if there is one.
 */
module ClockReplacer {
  import opened Options

  /** The frame the hand reaches from `p` after `k` steps of two turns. */
  function HandAt(p: nat, k: nat, size: nat): (f: nat)
    requires p < size && k <= 2 * size
    ensures f < size
  {
    if p + k < size then p + k else if p + k < 2 * size then p + k - size else p + k - 2 * size
  }

  lemma {:induction false} HandMoves(p: nat, k: nat, size: nat)
    requires p < size && k < 2 * size
    ensures (HandAt(p, k, size) + 1) % size == HandAt(p, k + 1, size)
  {
    Turn(HandAt(p, k, size), size);
  }

  lemma {:induction false} Turn(x: nat, size: nat)
    requires x < size
    ensures (x + 1) % size == if x + 1 == size then 0 else x + 1
  {
    if x + 1 < size {
      Small(x + 1, size);
    }
  }

  lemma {:induction false} Small(x: nat, size: nat)
    requires x < size
    ensures x % size == x
  {
  }

  lemma {:induction false} FullTurns(p: nat, size: nat)
    requires p < size
    ensures HandAt(p, 2 * size, size) == p
  {
  }

  /** In each turn the hand reaches every frame. */
  lemma {:induction false} Reaches(p: nat, f: nat, size: nat) returns (k: nat)
    requires p < size && f < size
    ensures 1 <= k <= size && HandAt(p, k, size) == f && HandAt(p, k + size, size) == f
  {
    k := if f > p then f - p else f - p + size;
  }

  /** The hand stops at step `k`: the frame is unpinned, and had its reference bit clear or is met again. */
  ghost predicate Stops(p: nat, k: nat, size: nat, was: seq<bool>, counter: seq<int>)
    requires p < size == |was| == |counter| && k <= 2 * size
  {
    var f := HandAt(p, k, size);
    counter[f] == 0 && (!was[f] || k > size)
  }

  /** The hand has passed the unpinned frame `g` in its first `n` steps. */
  ghost predicate Passed(p: nat, n: nat, size: nat, counter: seq<int>, g: nat)
    requires p < size == |counter| && n <= 2 * size && g < size
  {
    counter[g] == 0 && exists i :: 1 <= i <= n && HandAt(p, i, size) == g
  }

  /** `steps` steps from `p` without a stop: the frames passed have lost their reference bits, no other has. */
  ghost predicate Swept(p: nat, steps: nat, size: nat, was: seq<bool>, bits: seq<bool>, counter: seq<int>) {
    && p < size == |was| == |bits| == |counter| && steps <= 2 * size
    && (forall k :: 1 <= k <= steps ==> !Stops(p, k, size, was, counter))
    && (forall g :: 0 <= g < size ==> (bits[g] <==> was[g] && !Passed(p, steps, size, counter, g)))
  }

  /** The hand stops for the first time at step `k`. */
  ghost predicate FirstStop(p: nat, k: nat, size: nat, was: seq<bool>, bits: seq<bool>, counter: seq<int>) {
    1 <= k && Swept(p, k - 1, size, was, bits, counter) && k <= 2 * size && Stops(p, k, size, was, counter)
  }

  /** What a search from `p` finds, and the reference bits it leaves. */
  ghost predicate Takes(p: nat, size: nat, was: seq<bool>, bits: seq<bool>, counter: seq<int>, f: Option<nat>) {
    if f.None? then bits == was
    else exists k :: FirstStop(p, k, size, was, bits, counter) && f.value == HandAt(p, k, size)
  }

  lemma {:induction false} SweepStart(p: nat, size: nat, was: seq<bool>, counter: seq<int>)
    requires p < size == |was| == |counter|
    ensures Swept(p, 0, size, was, was, counter) && HandAt(p, 0, size) == p
  {
  }

  /** The test of the loop body: at an unpinned frame, the bit is clear now exactly if the hand stops there. */
  lemma {:induction false} SweepTest(p: nat, steps: nat, size: nat, was: seq<bool>, bits: seq<bool>, counter: seq<int>)
    requires Swept(p, steps, size, was, bits, counter) && steps < 2 * size
    ensures var x := HandAt(p, steps + 1, size);
            counter[x] == 0 && !bits[x] <==> Stops(p, steps + 1, size, was, counter)
  {
    var x := HandAt(p, steps + 1, size);
    if counter[x] == 0 {
      if steps + 1 > size {
        assert x == HandAt(p, steps + 1 - size, size);
        assert Passed(p, steps, size, counter, x);
      } else {
        forall i | 1 <= i <= steps ensures HandAt(p, i, size) != x {
        }
        assert !Passed(p, steps, size, counter, x);
      }
    }
  }

  lemma {:induction false} SweepStep(p: nat, steps: nat, size: nat, was: seq<bool>, bits: seq<bool>, counter: seq<int>)
    requires Swept(p, steps, size, was, bits, counter) && steps < 2 * size && !Stops(p, steps + 1, size, was, counter)
    ensures var x := HandAt(p, steps + 1, size);
            Swept(p, steps + 1, size, was, if counter[x] == 0 then bits[x := false] else bits, counter)
  {
    hide HandAt, Stops;
    var x := HandAt(p, steps + 1, size);
    forall g | 0 <= g < size
      ensures Passed(p, steps + 1, size, counter, g) <==>
              Passed(p, steps, size, counter, g) || (g == x && counter[x] == 0)
    {
    }
  }

  lemma {:induction false} SweepFails(p: nat, size: nat, was: seq<bool>, bits: seq<bool>, counter: seq<int>)
    requires Swept(p, 2 * size, size, was, bits, counter)
    ensures bits == was && forall g :: 0 <= g < size ==> counter[g] != 0
  {
    forall g | 0 <= g < size ensures counter[g] != 0 {
      var k := Reaches(p, g, size);
      assert !Stops(p, k + size, size, was, counter);
    }
  }

  /** The frame the hand stops at; with its bit set only if every unpinned frame had its bit set. */
  lemma {:induction false} SweepFound(p: nat, k: nat, size: nat, was: seq<bool>, bits: seq<bool>, counter: seq<int>)
    requires FirstStop(p, k, size, was, bits, counter)
    ensures was[HandAt(p, k, size)] ==> forall g :: 0 <= g < size && counter[g] == 0 ==> was[g]
  {
    forall g | 0 <= g < size && counter[g] == 0 && was[HandAt(p, k, size)] ensures was[g] {
      var i := Reaches(p, g, size);
      assert !Stops(p, i, size, was, counter);
    }
  }

  class ClockReplacer {
    const size: nat
    const pinCounter: array<int>
    const pin: array<bool>
    var pointer: nat

    ghost predicate Valid()
      reads this
    {
      pinCounter.Length == size && pin.Length == size && pointer < size
    }

    constructor (size: nat)
      requires size > 0
      ensures Valid() && this.size == size && pointer == 0 && fresh(pinCounter) && fresh(pin)
      ensures forall f :: 0 <= f < size ==> pinCounter[f] == 0 && !pin[f]
    {
      this.size := size;
      pinCounter := new int[size](_ => 0);
      pin := new bool[size](_ => false);
      pointer := 0;
    }

    /**
     At most two turns of the hand: it takes the first unpinned frame whose reference bit is clear or that it meets
     again, and clears the bits of the unpinned frames it has passed.
     */
    method Victim() returns (f: Option<nat>)
      requires Valid()
      modifies `pointer, pin
      ensures Valid() && (f.Some? <==> exists i :: 0 <= i < size && pinCounter[i] == 0)
      ensures f.Some? ==> f.value < size && pinCounter[f.value] == 0 && pointer == f.value
      ensures Takes(old(pointer), size, old(pin[..]), pin[..], pinCounter[..], f)
      ensures f.Some? && old(pin[f.value]) ==> forall g :: 0 <= g < size && pinCounter[g] == 0 ==> old(pin[g])
      ensures f.None? ==> pointer == old(pointer)
    {
      hide Swept, HandAt, Stops;
      var steps := 0;
      ghost var p, was, counter := pointer, pin[..], pinCounter[..];
      SweepStart(p, size, was, counter);
      while steps < 2 * size
        invariant 0 <= steps <= 2 * size && pointer == HandAt(p, steps, size)
        invariant Swept(p, steps, size, was, pin[..], counter)
      {
        HandMoves(p, steps, size);
        pointer := (pointer + 1) % size;
        ghost var bits := pin[..];
        SweepTest(p, steps, size, was, bits, counter);
        if pinCounter[pointer] == 0 && !pin[pointer] {
          assert FirstStop(p, steps + 1, size, was, bits, counter);
          SweepFound(p, steps + 1, size, was, bits, counter);
          return Some(pointer);
        }
        SweepStep(p, steps, size, was, bits, counter);
        if pinCounter[pointer] == 0 {
          pin[pointer] := false;
        }
        assert pin[..] == if counter[pointer] == 0 then bits[pointer := false] else bits;
        steps := steps + 1;
      }
      SweepFails(p, size, was, pin[..], counter);
      FullTurns(p, size);
      return None;
    }

    method Pin(f: nat)
      requires Valid() && f < size
      modifies pinCounter, pin
      ensures Valid() && pinCounter[..] == old(pinCounter[..])[f := old(pinCounter[f]) + 1]
      ensures old(pinCounter[f]) == 0 ==> pin[..] == old(pin[..])[f := true]
      ensures old(pinCounter[f]) != 0 ==> pin[..] == old(pin[..])
    {
      pinCounter[f] := pinCounter[f] + 1;
      if pinCounter[f] == 1 {
        pin[f] := true;
      }
    }

    method Unpin(f: nat)
      requires Valid() && f < size
      modifies pinCounter
      ensures Valid() && pinCounter[..] == old(pinCounter[..])[f := old(pinCounter[f]) - 1]
    {
      pinCounter[f] := pinCounter[f] - 1;
    }
  }
}

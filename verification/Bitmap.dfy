/**
 The slot bitmap of a heap page: `src/record/bitmap.h`.
 */
module Bitmap {

  /** The bit of a position within its byte, highest bit first. */
  function Mask(k: nat): bv8
    requires k < 8
  {
    match k
    case 0 => 0x80
    case 1 => 0x40
    case 2 => 0x20
    case 3 => 0x10
    case 4 => 0x08
    case 5 => 0x04
    case 6 => 0x02
    case _ => 0x01
  }

  predicate Bit(b: bv8, k: nat)
    requires k < 8
  {
    b & Mask(k) != 0
  }

  function With(b: bv8, k: nat): bv8
    requires k < 8
  {
    b | Mask(k)
  }

  function Without(b: bv8, k: nat): bv8
    requires k < 8
  {
    b & !Mask(k)
  }

  lemma {:induction false} BitWith(b: bv8, j: nat, k: nat)
    requires j < 8 && k < 8
    ensures Bit(With(b, j), k) <==> j == k || Bit(b, k)
  {
    hide Mask;
    MaskBits(j, k);
    Added(b, Mask(j), Mask(k), j == k);
  }

  lemma {:induction false} Added(b: bv8, m: bv8, x: bv8, same: bool)
    requires x != 0 && if same then m == x else m & x == 0
    ensures (b | m) & x != 0 <==> same || b & x != 0
  {
  }

  lemma {:induction false} BitWithout(b: bv8, j: nat, k: nat)
    requires j < 8 && k < 8
    ensures Bit(Without(b, j), k) <==> j != k && Bit(b, k)
  {
    hide Mask;
    MaskBits(j, k);
    Cleared(b, Mask(j), Mask(k), j == k);
  }

  lemma {:induction false} Cleared(b: bv8, m: bv8, x: bv8, same: bool)
    requires x != 0 && if same then m == x else m & x == 0
    ensures (b & !m) & x != 0 <==> !same && b & x != 0
  {
  }

  lemma {:induction false} MaskBits(j: nat, k: nat)
    requires j < 8 && k < 8
    ensures Mask(k) != 0 && (j != k ==> Mask(j) & Mask(k) == 0)
  {
  }

  predicate IsSet(bm: seq<bv8>, pos: nat)
    requires pos < 8 * |bm|
  {
    Bit(bm[pos / 8], pos % 8)
  }

  function Set(bm: seq<bv8>, pos: nat): (r: seq<bv8>)
    requires pos < 8 * |bm|
    ensures |r| == |bm|
  {
    bm[pos / 8 := With(bm[pos / 8], pos % 8)]
  }

  function Reset(bm: seq<bv8>, pos: nat): (r: seq<bv8>)
    requires pos < 8 * |bm|
    ensures |r| == |bm|
  {
    bm[pos / 8 := Without(bm[pos / 8], pos % 8)]
  }

  /** Setting a bit sets that bit and no other. */
  lemma {:induction false} SetOnly(bm: seq<bv8>, pos: nat, q: nat)
    requires pos < 8 * |bm| && q < 8 * |bm|
    ensures IsSet(Set(bm, pos), q) <==> q == pos || IsSet(bm, q)
  {
    hide Mask, Bit, With;
    BitWith(bm[pos / 8], pos % 8, q % 8);
  }

  lemma {:induction false} ResetOnly(bm: seq<bv8>, pos: nat, q: nat)
    requires pos < 8 * |bm| && q < 8 * |bm|
    ensures IsSet(Reset(bm, pos), q) <==> q != pos && IsSet(bm, q)
  {
    hide Mask, Bit, Without;
    BitWithout(bm[pos / 8], pos % 8, q % 8);
  }

  /** The first position behind `curr` with the given bit, or `maxN`. */
  method NextBit(bit: bool, bm: seq<bv8>, maxN: nat, curr: int) returns (r: nat)
    requires maxN <= 8 * |bm| && -1 <= curr < maxN
    ensures curr < r <= maxN && (r < maxN ==> IsSet(bm, r) == bit)
    ensures forall i :: curr < i < r ==> IsSet(bm, i) != bit
  {
    hide IsSet;
    r := curr + 1;
    while r < maxN
      invariant curr < r <= maxN
      invariant forall i :: curr < i < r ==> IsSet(bm, i) != bit
    {
      if IsSet(bm, r) == bit {
        return;
      }
      r := r + 1;
    }
  }

  // ----- counting -----

  /** The set positions below `n`, ascending. */
  function Live(bm: seq<bv8>, n: nat): seq<nat>
    requires n <= 8 * |bm|
  {
    if n == 0 then [] else if IsSet(bm, n - 1) then Live(bm, n - 1) + [n - 1] else Live(bm, n - 1)
  }

  lemma {:induction false} LiveIs(bm: seq<bv8>, n: nat)
    requires n <= 8 * |bm|
    ensures |Live(bm, n)| <= n && forall i, j :: 0 <= i < j < |Live(bm, n)| ==> Live(bm, n)[i] < Live(bm, n)[j]
    ensures forall p :: p in Live(bm, n) <==> 0 <= p < n && IsSet(bm, p)
  {
    hide IsSet;
    if n > 0 {
      LiveIs(bm, n - 1);
      forall p ensures p in Live(bm, n) <==> 0 <= p < n && IsSet(bm, p) {
      }
      var s := Live(bm, n - 1);
      forall i | 0 <= i < |s| ensures s[i] < n - 1 {
        assert s[i] in s;
      }
    }
  }

  lemma {:induction false} CountSet(bm: seq<bv8>, pos: nat, n: nat)
    requires n <= 8 * |bm| && pos < 8 * |bm| && !IsSet(bm, pos)
    ensures |Live(Set(bm, pos), n)| == |Live(bm, n)| + if pos < n then 1 else 0
  {
    hide IsSet, Set;
    if n > 0 {
      CountSet(bm, pos, n - 1);
      SetOnly(bm, pos, n - 1);
    }
  }

  lemma {:induction false} CountReset(bm: seq<bv8>, pos: nat, n: nat)
    requires n <= 8 * |bm| && pos < 8 * |bm| && IsSet(bm, pos)
    ensures |Live(Reset(bm, pos), n)| == |Live(bm, n)| - if pos < n then 1 else 0
  {
    hide IsSet, Reset;
    if n > 0 {
      CountReset(bm, pos, n - 1);
      ResetOnly(bm, pos, n - 1);
    }
  }

  /** The count is full exactly if every bit is set. */
  lemma {:induction false} FullCount(bm: seq<bv8>, n: nat)
    requires n <= 8 * |bm|
    ensures |Live(bm, n)| == n <==> forall p :: 0 <= p < n ==> IsSet(bm, p)
  {
    hide IsSet;
    if n > 0 {
      FullCount(bm, n - 1);
      LiveIs(bm, n - 1);
    }
  }

  lemma {:induction false} EmptyCount(bm: seq<bv8>, n: nat)
    requires n <= 8 * |bm| && forall i :: 0 <= i < |bm| ==> bm[i] == 0
    ensures Live(bm, n) == []
  {
    hide Bit;
    if n > 0 {
      EmptyCount(bm, n - 1);
      ZeroBit(bm[(n - 1) / 8], (n - 1) % 8);
    }
  }

  lemma {:induction false} ZeroBit(b: bv8, k: nat)
    requires b == 0 && k < 8
    ensures !Bit(b, k)
  {
  }
}

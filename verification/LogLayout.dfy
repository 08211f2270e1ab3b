/**
 Where the fields of a log record stand in the file, byte for byte.
 */
module LogLayout {
  import opened LogCodec

  /** A number of 32 bits as it stands in memory. */
  function Unsigned(x: int): int {
    if x < 0 then x + TWO_32 else x
  }

  predicate WordAt(bs: seq<Byte>, at: nat, x: int) {
    at + 4 <= |bs| && Word(bs[at..at + 4]) == Unsigned(x)
  }

  /** The codes of the record types. */
  function TypeCode(op: Op): int {
    match op
    case Update(_, _, _) => 0
    case Insert(_, _) => 1
    case Delete(_, _) => 2
    case Begin => 3
    case Commit => 4
    case Abort => 5
  }

  /** What a write logs of the row: an update the old image and then the new one. */
  function Images(op: Op): seq<Byte>
    requires op.Insert? || op.Delete? || op.Update?
  {
    if op.Update? then op.before + op.after else op.value
  }

  lemma {:induction false} EncodedWord(x: nat)
    requires x < TWO_32
    ensures Word(Encode(x, 4)) == x
  {
    hide Encode, Decode;
    assert Pow256(4) == TWO_32;
    DecodeEncode(x, 4);
    FourBytes(Encode(x, 4));
  }

  lemma {:induction false} IntWord(x: int)
    requires Int32(x)
    ensures Word(EncodeInt(x)) == Unsigned(x)
  {
    hide Encode;
    EncodedWord(Unsigned(x));
  }

  /** A length of eight bytes that four can hold. */
  lemma {:induction false} LongWord(x: nat)
    requires x < TWO_32
    ensures Word(Encode(x, 8)[..4]) == x && Word(Encode(x, 8)[4..8]) == 0
  {
    Halves(x, 4, 4);
    Quarters(x);
    assert Encode(x, 8)[4..8] == Encode(0, 4);
    EncodedWord(x);
    EncodedWord(0);
  }

  function Shift(x: nat, n: nat): nat {
    if n == 0 then x else Shift(x / 256, n - 1)
  }

  lemma {:induction false} Halves(x: nat, m: nat, n: nat)
    ensures Encode(x, m + n) == Encode(x, m) + Encode(Shift(x, m), n)
  {
    if m > 0 {
      Halves(x / 256, m - 1, n);
      assert m + n - 1 == m - 1 + n;
    }
  }

  lemma {:induction false} Quarters(x: nat)
    requires x < TWO_32
    ensures Shift(x, 4) == 0
  {
    assert Shift(x, 4) == Shift(x / 256, 3);
    assert Shift(x / 256, 3) == Shift(x / 256 / 256, 2);
    assert Shift(x / 256 / 256, 2) == Shift(x / 256 / 256 / 256, 1);
    assert Shift(x / 256 / 256 / 256, 1) == x / 256 / 256 / 256 / 256;
  }

  lemma {:induction false} Placed(bs: seq<Byte>, pre: seq<Byte>, mid: seq<Byte>, post: seq<Byte>)
    requires bs == pre + mid + post
    ensures bs[|pre|..|pre| + |mid|] == mid
  {
  }

  lemma {:induction false} FiveParts(bs: seq<Byte>, pre: seq<Byte>, p: seq<Byte>, q: seq<Byte>, n: seq<Byte>,
                                     t: seq<Byte>)
    requires bs == pre + (p + q + n + t) && |p| == |q| == 4 && |n| == 8
    ensures var at := |pre|;
            && bs[at..at + 4] == p && bs[at + 4..at + 8] == q && bs[at + 8..at + 12] == n[..4]
            && bs[at + 12..at + 16] == n[4..8] && bs[at + 16..] == t
  {
  }

  /** The header: five words, among them the length of the whole record. */
  lemma {:induction false} HeaderLayout(r: LogRecord)
    requires Fits(r)
    ensures var bs := Bytes(r);
            && WordAt(bs, 0, TypeCode(r.op)) && WordAt(bs, 4, r.lsn) && WordAt(bs, 8, |bs|)
            && WordAt(bs, 12, r.tid) && WordAt(bs, 16, r.prevLsn)
  {
    hide Word, Encode, EncodeInt, Payload, OpFits, OpSize, Header;
    HeaderFields(r, Payload(r.op));
    IntWord(TypeOf(r.op));
    IntWord(r.lsn);
    EncodedWord(TotalLength(r));
    IntWord(r.tid);
    IntWord(r.prevLsn);
  }

  /** Behind the header of a write: size and bytes of the row, page and slot, length and name of the table. */
  lemma {:induction false} WriteLayout(r: LogRecord)
    requires Fits(r) && (r.op.Insert? || r.op.Delete? || r.op.Update?)
    ensures var bs, images, s := Bytes(r), Images(r.op), r.op.slot;
            var at := 24 + |images|;
            && |bs| == at + 16 + |s.table|
            && WordAt(bs, 20, if r.op.Update? then |r.op.before| else |images|) && bs[24..at] == images
            && WordAt(bs, at, s.pageNo) && WordAt(bs, at + 4, s.slotNo) && WordAt(bs, at + 8, |s.table|)
            && WordAt(bs, at + 12, 0) && bs[at + 16..] == s.table
  {
    hide Word, Encode, EncodeInt, SlotBytes, Header;
    var bs, images, s := Bytes(r), Images(r.op), r.op.slot;
    var n := EncodeInt(if r.op.Update? then |r.op.before| else |images|);
    var h := Header(r) + n;
    PayloadParts(r.op, n);
    assert bs == Header(r) + n + (images + SlotBytes(s));
    assert bs == h + images + SlotBytes(s);
    Placed(bs, Header(r), n, images + SlotBytes(s));
    Placed(bs, h, images, SlotBytes(s));
    IntWord(if r.op.Update? then |r.op.before| else |images|);
    SlotLayout(bs, h + images, s);
  }

  lemma {:induction false} PayloadParts(op: Op, n: seq<Byte>)
    requires OpFits(op) && (op.Insert? || op.Delete? || op.Update?)
    requires n == EncodeInt(if op.Update? then |op.before| else |op.value|)
    ensures Payload(op) == n + (Images(op) + SlotBytes(op.slot))
  {
    hide EncodeInt, SlotBytes;
    if op.Update? {
      assert n + op.before + op.after + SlotBytes(op.slot) == n + ((op.before + op.after) + SlotBytes(op.slot));
    }
  }

  lemma {:induction false} SlotLayout(bs: seq<Byte>, pre: seq<Byte>, s: Slot)
    requires SlotFits(s) && bs == pre + SlotBytes(s)
    ensures var at := |pre|;
            && |bs| == at + 16 + |s.table|
            && WordAt(bs, at, s.pageNo) && WordAt(bs, at + 4, s.slotNo) && WordAt(bs, at + 8, |s.table|)
            && WordAt(bs, at + 12, 0) && bs[at + 16..] == s.table
  {
    hide Word, Encode, EncodeInt;
    var p, q, n, at := EncodeInt(s.pageNo), EncodeInt(s.slotNo), Encode(|s.table|, 8), |pre|;
    FiveParts(bs, pre, p, q, n, s.table);
    IntWord(s.pageNo);
    IntWord(s.slotNo);
    LongWord(|s.table|);
  }
}

/**
 Log records and their byte form (`src/recovery/log_manager.h`, `src/recovery/log_defs.h`).
 */
module LogCodec {
  import opened Options

  type Byte = b: int | 0 <= b < 256 witness 0

  /** A record slot of a table file. */
  datatype Slot = Slot(table: seq<Byte>, pageNo: int, slotNo: int)

  datatype Op =
    | Begin
    | Commit
    | Abort
    | Insert(slot: Slot, value: seq<Byte>)
    | Delete(slot: Slot, value: seq<Byte>)
    | Update(slot: Slot, before: seq<Byte>, after: seq<Byte>)

  datatype LogRecord = LogRecord(lsn: int, tid: int, prevLsn: int, op: Op)

  const TYPE_UPDATE := 0
  const TYPE_INSERT := 1
  const TYPE_DELETE := 2
  const TYPE_BEGIN := 3
  const TYPE_COMMIT := 4
  const TYPE_ABORT := 5

  const INVALID_LSN := -1
  const LOG_HEADER_SIZE := 20
  const LOG_BUFFER_SIZE := 1048576

  const TWO_31 := 0x8000_0000
  const TWO_32 := 0x1_0000_0000

  // ----- little-endian numbers -----

  function Pow256(n: nat): nat {
    if n == 0 then 1 else 256 * Pow256(n - 1)
  }

  function Encode(x: nat, n: nat): (bs: seq<Byte>)
    ensures |bs| == n
  {
    if n == 0 then [] else [x % 256] + Encode(x / 256, n - 1)
  }

  function Decode(bs: seq<Byte>): nat {
    if bs == [] then 0 else bs[0] + 256 * Decode(bs[1..])
  }

  lemma {:induction false} DecodeEncode(x: nat, n: nat)
    requires x < Pow256(n)
    ensures Decode(Encode(x, n)) == x
  {
    if n > 0 {
      DecodeEncode(x / 256, n - 1);
    }
  }

  lemma {:induction false} EncodeDecode(bs: seq<Byte>)
    ensures Decode(bs) < Pow256(|bs|) && Encode(Decode(bs), |bs|) == bs
  {
    if bs != [] {
      EncodeDecode(bs[1..]);
    }
  }

  /** Four bytes, the least significant first. */
  function Word(bs: seq<Byte>): nat
    requires |bs| == 4
  {
    var w: int, x: int, y: int, z: int := bs[0], bs[1], bs[2], bs[3];
    w + 0x100 * x + 0x1_0000 * y + 0x100_0000 * z
  }

  lemma {:induction false} FourBytes(bs: seq<Byte>)
    requires |bs| == 4
    ensures Decode(bs) == Word(bs)
  {
    assert Decode(bs[3..]) == bs[3];
    assert bs[2..][1..] == bs[3..] && bs[1..][1..] == bs[2..];
    assert Decode(bs[2..]) == bs[2] + 256 * Decode(bs[3..]);
    assert Decode(bs[1..]) == bs[1] + 256 * Decode(bs[2..]);
  }

  /** A 32-bit two's complement number. */
  function EncodeInt(x: int): (bs: seq<Byte>)
    requires -TWO_31 <= x < TWO_31
    ensures |bs| == 4
  {
    Encode(if x < 0 then x + TWO_32 else x, 4)
  }

  function DecodeInt(bs: seq<Byte>): int {
    var u := Decode(bs);
    if u < TWO_31 then u else u - TWO_32
  }

  lemma {:induction false} DecodeEncodeInt(x: int)
    requires -TWO_31 <= x < TWO_31
    ensures DecodeInt(EncodeInt(x)) == x
  {
    assert Pow256(4) == TWO_32;
    DecodeEncode(if x < 0 then x + TWO_32 else x, 4);
  }

  /** Every four bytes are a number. */
  lemma {:induction false} EncodeDecodeInt(bs: seq<Byte>)
    requires |bs| == 4
    ensures -TWO_31 <= DecodeInt(bs) < TWO_31 && EncodeInt(DecodeInt(bs)) == bs
  {
    hide Encode, Decode;
    assert Pow256(4) == TWO_32;
    EncodeDecode(bs);
  }

  // ----- records that fit the field widths -----

  predicate Int32(x: int) {
    -TWO_31 <= x < TWO_31
  }

  predicate SlotFits(s: Slot) {
    Int32(s.pageNo) && Int32(s.slotNo) && |s.table| < TWO_31
  }

  predicate OpFits(op: Op) {
    match op
    case Begin => true
    case Commit => true
    case Abort => true
    case Insert(s, v) => SlotFits(s) && |v| < TWO_31
    case Delete(s, v) => SlotFits(s) && |v| < TWO_31
    case Update(s, v, w) => SlotFits(s) && |v| < TWO_31 && |w| < TWO_31
  }

  /** `log_tot_len_` as the constructors compute it. */
  function OpSize(op: Op): nat {
    match op
    case Begin => 0
    case Commit => 0
    case Abort => 0
    case Insert(s, v) => 4 + |v| + 8 + 8 + |s.table|
    case Delete(s, v) => 4 + |v| + 8 + 8 + |s.table|
    case Update(s, v, w) => 4 + |v| + |w| + 8 + 8 + |s.table|
  }

  function TotalLength(r: LogRecord): nat {
    LOG_HEADER_SIZE + OpSize(r.op)
  }

  predicate Fits(r: LogRecord) {
    Int32(r.lsn) && Int32(r.tid) && Int32(r.prevLsn) && OpFits(r.op) && TotalLength(r) < TWO_32
  }

  // ----- serialize -----

  function TypeOf(op: Op): (t: int)
    ensures 0 <= t <= 5
  {
    match op
    case Update(_, _, _) => TYPE_UPDATE
    case Insert(_, _) => TYPE_INSERT
    case Delete(_, _) => TYPE_DELETE
    case Begin => TYPE_BEGIN
    case Commit => TYPE_COMMIT
    case Abort => TYPE_ABORT
  }

  function Header(r: LogRecord): (bs: seq<Byte>)
    requires Fits(r)
    ensures |bs| == LOG_HEADER_SIZE
  {
    EncodeInt(TypeOf(r.op)) + EncodeInt(r.lsn) + Encode(TotalLength(r), 4) + EncodeInt(r.tid) + EncodeInt(r.prevLsn)
  }

  /** Rid, name length and name. */
  function SlotBytes(s: Slot): (bs: seq<Byte>)
    requires SlotFits(s)
    ensures |bs| == 16 + |s.table|
  {
    EncodeInt(s.pageNo) + EncodeInt(s.slotNo) + Encode(|s.table|, 8) + s.table
  }

  function Payload(op: Op): (bs: seq<Byte>)
    requires OpFits(op)
    ensures |bs| == OpSize(op)
  {
    match op
    case Begin => []
    case Commit => []
    case Abort => []
    case Insert(s, v) => EncodeInt(|v|) + v + SlotBytes(s)
    case Delete(s, v) => EncodeInt(|v|) + v + SlotBytes(s)
    case Update(s, v, w) => EncodeInt(|v|) + v + w + SlotBytes(s)
  }

  function Bytes(r: LogRecord): (bs: seq<Byte>)
    requires Fits(r)
    ensures |bs| == TotalLength(r)
  {
    Header(r) + Payload(r.op)
  }

  // ----- deserialize -----

  /** `n` bytes at offset `at`, or nothing if the source ends before. */
  function Field(src: seq<Byte>, at: int, n: int): Option<seq<Byte>> {
    if 0 <= at && 0 <= n && at + n <= |src| then Some(src[at..at + n]) else None
  }

  function ReadSlot(src: seq<Byte>, at: int): Option<Slot> {
    match (Field(src, at, 4), Field(src, at + 4, 4), Field(src, at + 8, 8))
    case (Some(p), Some(s), Some(n)) =>
      (match Field(src, at + 16, Decode(n))
       case Some(name) => Some(Slot(name, DecodeInt(p), DecodeInt(s)))
       case None => None)
    case _ => None
  }

  /** The payload of a record of type `t`; an update keeps one size for both images. */
  function ReadOp(src: seq<Byte>, t: int): Option<Op> {
    if t == TYPE_BEGIN then Some(Begin)
    else if t == TYPE_COMMIT then Some(Commit)
    else if t == TYPE_ABORT then Some(Abort)
    else
      match Field(src, 20, 4)
      case None => None
      case Some(nb) =>
        var n := DecodeInt(nb);
        match Field(src, 24, n)
        case None => None
        case Some(v) =>
          if t == TYPE_UPDATE then
            match (Field(src, 24 + n, n), ReadSlot(src, 24 + n + n))
            case (Some(w), Some(s)) => Some(Update(s, v, w))
            case _ => None
          else
            match ReadSlot(src, 24 + n)
            case None => None
            case Some(s) =>
              if t == TYPE_INSERT then Some(Insert(s, v)) else if t == TYPE_DELETE then Some(Delete(s, v)) else None
  }

  function ReadLength(src: seq<Byte>): nat
    requires LOG_HEADER_SIZE <= |src|
  {
    Decode(src[8..12])
  }

  /** `deserialize` of the record that starts at `src`. */
  function ReadRecord(src: seq<Byte>): Option<LogRecord>
    requires LOG_HEADER_SIZE <= |src|
  {
    match ReadOp(src, DecodeInt(src[0..4]))
    case None => None
    case Some(op) => Some(LogRecord(DecodeInt(src[4..8]), DecodeInt(src[12..16]), DecodeInt(src[16..20]), op))
  }

  // ----- round trip -----

  lemma {:induction false} FieldMiddle(a: seq<Byte>, b: seq<Byte>, c: seq<Byte>)
    ensures Field(a + b + c, |a|, |b|) == Some(b)
  {
    assert (a + b + c)[|a|..|a| + |b|] == b;
  }

  lemma {:induction false} ReadBack(src: seq<Byte>, a: seq<Byte>, b: seq<Byte>, c: seq<Byte>, at: int, n: int)
    requires src == a + b + c && at == |a| && n == |b|
    ensures Field(src, at, n) == Some(b)
  {
    FieldMiddle(a, b, c);
  }

  lemma {:induction false} HeaderFields(r: LogRecord, rest: seq<Byte>)
    requires Fits(r)
    ensures var src := Header(r) + rest;
            && src[0..4] == EncodeInt(TypeOf(r.op)) && src[4..8] == EncodeInt(r.lsn) &&
               src[8..12] == Encode(TotalLength(r), 4)
            && src[12..16] == EncodeInt(r.tid) && src[16..20] == EncodeInt(r.prevLsn)
  {
    hide EncodeInt, Encode, OpFits, OpSize;
  }

  /** The header alone determines type, numbers and length. */
  lemma {:induction false} HeaderRoundTrip(r: LogRecord, rest: seq<Byte>)
    requires Fits(r)
    ensures var src := Header(r) + rest;
            && DecodeInt(src[0..4]) == TypeOf(r.op) && DecodeInt(src[4..8]) == r.lsn &&
               ReadLength(src) == TotalLength(r)
            && DecodeInt(src[12..16]) == r.tid && DecodeInt(src[16..20]) == r.prevLsn
  {
    hide EncodeInt, Encode, Decode, DecodeInt, OpFits, OpSize, Header;
    HeaderFields(r, rest);
    DecodeEncodeInt(TypeOf(r.op));
    DecodeEncodeInt(r.lsn);
    DecodeEncodeInt(r.tid);
    DecodeEncodeInt(r.prevLsn);
    assert Pow256(4) == TWO_32;
    DecodeEncode(TotalLength(r), 4);
  }

  lemma {:induction false} SlotRoundTrip(pre: seq<Byte>, s: Slot, rest: seq<Byte>)
    requires SlotFits(s)
    ensures ReadSlot(pre + SlotBytes(s) + rest, |pre|) == Some(s)
  {
    hide EncodeInt, Encode, Decode, DecodeInt, Field;
    var src, at := pre + SlotBytes(s) + rest, |pre|;
    var p, q, n := EncodeInt(s.pageNo), EncodeInt(s.slotNo), Encode(|s.table|, 8);
    ReadBack(src, pre, p, q + n + s.table + rest, at, 4);
    ReadBack(src, pre + p, q, n + s.table + rest, at + 4, 4);
    ReadBack(src, pre + p + q, n, s.table + rest, at + 8, 8);
    Pow8();
    DecodeEncode(|s.table|, 8);
    ReadBack(src, pre + p + q + n, s.table, rest, at + 16, |s.table|);
    DecodeEncodeInt(s.pageNo);
    DecodeEncodeInt(s.slotNo);
  }

  lemma {:induction false} Pow8()
    ensures TWO_31 <= Pow256(8)
  {
    assert Pow256(4) == TWO_32;
    assert Pow256(8) == 256 * 256 * 256 * 256 * Pow256(4);
  }

  predicate EqualImages(op: Op) {
    op.Update? ==> |op.before| == |op.after|
  }

  lemma {:induction false} Regroup<T>(h: seq<T>, n: seq<T>, v: seq<T>, w: seq<T>, b: seq<T>, r: seq<T>)
    ensures h + (n + v + w + b) + r == h + n + (v + w + b + r)
    ensures h + (n + v + w + b) + r == (h + n) + v + (w + b + r)
    ensures h + (n + v + w + b) + r == (h + n + v) + w + (b + r)
    ensures h + (n + v + w + b) + r == (h + n + v + w) + b + r
  {
  }

  lemma {:induction false} RegroupOne<T>(h: seq<T>, n: seq<T>, v: seq<T>, b: seq<T>, r: seq<T>)
    ensures h + (n + v + b) + r == h + n + (v + b + r)
    ensures h + (n + v + b) + r == (h + n) + v + (b + r)
    ensures h + (n + v + b) + r == (h + n + v) + b + r
  {
  }

  lemma {:induction false} WriteRoundTrip(h: seq<Byte>, op: Op, rest: seq<Byte>)
    requires |h| == LOG_HEADER_SIZE && OpFits(op) && (op.Insert? || op.Delete?)
    ensures ReadOp(h + Payload(op) + rest, TypeOf(op)) == Some(op)
  {
    hide EncodeInt, Encode, Decode, DecodeInt, Field, ReadSlot, SlotBytes;
    var src := h + Payload(op) + rest;
    var n, v, sb := EncodeInt(|op.value|), op.value, SlotBytes(op.slot);
    assert Payload(op) == n + v + sb;
    RegroupOne(h, n, v, sb, rest);
    ReadBack(src, h, n, v + sb + rest, 20, 4);
    DecodeEncodeInt(|v|);
    ReadBack(src, h + n, v, sb + rest, 24, |v|);
    SlotRoundTrip(h + n + v, op.slot, rest);
  }

  lemma {:induction false} UpdateRoundTrip(h: seq<Byte>, op: Op, rest: seq<Byte>)
    requires |h| == LOG_HEADER_SIZE && OpFits(op) && op.Update? && EqualImages(op)
    ensures ReadOp(h + Payload(op) + rest, TYPE_UPDATE) == Some(op)
  {
    hide EncodeInt, Encode, Decode, DecodeInt, Field, ReadSlot, SlotBytes;
    var src := h + Payload(op) + rest;
    var n, v, w, sb := EncodeInt(|op.before|), op.before, op.after, SlotBytes(op.slot);
    Regroup(h, n, v, w, sb, rest);
    ReadBack(src, h, n, v + w + sb + rest, 20, 4);
    DecodeEncodeInt(|v|);
    ReadBack(src, h + n, v, w + sb + rest, 24, |v|);
    ReadBack(src, h + n + v, w, sb + rest, 24 + |v|, |w|);
    SlotRoundTrip(h + n + v + w, op.slot, rest);
  }

  lemma {:induction false} SizesAgree(src: seq<Byte>)
    ensures match ReadOp(src, TYPE_UPDATE) case Some(op) => op.Update? && EqualImages(op) case None => true
  {
  }

  /**
   Whatever follows a record in the log, reading at its start gives it back, with one exception
   that is exact: an update whose two images differ in size never reads back.
   */
  lemma {:induction false} RecordRoundTrip(r: LogRecord, rest: seq<Byte>)
    requires Fits(r)
    ensures ReadRecord(Bytes(r) + rest) == Some(r) <==> EqualImages(r.op)
    ensures ReadLength(Bytes(r) + rest) == TotalLength(r)
  {
    hide EncodeInt, Encode, Decode, DecodeInt, ReadOp, Header, Payload;
    var src := Bytes(r) + rest;
    assert src == Header(r) + (Payload(r.op) + rest);
    assert src == Header(r) + Payload(r.op) + rest;
    HeaderRoundTrip(r, Payload(r.op) + rest);
    match r.op
    case Begin => ReadMarks(src);
    case Commit => ReadMarks(src);
    case Abort => ReadMarks(src);
    case Insert(_, _) => WriteRoundTrip(Header(r), r.op, rest);
    case Delete(_, _) => WriteRoundTrip(Header(r), r.op, rest);
    case Update(_, _, _) =>
      SizesAgree(src);
      if EqualImages(r.op) {
        UpdateRoundTrip(Header(r), r.op, rest);
      }
  }

  lemma {:induction false} ReadMarks(src: seq<Byte>)
    ensures ReadOp(src, TYPE_BEGIN) == Some(Begin) && ReadOp(src, TYPE_COMMIT) == Some(Commit) &&
            ReadOp(src, TYPE_ABORT) == Some(Abort)
  {
  }
}

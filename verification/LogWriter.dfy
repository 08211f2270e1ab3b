/**
 Writing the log: `LogManager` and `LogBuffer` of `src/recovery/log_manager.{h,cpp}`.
 */
module LogWriter {
  import opened LogCodec
  import opened LogFile
  import opened LogHistory

  /** Copies bytes into a buffer. */
  method Memcpy(dst: array<Byte>, at: nat, src: seq<Byte>) returns (end: nat)
    requires at + |src| <= dst.Length
    modifies dst
    ensures end == at + |src| && dst[..end] == old(dst[..at]) + src
  {
    ghost var was := dst[..at];
    for i := 0 to |src|
      invariant dst[..at] == was
      invariant dst[at..at + i] == src[..i]
    {
      dst[at + i] := src[i];
      assert dst[at..at + i + 1] == dst[at..at + i] + [src[i]];
    }
    end := at + |src|;
    assert dst[..end] == dst[..at] + dst[at..end];
  }

  lemma {:induction false} HeaderJoins(p: seq<Byte>, a: seq<Byte>, b: seq<Byte>, c: seq<Byte>, d: seq<Byte>,
                                       e: seq<Byte>)
    ensures p + a + b + c + d + e == p + (a + b + c + d + e)
  {
  }

  lemma {:induction false} PayloadJoins(p: seq<Byte>, n: seq<Byte>, v: seq<Byte>, w: seq<Byte>, a: seq<Byte>,
                                        b: seq<Byte>, c: seq<Byte>, d: seq<Byte>)
    ensures p + n + v + w + a + b + c + d == p + (n + v + w + (a + b + c + d))
  {
  }

  lemma {:induction false} NoImage(n: seq<Byte>, v: seq<Byte>, b: seq<Byte>)
    ensures n + v + [] + b == n + v + b
  {
  }

  /** The fields common to all records. */
  method SerializeHeader(dst: array<Byte>, at: nat, r: LogRecord) returns (end: nat)
    requires Fits(r) && at + LOG_HEADER_SIZE <= dst.Length
    modifies dst
    ensures end == at + LOG_HEADER_SIZE && dst[..end] == old(dst[..at]) + Header(r)
  {
    hide EncodeInt, Encode, OpFits, OpSize;
    ghost var p := dst[..at];
    end := Memcpy(dst, at, EncodeInt(TypeOf(r.op)));
    end := Memcpy(dst, end, EncodeInt(r.lsn));
    end := Memcpy(dst, end, Encode(TotalLength(r), 4));
    end := Memcpy(dst, end, EncodeInt(r.tid));
    end := Memcpy(dst, end, EncodeInt(r.prevLsn));
    HeaderJoins(p, EncodeInt(TypeOf(r.op)), EncodeInt(r.lsn), Encode(TotalLength(r), 4), EncodeInt(r.tid),
                EncodeInt(r.prevLsn));
  }

  /** Size, one or two images, rid, name size and name. */
  method SerializeWrite(dst: array<Byte>, at: nat, slot: Slot, image: seq<Byte>, second: seq<Byte>) returns (end: nat)
    requires SlotFits(slot) && |image| < TWO_31 && at + 4 + |image| + |second| + 16 + |slot.table| <= dst.Length
    modifies dst
    ensures end == at + 4 + |image| + |second| + 16 + |slot.table|
    ensures dst[..end] == old(dst[..at]) + (EncodeInt(|image|) + image + second + SlotBytes(slot))
  {
    hide EncodeInt, Encode;
    ghost var p := dst[..at];
    end := Memcpy(dst, at, EncodeInt(|image|));
    end := Memcpy(dst, end, image);
    end := Memcpy(dst, end, second);
    end := Memcpy(dst, end, EncodeInt(slot.pageNo));
    end := Memcpy(dst, end, EncodeInt(slot.slotNo));
    end := Memcpy(dst, end, Encode(|slot.table|, 8));
    end := Memcpy(dst, end, slot.table);
    PayloadJoins(p, EncodeInt(|image|), image, second, EncodeInt(slot.pageNo), EncodeInt(slot.slotNo),
                 Encode(|slot.table|, 8), slot.table);
  }

  method Serialize(dst: array<Byte>, at: nat, r: LogRecord) returns (end: nat)
    requires Fits(r) && at + TotalLength(r) <= dst.Length
    modifies dst
    ensures end == at + TotalLength(r) && dst[..end] == old(dst[..at]) + Bytes(r)
  {
    hide Header, EncodeInt, SlotBytes;
    ghost var p := dst[..at];
    end := SerializeHeader(dst, at, r);
    match r.op {
      case Begin =>
      case Commit =>
      case Abort =>
      case Insert(slot, value) =>
        end := SerializeWrite(dst, end, slot, value, []);
        NoImage(EncodeInt(|value|), value, SlotBytes(slot));
      case Delete(slot, value) =>
        end := SerializeWrite(dst, end, slot, value, []);
        NoImage(EncodeInt(|value|), value, SlotBytes(slot));
      case Update(slot, before, after) =>
        end := SerializeWrite(dst, end, slot, before, after);
    }
    assert p + Header(r) + Payload(r.op) == p + (Header(r) + Payload(r.op));
  }

  /** File and buffered bytes together hold every record added, the file a prefix of them. */
  ghost predicate Stored(recs: seq<LogRecord>, flushed: nat, disk: seq<Byte>, mem: seq<Byte>, globalLsn: int,
                         persistLsn: int) {
    && AllStorable(recs) && flushed <= |recs|
    && disk == FileBytes(recs[..flushed]) && disk + mem == FileBytes(recs)
    && Increasing(recs) && 0 <= globalLsn && (forall i :: 0 <= i < |recs| ==> 0 <= recs[i].lsn < globalLsn)
    && (if flushed == 0 then persistLsn == 0 else persistLsn < globalLsn && Persisted(recs, flushed, persistLsn))
  }

  /** The records up to `persistLsn` are those in the file. */
  ghost predicate Persisted(recs: seq<LogRecord>, flushed: nat, persistLsn: int) {
    forall i :: 0 <= i < |recs| ==> (recs[i].lsn <= persistLsn <==> i < flushed)
  }

  /**
   What `persist_lsn_` says is true except from the first record, if that has LSN 0, to the first flush: then it says
   that the record is in the file.
   */
  lemma {:induction false} PersistedExact(recs: seq<LogRecord>, flushed: nat, disk: seq<Byte>, mem: seq<Byte>,
                                          globalLsn: int, persistLsn: int)
    requires Stored(recs, flushed, disk, mem, globalLsn, persistLsn)
    ensures Persisted(recs, flushed, persistLsn) <==> flushed > 0 || recs == [] || recs[0].lsn > 0
  {
    hide FileBytes, Storable;
  }

  lemma {:induction false} StoredAppend(recs: seq<LogRecord>, flushed: nat, disk: seq<Byte>, mem: seq<Byte>,
                                        globalLsn: int, persistLsn: int, r: LogRecord)
    requires Stored(recs, flushed, disk, mem, globalLsn, persistLsn) && Storable(r) && r.lsn == globalLsn
    ensures Stored(recs + [r], flushed, disk, mem + Bytes(r), globalLsn + 1, persistLsn)
  {
    hide FileBytes, Storable, Bytes;
    FileAppend(recs, r);
    StorableFits(r);
    assert disk + (mem + Bytes(r)) == disk + mem + Bytes(r);
    assert (recs + [r])[..flushed] == recs[..flushed];
  }

  lemma {:induction false} StoredFlush(recs: seq<LogRecord>, flushed: nat, disk: seq<Byte>, mem: seq<Byte>,
                                       globalLsn: int, persistLsn: int)
    requires Stored(recs, flushed, disk, mem, globalLsn, persistLsn) && mem != []
    ensures Stored(recs, |recs|, disk + mem, [], globalLsn, globalLsn - 1)
  {
    hide FileBytes, Storable;
    if recs == [] {
      NoBytes();
    }
    assert recs[..|recs|] == recs && disk + mem + [] == disk + mem;
  }

  lemma {:induction false} NoBytes()
    ensures FileBytes([]) == []
  {
  }

  class LogManager {
    const buffer: array<Byte>
    var offset: nat
    var disk: seq<Byte>          // the log file
    var globalLsn: int
    var persistLsn: int
    ghost var recs: seq<LogRecord>
    ghost var flushed: nat

    ghost predicate Valid()
      reads this, buffer
    {
      && buffer.Length == LOG_BUFFER_SIZE + 1 && offset <= LOG_BUFFER_SIZE
      && Stored(recs, flushed, disk, buffer[..offset], globalLsn, persistLsn)
    }

    constructor ()
      ensures Valid() && recs == [] && globalLsn == persistLsn == 0 && fresh(buffer)
    {
      buffer := new Byte[LOG_BUFFER_SIZE + 1](_ => 0);
      offset, disk, globalLsn, persistLsn := 0, [], 0, 0;
      recs, flushed := [], 0;
    }

    method FlushLogToDisk()
      requires Valid()
      modifies this
      ensures Valid() && recs == old(recs) && globalLsn == old(globalLsn)
      ensures offset == 0 && disk == FileBytes(recs) &&
              persistLsn == (if old(offset) == 0 then old(persistLsn) else globalLsn - 1) &&
              flushed == if old(offset) == 0 then old(flushed) else |recs|
    {
      hide FileBytes, Storable;
      if offset == 0 {
        assert disk + buffer[..offset] == disk;
        return;
      }
      StoredFlush(recs, flushed, disk, buffer[..offset], globalLsn, persistLsn);
      disk := disk + buffer[..offset];
      offset := 0;
      persistLsn := globalLsn - 1;
      flushed := |recs|;
      assert buffer[..offset] == [];
    }

    /** Appends a record, flushing first if the buffer has no room for it. */
    method AddLogToBuffer(tid: int, prevLsn: int, op: Op) returns (lsn: int)
      requires Valid() && Storable(LogRecord(globalLsn, tid, prevLsn, op))
      modifies this, buffer
      ensures Valid() && lsn == old(globalLsn) && globalLsn == lsn + 1
      ensures recs == old(recs) + [LogRecord(lsn, tid, prevLsn, op)]
      ensures var size := TotalLength(LogRecord(lsn, tid, prevLsn, op));
              if old(offset) + size <= LOG_BUFFER_SIZE
              then offset == old(offset) + size && flushed == old(flushed) && persistLsn == old(persistLsn)
              else offset == size && flushed == |old(recs)| && persistLsn == lsn - 1
    {
      hide Stored, Storable, Fits, Bytes, FileBytes;
      var r := LogRecord(globalLsn, tid, prevLsn, op);
      StorableFits(r);
      if offset + TotalLength(r) > LOG_BUFFER_SIZE {
        FlushLogToDisk();
      }
      StoredAppend(recs, flushed, disk, buffer[..offset], globalLsn, persistLsn, r);
      lsn := globalLsn;
      globalLsn := globalLsn + 1;
      offset := Serialize(buffer, offset, r);
      recs := recs + [r];
    }
  }

  lemma {:induction false} StorableFits(r: LogRecord)
    requires Storable(r)
    ensures Fits(r) && TotalLength(r) <= LOG_BUFFER_SIZE
  {
  }
}

/**
 The log file: the serialized records one after another, read back in chunks of the buffer size.
 */
module LogFile {
  import opened Options
  import opened LogCodec

  /** A record the log manager can write and recovery can read. */
  predicate Storable(r: LogRecord) {
    Fits(r) && EqualImages(r.op) && TotalLength(r) <= LOG_BUFFER_SIZE
  }

  ghost predicate AllStorable(recs: seq<LogRecord>) {
    forall i :: 0 <= i < |recs| ==> Storable(recs[i])
  }

  ghost function FileBytes(recs: seq<LogRecord>): seq<Byte>
    requires AllStorable(recs)
  {
    if recs == [] then [] else FileBytes(recs[..|recs| - 1]) + Bytes(recs[|recs| - 1])
  }

  /** Byte offset of record `n`. */
  ghost function OffsetOf(recs: seq<LogRecord>, n: nat): nat
    requires AllStorable(recs) && n <= |recs|
  {
    |FileBytes(recs[..n])|
  }

  lemma {:induction false} FileAppend(recs: seq<LogRecord>, r: LogRecord)
    requires AllStorable(recs) && Storable(r)
    ensures AllStorable(recs + [r]) && FileBytes(recs + [r]) == FileBytes(recs) + Bytes(r)
  {
    assert (recs + [r])[..|recs|] == recs;
  }

  /** The file is the bytes before record `n`, record `n`, and some rest. */
  lemma {:induction false} FileAt(recs: seq<LogRecord>, n: nat) returns (rest: seq<Byte>)
    requires AllStorable(recs) && n < |recs|
    ensures FileBytes(recs) == FileBytes(recs[..n]) + Bytes(recs[n]) + rest
    ensures OffsetOf(recs, n + 1) == OffsetOf(recs, n) + TotalLength(recs[n])
    decreases |recs|
  {
    hide Bytes;
    var m := |recs| - 1;
    assert recs[..n + 1][..n] == recs[..n];
    if n == m {
      rest := [];
      assert recs[..n + 1] == recs;
    } else {
      var front := recs[..m];
      assert front[..n] == recs[..n] && front[..n + 1] == recs[..n + 1];
      var inner := FileAt(front, n);
      rest := inner + Bytes(recs[m]);
      Join(FileBytes(recs[..n]), Bytes(recs[n]), inner, Bytes(recs[m]));
    }
  }

  lemma {:induction false} Join(a: seq<Byte>, b: seq<Byte>, c: seq<Byte>, d: seq<Byte>)
    ensures (a + b + c) + d == a + b + (c + d)
  {
  }

  lemma {:induction false} OffsetBounds(recs: seq<LogRecord>, n: nat)
    requires AllStorable(recs) && n <= |recs|
    ensures OffsetOf(recs, n) <= |FileBytes(recs)|
    ensures n == |recs| <==> OffsetOf(recs, n) == |FileBytes(recs)|
  {
    hide FileBytes, Bytes;
    if n < |recs| {
      var rest := FileAt(recs, n);
    } else {
      assert recs[..n] == recs;
    }
  }

  /** What `read_log` returns: up to `LOG_BUFFER_SIZE` bytes from `offset` on. */
  function ReadLog(file: seq<Byte>, offset: nat): (chunk: seq<Byte>)
    requires offset <= |file|
    ensures |chunk| == if |file| - offset <= LOG_BUFFER_SIZE then |file| - offset else LOG_BUFFER_SIZE
  {
    file[offset..if |file| - offset <= LOG_BUFFER_SIZE then |file| else offset + LOG_BUFFER_SIZE]
  }

  lemma {:induction false} TailOf(a: seq<Byte>, b: seq<Byte>, c: seq<Byte>, hi: nat)
    requires |a| + |b| <= hi <= |a| + |b| + |c|
    ensures (a + b + c)[|a|..hi] == b + c[..hi - |a| - |b|]
  {
  }

  /** A stretch of the file that starts at a record and contains it reads as that record. */
  lemma {:induction false} ReadAt(recs: seq<LogRecord>, n: nat, hi: nat)
    requires AllStorable(recs) && n < |recs| && OffsetOf(recs, n) + TotalLength(recs[n]) <= hi <= |FileBytes(recs)|
    ensures LOG_HEADER_SIZE <= hi - OffsetOf(recs, n)
    ensures ReadRecord(FileBytes(recs)[OffsetOf(recs, n)..hi]) == Some(recs[n])
    ensures ReadLength(FileBytes(recs)[OffsetOf(recs, n)..hi]) == TotalLength(recs[n])
  {
    hide FileBytes, Bytes, ReadRecord, ReadLength;
    var rest := FileAt(recs, n);
    var a, b := FileBytes(recs[..n]), Bytes(recs[n]);
    TailOf(a, b, rest, hi);
    RecordRoundTrip(recs[n], rest[..hi - |a| - |b|]);
  }

  /** The length field is readable as soon as the header is. */
  lemma {:induction false} LengthAt(recs: seq<LogRecord>, n: nat, hi: nat)
    requires AllStorable(recs) && n < |recs| && OffsetOf(recs, n) + LOG_HEADER_SIZE <= hi <= |FileBytes(recs)|
    ensures ReadLength(FileBytes(recs)[OffsetOf(recs, n)..hi]) == TotalLength(recs[n])
  {
    hide FileBytes, Bytes, ReadRecord, TotalLength;
    var rest := FileAt(recs, n);
    var at := OffsetOf(recs, n);
    var end := at + TotalLength(recs[n]);
    OffsetBounds(recs, n + 1);
    ReadAt(recs, n, end);
    var file := FileBytes(recs);
    LengthPrefix(file, at, end, hi);
  }

  lemma {:induction false} SliceOfSlice<T>(s: seq<T>, at: nat, x: nat, i: nat, j: nat)
    requires i <= j && at + j <= x <= |s|
    ensures s[at..x][i..j] == s[at + i..at + j]
  {
    var a, b := s[at..x][i..j], s[at + i..at + j];
    assert |a| == |b|;
    forall k | 0 <= k < |a| ensures a[k] == b[k] {
      assert a[k] == s[at..x][i + k] == s[at + (i + k)];
      assert b[k] == s[at + i + k];
    }
  }

  lemma {:induction false} LengthPrefix(file: seq<Byte>, at: nat, x: nat, y: nat)
    requires at + LOG_HEADER_SIZE <= x <= |file| && at + LOG_HEADER_SIZE <= y <= |file|
    ensures ReadLength(file[at..x]) == ReadLength(file[at..y])
  {
    SliceOfSlice(file, at, x, 8, 12);
    SliceOfSlice(file, at, y, 8, 12);
  }
}

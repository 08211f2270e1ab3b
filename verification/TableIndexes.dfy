/**
 The unique indexes of a table and the rows they point to, as the write executors and `abort` keep them.
 */
module TableIndexes {
  import opened Options
  import opened LogCodec
  import opened LogHistory

  datatype Column = Column(offset: nat, len: nat)
  datatype IndexMeta = IndexMeta(table: seq<Byte>, cols: seq<Column>)

  type Schema = map<int, IndexMeta>
  type Index = map<seq<Byte>, Slot>
  type Indexes = map<int, Index>

  /** The bytes of one column; a column lies inside the record. */
  function Cell(rec: seq<Byte>, c: Column): seq<Byte> {
    if c.offset + c.len <= |rec| then rec[c.offset..c.offset + c.len] else []
  }

  function KeyOf(cols: seq<Column>, rec: seq<Byte>): seq<Byte> {
    if cols == [] then [] else KeyOf(cols[..|cols| - 1], rec) + Cell(rec, cols[|cols| - 1])
  }

  /** Where the columns of a key end, and so where the next one begins. */
  function KeySize(cols: seq<Column>): nat {
    if cols == [] then 0 else KeySize(cols[..|cols| - 1]) + cols[|cols| - 1].len
  }

  ghost predicate ColumnsFit(cols: seq<Column>, rec: seq<Byte>) {
    forall i :: 0 <= i < |cols| ==> cols[i].offset + cols[i].len <= |rec|
  }

  ghost predicate ColumnsAgree(cols: seq<Column>, a: seq<Byte>, b: seq<Byte>) {
    && ColumnsFit(cols, a) && ColumnsFit(cols, b)
    && forall i :: 0 <= i < |cols| ==>
         a[cols[i].offset..cols[i].offset + cols[i].len] == b[cols[i].offset..cols[i].offset + cols[i].len]
  }

  /** A key is the bytes of its columns, one after the other. */
  lemma {:induction false} KeyColumn(cols: seq<Column>, rec: seq<Byte>, i: nat)
    requires ColumnsFit(cols, rec) && i < |cols|
    ensures KeySize(cols[..i]) + cols[i].len <= KeySize(cols) == |KeyOf(cols, rec)|
    ensures KeyOf(cols, rec)[KeySize(cols[..i])..KeySize(cols[..i]) + cols[i].len] ==
            rec[cols[i].offset..cols[i].offset + cols[i].len]
    decreases |cols|
  {
    hide KeyOf, KeySize;
    var n := |cols| - 1;
    var init := cols[..n];
    KeyLength(init, rec);
    LastColumn(cols, rec);
    var last := rec[cols[n].offset..cols[n].offset + cols[n].len];
    if i < n {
      KeyColumn(init, rec, i);
      assert init[..i] == cols[..i];
      Slices(KeyOf(init, rec), last, KeySize(cols[..i]), cols[i].len);
    } else {
      Slices(KeyOf(init, rec), last, 0, 0);
    }
  }

  lemma {:induction false} LastColumn(cols: seq<Column>, rec: seq<Byte>)
    requires ColumnsFit(cols, rec) && cols != []
    ensures var c, init := cols[|cols| - 1], cols[..|cols| - 1];
            && KeySize(cols) == KeySize(init) + c.len
            && KeyOf(cols, rec) == KeyOf(init, rec) + rec[c.offset..c.offset + c.len]
  {
  }

  lemma {:induction false} Slices(x: seq<Byte>, y: seq<Byte>, at: nat, len: nat)
    ensures at + len <= |x| ==> (x + y)[at..at + len] == x[at..at + len]
    ensures (x + y)[|x|..|x| + |y|] == y
  {
  }

  lemma {:induction false} KeyLength(cols: seq<Column>, rec: seq<Byte>)
    requires ColumnsFit(cols, rec)
    ensures |KeyOf(cols, rec)| == KeySize(cols)
  {
    if cols != [] {
      KeyLength(cols[..|cols| - 1], rec);
    }
  }

  /** Two records have the same key exactly if they agree on every column of the index. */
  lemma {:induction false} SameKeyIff(cols: seq<Column>, a: seq<Byte>, b: seq<Byte>)
    requires ColumnsFit(cols, a) && ColumnsFit(cols, b)
    ensures KeyOf(cols, a) == KeyOf(cols, b) <==> ColumnsAgree(cols, a, b)
  {
    if KeyOf(cols, a) == KeyOf(cols, b) {
      forall i | 0 <= i < |cols|
        ensures a[cols[i].offset..cols[i].offset + cols[i].len] == b[cols[i].offset..cols[i].offset + cols[i].len]
      {
        KeyColumn(cols, a, i);
        KeyColumn(cols, b, i);
      }
    }
    if ColumnsAgree(cols, a, b) {
      AgreeKey(cols, a, b);
    }
  }

  lemma {:induction false} AgreeKey(cols: seq<Column>, a: seq<Byte>, b: seq<Byte>)
    requires ColumnsAgree(cols, a, b)
    ensures KeyOf(cols, a) == KeyOf(cols, b)
  {
    if cols != [] {
      AgreeKey(cols[..|cols| - 1], a, b);
      LastColumn(cols, a);
      LastColumn(cols, b);
    }
  }

  /** The loop that copies the index columns of a record into a key. */
  method MakeKey(cols: seq<Column>, rec: seq<Byte>) returns (key: seq<Byte>)
    ensures key == KeyOf(cols, rec)
    ensures ColumnsFit(cols, rec) ==> |key| == KeySize(cols)
    ensures ColumnsFit(cols, rec) ==>
              forall i :: 0 <= i < |cols| ==>
                KeySize(cols[..i]) + cols[i].len <= |key| &&
                key[KeySize(cols[..i])..KeySize(cols[..i]) + cols[i].len] ==
                rec[cols[i].offset..cols[i].offset + cols[i].len]
  {
    key := [];
    for i := 0 to |cols|
      invariant key == KeyOf(cols[..i], rec)
    {
      assert cols[..i + 1][..i] == cols[..i];
      key := key + Cell(rec, cols[i]);
    }
    assert cols[..|cols|] == cols;
    if ColumnsFit(cols, rec) {
      KeyLength(cols, rec);
      forall i | 0 <= i < |cols|
        ensures KeySize(cols[..i]) + cols[i].len <= |key| &&
                key[KeySize(cols[..i])..KeySize(cols[..i]) + cols[i].len] ==
                rec[cols[i].offset..cols[i].offset + cols[i].len]
      {
        KeyColumn(cols, rec, i);
      }
    }
  }

  // ----- one index -----

  /** The index maps the key of every row of its table to that row, and holds nothing else. */
  ghost predicate IndexIs(meta: IndexMeta, db: Records, m: Index) {
    && (forall s :: s in db && s.table == meta.table ==>
          KeyOf(meta.cols, db[s]) in m && m[KeyOf(meta.cols, db[s])] == s)
    && (forall k :: k in m ==> m[k] in db && m[k].table == meta.table && KeyOf(meta.cols, db[m[k]]) == k)
  }

  ghost predicate UniqueIn(meta: IndexMeta, db: Records) {
    forall a, b ::
      a in db && b in db && a.table == meta.table && b.table == meta.table &&
      KeyOf(meta.cols, db[a]) == KeyOf(meta.cols, db[b]) ==>
        a == b
  }

  /** The rows determine the index. */
  lemma {:induction false} IndexDetermined(meta: IndexMeta, db: Records, m: Index, n: Index)
    requires IndexIs(meta, db, m) && IndexIs(meta, db, n)
    ensures m == n
  {
    hide KeyOf;
    forall k | k in m ensures k in n && n[k] == m[k] {
      assert KeyOf(meta.cols, db[m[k]]) == k;
    }
    forall k | k in n ensures k in m {
      assert KeyOf(meta.cols, db[n[k]]) == k;
    }
  }

  function InsertEntry(m: Index, key: seq<Byte>, s: Slot): Index {
    if key in m then m else m[key := s]
  }

  function DeleteEntry(m: Index, key: seq<Byte>): Index {
    m - {key}
  }

  lemma {:induction false} IndexInsert(meta: IndexMeta, db: Records, m: Index, s: Slot, rec: seq<Byte>)
    requires IndexIs(meta, db, m) && s !in db && s.table == meta.table && UniqueIn(meta, db[s := rec])
    ensures IndexIs(meta, db[s := rec], InsertEntry(m, KeyOf(meta.cols, rec), s))
  {
    hide KeyOf, UniqueIn;
    var db', k := db[s := rec], KeyOf(meta.cols, rec);
    OneUnique(meta, db, m, s, rec);
    assert k !in m;
    forall x | x in db' && x.table == meta.table
      ensures KeyOf(meta.cols, db'[x]) in m[k := s] && m[k := s][KeyOf(meta.cols, db'[x])] == x
    {
      assert x != s ==> KeyOf(meta.cols, db[x]) in m;
    }
  }

  lemma {:induction false} IndexDelete(meta: IndexMeta, db: Records, m: Index, s: Slot)
    requires IndexIs(meta, db, m) && s in db && s.table == meta.table
    ensures IndexIs(meta, db - {s}, DeleteEntry(m, KeyOf(meta.cols, db[s])))
  {
    hide KeyOf;
    var k := KeyOf(meta.cols, db[s]);
    forall x | x in db - {s} && x.table == meta.table
      ensures KeyOf(meta.cols, db[x]) in m - {k} && m[KeyOf(meta.cols, db[x])] == x
    {
      assert m[KeyOf(meta.cols, db[x])] == x && m[k] == s;
    }
  }

  ghost predicate AgreeOn(a: Records, b: Records, table: seq<Byte>) {
    forall s: Slot :: s.table == table ==> Look(a, s) == Look(b, s)
  }

  lemma {:induction false} IndexElsewhere(meta: IndexMeta, a: Records, b: Records, m: Index)
    requires IndexIs(meta, a, m) && AgreeOn(a, b, meta.table)
    ensures IndexIs(meta, b, m)
  {
    hide KeyOf;
    forall s | s in b && s.table == meta.table ensures KeyOf(meta.cols, b[s]) in m && m[KeyOf(meta.cols, b[s])] == s {
      assert Look(a, s) == Look(b, s);
      assert s in a;
    }
    forall k | k in m ensures m[k] in b && m[k].table == meta.table && KeyOf(meta.cols, b[m[k]]) == k {
      assert Look(a, m[k]) == Look(b, m[k]);
    }
  }

  lemma {:induction false} UniqueElsewhere(meta: IndexMeta, a: Records, b: Records)
    requires UniqueIn(meta, a) && AgreeOn(a, b, meta.table)
    ensures UniqueIn(meta, b)
  {
    hide KeyOf;
    forall x, y | x in b && y in b && x.table == meta.table && y.table == meta.table &&
                  KeyOf(meta.cols, b[x]) == KeyOf(meta.cols, b[y])
      ensures x == y
    {
      assert Look(a, x) == Look(b, x) && Look(a, y) == Look(b, y);
    }
  }

  // ----- all indexes -----

  ghost predicate Consistent(schema: Schema, db: Records, ixs: Indexes) {
    ixs.Keys == schema.Keys && forall id :: id in schema ==> IndexIs(schema[id], db, ixs[id])
  }

  ghost predicate Unique(schema: Schema, db: Records, table: seq<Byte>) {
    forall id :: id in schema && schema[id].table == table ==> UniqueIn(schema[id], db)
  }

  /** The rows of a table are long enough for the columns of its indexes. */
  ghost predicate RowsFit(schema: Schema, db: Records, table: seq<Byte>) {
    forall id, r ::
      id in schema && schema[id].table == table && r in db && r.table == table ==> ColumnsFit(schema[id].cols, db[r])
  }

  /** No row but that of slot `s` agrees with `rec` on all columns of an index of its table. */
  ghost predicate NoTwin(schema: Schema, db: Records, s: Slot, rec: seq<Byte>) {
    forall id, r ::
      id in schema && schema[id].table == s.table && r in db && r.table == s.table && r != s ==>
        !ColumnsAgree(schema[id].cols, db[r], rec)
  }

  lemma {:induction false} TwinFits(schema: Schema, db: Records, s: Slot, rec: seq<Byte>, id: int, r: Slot)
    requires RowsFit(schema, db[s := rec], s.table) && id in schema && schema[id].table == s.table
    requires r in db && r.table == s.table && r != s
    ensures ColumnsFit(schema[id].cols, db[r]) && ColumnsFit(schema[id].cols, rec)
  {
    var db' := db[s := rec];
    assert r in db' && s in db' && db'[r] == db[r] && db'[s] == rec;
  }

  /** What uniqueness asks of a new row, column by column. */
  lemma {:induction false} UniqueMeans(schema: Schema, db: Records, s: Slot, rec: seq<Byte>)
    requires Unique(schema, db, s.table) && RowsFit(schema, db[s := rec], s.table)
    ensures Unique(schema, db[s := rec], s.table) <==> NoTwin(schema, db, s, rec)
  {
    hide KeyOf, ColumnsAgree, RowsFit, ColumnsFit;
    var db' := db[s := rec];
    forall id, r | id in schema && schema[id].table == s.table && r in db && r.table == s.table && r != s
      ensures ColumnsFit(schema[id].cols, db[r]) && ColumnsFit(schema[id].cols, rec)
      ensures KeyOf(schema[id].cols, db[r]) == KeyOf(schema[id].cols, rec) <==>
              ColumnsAgree(schema[id].cols, db[r], rec)
    {
      TwinFits(schema, db, s, rec, id, r);
      SameKeyIff(schema[id].cols, db[r], rec);
    }
    if NoTwin(schema, db, s, rec) {
      forall id | id in schema && schema[id].table == s.table ensures UniqueIn(schema[id], db') {
        assert UniqueIn(schema[id], db);
      }
    } else {
      var id, r :| id in schema && schema[id].table == s.table && r in db && r.table == s.table && r != s &&
                   KeyOf(schema[id].cols, db[r]) == KeyOf(schema[id].cols, rec);
      assert r in db' && s in db' && db'[r] == db[r] && db'[s] == rec;
      assert !UniqueIn(schema[id], db');
    }
  }

  /** A write as the write set keeps it: an update says whether it maintained the indexes. */
  datatype WriteRecord = WriteRecord(op: Op, keySet: bool)

  ghost predicate SameKeys(schema: Schema, op: Op)
    requires op.Update?
  {
    forall id :: id in schema && schema[id].table == op.slot.table ==>
      KeyOf(schema[id].cols, op.before) == KeyOf(schema[id].cols, op.after)
  }

  /** Indexes may be left alone only by an update that changes no key. */
  ghost predicate KeysHandled(schema: Schema, w: WriteRecord) {
    IsWrite(w.op) && (w.op.Update? && !w.keySet ==> SameKeys(schema, w.op))
  }

  function InsertKeys(schema: Schema, ixs: Indexes, s: Slot, rec: seq<Byte>): Indexes {
    map id | id in ixs :: if id in schema &&
    schema[id].table == s.table then InsertEntry(ixs[id], KeyOf(schema[id].cols, rec), s) else ixs[id]
  }

  function DeleteKeys(schema: Schema, ixs: Indexes, s: Slot, rec: seq<Byte>): Indexes {
    map id | id in ixs :: if id in schema &&
    schema[id].table == s.table then DeleteEntry(ixs[id], KeyOf(schema[id].cols, rec)) else ixs[id]
  }

  /** What a write does to the indexes. */
  function DoKeys(schema: Schema, ixs: Indexes, w: WriteRecord): Indexes {
    match w.op
    case Insert(s, v) => InsertKeys(schema, ixs, s, v)
    case Delete(s, v) => DeleteKeys(schema, ixs, s, v)
    case Update(s, v, x) => if w.keySet then InsertKeys(schema, DeleteKeys(schema, ixs, s, v), s, x) else ixs
    case _ => ixs
  }

  lemma {:induction false} InsertConsistent(schema: Schema, db: Records, ixs: Indexes, s: Slot, rec: seq<Byte>)
    requires Consistent(schema, db, ixs) && s !in db && Unique(schema, db[s := rec], s.table)
    ensures Consistent(schema, db[s := rec], InsertKeys(schema, ixs, s, rec))
  {
    hide KeyOf, IndexIs, UniqueIn;
    var ixs' := InsertKeys(schema, ixs, s, rec);
    forall id | id in schema ensures IndexIs(schema[id], db[s := rec], ixs'[id]) {
      if schema[id].table == s.table {
        IndexInsert(schema[id], db, ixs[id], s, rec);
      } else {
        IndexElsewhere(schema[id], db, db[s := rec], ixs[id]);
      }
    }
  }

  lemma {:induction false} DeleteConsistent(schema: Schema, db: Records, ixs: Indexes, s: Slot)
    requires Consistent(schema, db, ixs) && s in db
    ensures Consistent(schema, db - {s}, DeleteKeys(schema, ixs, s, db[s]))
  {
    hide KeyOf, IndexIs;
    var ixs' := DeleteKeys(schema, ixs, s, db[s]);
    forall id | id in schema ensures IndexIs(schema[id], db - {s}, ixs'[id]) {
      if schema[id].table == s.table {
        IndexDelete(schema[id], db, ixs[id], s);
      } else {
        IndexElsewhere(schema[id], db, db - {s}, ixs[id]);
      }
    }
  }

  lemma {:induction false} KeepConsistent(schema: Schema, db: Records, ixs: Indexes, op: Op)
    requires Consistent(schema, db, ixs) && op.Update? && SameKeys(schema, op) && Look(db, op.slot) == Some(op.before)
    ensures Consistent(schema, db[op.slot := op.after], ixs)
  {
    hide KeyOf;
    var db' := db[op.slot := op.after];
    forall id | id in schema ensures IndexIs(schema[id], db', ixs[id]) {
      assert IndexIs(schema[id], db, ixs[id]);
      forall s | s in db' && s.table == schema[id].table
        ensures s in db && KeyOf(schema[id].cols, db'[s]) == KeyOf(schema[id].cols, db[s])
      {
      }
    }
  }

  /** A write that leaves keys unique keeps rows and indexes together. */
  lemma {:induction false} DoConsistent(schema: Schema, db: Records, ixs: Indexes, w: WriteRecord)
    requires Consistent(schema, db, ixs) && KeysHandled(schema, w) && Look(db, w.op.slot) == Before(w.op)
    requires Unique(schema, Apply(db, w.op), w.op.slot.table)
    ensures Consistent(schema, Apply(db, w.op), DoKeys(schema, ixs, w))
  {
    hide KeyOf, Consistent, Unique, InsertKeys, DeleteKeys;
    match w.op
    case Insert(s, v) => InsertConsistent(schema, db, ixs, s, v);
    case Delete(s, v) => DeleteConsistent(schema, db, ixs, s);
    case Update(s, v, x) =>
      if w.keySet {
        DeleteConsistent(schema, db, ixs, s);
        assert (db - {s})[s := x] == db[s := x];
        InsertConsistent(schema, db - {s}, DeleteKeys(schema, ixs, s, v), s, x);
      } else {
        KeepConsistent(schema, db, ixs, w.op);
      }
  }

  lemma {:induction false} ConsistentUnique(schema: Schema, db: Records, ixs: Indexes, table: seq<Byte>)
    requires Consistent(schema, db, ixs)
    ensures Unique(schema, db, table)
  {
    hide KeyOf;
    forall id | id in schema && schema[id].table == table ensures UniqueIn(schema[id], db) {
      assert IndexIs(schema[id], db, ixs[id]);
    }
  }

  lemma {:induction false} IndexesDetermined(schema: Schema, db: Records, a: Indexes, b: Indexes)
    requires Consistent(schema, db, a) && Consistent(schema, db, b)
    ensures a == b
  {
    hide KeyOf, IndexIs;
    forall id | id in schema ensures a[id] == b[id] {
      IndexDetermined(schema[id], db, a[id], b[id]);
    }
  }

  /** The uniqueness check of insert and update. */
  ghost predicate KeysFree(schema: Schema, ixs: Indexes, s: Slot, rec: seq<Byte>) {
    forall id :: id in schema && id in ixs && schema[id].table == s.table && KeyOf(schema[id].cols, rec) in ixs[id] ==>
      ixs[id][KeyOf(schema[id].cols, rec)] == s
  }

  /** The check succeeds exactly if the write leaves keys unique. */
  lemma {:induction false} CheckedUnique(schema: Schema, db: Records, ixs: Indexes, s: Slot, rec: seq<Byte>)
    requires Consistent(schema, db, ixs)
    ensures KeysFree(schema, ixs, s, rec) <==> Unique(schema, db[s := rec], s.table)
  {
    hide IndexIs, UniqueIn, KeyOf;
    forall id | id in schema && schema[id].table == s.table
      ensures UniqueIn(schema[id], db[s := rec]) <==> KeyFree(schema[id], ixs[id], s, rec)
    {
      OneUnique(schema[id], db, ixs[id], s, rec);
    }
  }

  predicate KeyFree(meta: IndexMeta, m: Index, s: Slot, rec: seq<Byte>) {
    KeyOf(meta.cols, rec) in m ==> m[KeyOf(meta.cols, rec)] == s
  }

  lemma {:induction false} OneUnique(meta: IndexMeta, db: Records, m: Index, s: Slot, rec: seq<Byte>)
    requires IndexIs(meta, db, m) && s.table == meta.table
    ensures UniqueIn(meta, db[s := rec]) <==> KeyFree(meta, m, s, rec)
  {
    hide KeyOf;
    var db', k := db[s := rec], KeyOf(meta.cols, rec);
    if KeyFree(meta, m, s, rec) {
      forall a, b | a in db' && b in db' && a.table == meta.table && b.table == meta.table &&
                    KeyOf(meta.cols, db'[a]) == KeyOf(meta.cols, db'[b])
        ensures a == b
      {
        if a != s {
          assert m[KeyOf(meta.cols, db[a])] == a;
        }
        if b != s {
          assert m[KeyOf(meta.cols, db[b])] == b;
        }
      }
    } else {
      var a := m[k];
      assert a in db' && a != s && KeyOf(meta.cols, db'[a]) == KeyOf(meta.cols, db'[s]);
    }
  }
}

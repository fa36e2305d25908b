/** The persistent state of a base table, as the object that is updated in place. */
module PersistentStates {
  import opened Options
  import opened ByteStrings
  import opened StateTypes
  import opened KeyEncoding
  import opened PersistentModel
  import opened PersistentTable
  import opened PersistentRuns
  import opened PersistentLookup
  import opened PersistentBatches
  import opened PersistentRange
  import opened ReplicationOffsets
  import opened Replication

  const INDEX_BATCH_SIZE: nat := 10_000

  // ---------------------------------------------------------------- write batches

  /** One operation of a write batch; `cf` counts the secondary indices. */
  datatype CfOp =
    | PutRow(pk: Bytes, row: Row)
    | DeleteRow(pk: Bytes)
    | PutEntry(cf: nat, key: Bytes, pk: Bytes)
    | DeleteEntry(cf: nat, key: Bytes)

  function ApplyOp(db: Db, op: CfOp): Db {
    match op
    case PutRow(pk, row) => db.(primary := db.primary[pk := row])
    case DeleteRow(pk) => db.(primary := db.primary - {pk})
    case PutEntry(cf, key, pk) =>
      if cf < |db.secondary| then db.(secondary := db.secondary[cf := db.secondary[cf][key := pk]]) else db
    case DeleteEntry(cf, key) =>
      if cf < |db.secondary| then db.(secondary := db.secondary[cf := db.secondary[cf] - {key}]) else db
  }

  function ApplyOps(db: Db, ops: seq<CfOp>): Db
    decreases ops
  {
    if ops == [] then db else ApplyOps(ApplyOp(db, ops[0]), ops[1..])
  }

  lemma {:induction false} ApplyConcat(db: Db, a: seq<CfOp>, b: seq<CfOp>)
    ensures ApplyOps(db, a + b) == ApplyOps(ApplyOps(db, a), b)
    decreases a
  {
    if a == [] {
      assert a + b == b;
    } else {
      ApplyConcat(ApplyOp(db, a[0]), a[1..], b);
      assert (a + b)[1..] == a[1..] + b;
    }
  }

  lemma ApplySnoc(db: Db, a: seq<CfOp>, op: CfOp)
    ensures ApplyOps(db, a + [op]) == ApplyOp(ApplyOps(db, a), op)
  {
    ApplyConcat(db, a, [op]);
    assert ApplyOps(ApplyOps(db, a), [op]) == ApplyOp(ApplyOps(db, a), op);
  }

  function EntryOp(c: Codec, ix: PIndex, cf: nat, w: RowWrite): CfOp
    requires InBounds(ix.index.columns, |w.row|)
  {
    var key := SecondaryKey(c, ix, w.row, w.pk);
    if w.Put? then PutEntry(cf, key, w.pk) else DeleteEntry(cf, key)
  }

  function RowOp(w: RowWrite): CfOp {
    if w.Put? then PutRow(w.pk, w.row) else DeleteRow(w.pk)
  }

  lemma EntryOpWrites(c: Codec, ix: PIndex, db: Db, cf: nat, w: RowWrite)
    requires CodecOk(c) && InBounds(ix.index.columns, |w.row|) && cf < |db.secondary|
    ensures ApplyOp(db, EntryOp(c, ix, cf, w)) ==
            Db(db.primary, db.secondary[cf := WriteSecondary(c, ix, db.secondary[cf], w)])
  {
  }

  /** The operations that write a row to the primary index and the first `n` secondary ones. */
  ghost function OpsOf(c: Codec, secs: seq<PIndex>, w: RowWrite, n: nat): seq<CfOp>
    requires CodecOk(c) && Fits(secs, |w.row|) && n <= |secs|
  {
    if n == 0 then [RowOp(w)] else OpsOf(c, secs, w, n - 1) + [EntryOp(c, secs[n - 1], n - 1, w)]
  }

  /** A row written to the primary index and the first `n` secondary ones. */
  ghost function PartlyWritten(c: Codec, secs: seq<PIndex>, db: Db, w: RowWrite, n: nat): (r: Db)
    requires CodecOk(c) && Fits(secs, |w.row|) && n <= |secs| == |db.secondary|
    ensures r.primary == WritePrimary(db.primary, w) && |r.secondary| == |secs|
    ensures forall i :: 0 <= i < n ==> r.secondary[i] == WriteSecondary(c, secs[i], db.secondary[i], w)
    ensures forall i :: n <= i < |secs| ==> r.secondary[i] == db.secondary[i]
  {
    if n == 0 then Db(WritePrimary(db.primary, w), db.secondary)
    else
      var r := PartlyWritten(c, secs, db, w, n - 1);
      Db(r.primary, r.secondary[n - 1 := WriteSecondary(c, secs[n - 1], r.secondary[n - 1], w)])
  }

  lemma {:induction false} OpsOfUpTo(c: Codec, secs: seq<PIndex>, db: Db, w: RowWrite, n: nat)
    requires CodecOk(c) && Fits(secs, |w.row|) && n <= |secs| == |db.secondary|
    ensures ApplyOps(db, OpsOf(c, secs, w, n)) == PartlyWritten(c, secs, db, w, n)
  {
    if n == 0 {
      ApplySnoc(db, [], RowOp(w));
      assert [] + [RowOp(w)] == [RowOp(w)];
    } else {
      OpsOfUpTo(c, secs, db, w, n - 1);
      ApplySnoc(db, OpsOf(c, secs, w, n - 1), EntryOp(c, secs[n - 1], n - 1, w));
      EntryOpWrites(c, secs[n - 1], PartlyWritten(c, secs, db, w, n - 1), n - 1, w);
    }
  }

  /** The operations made for one row are one write of that row. */
  lemma OpsOfRow(c: Codec, secs: seq<PIndex>, db: Db, w: RowWrite)
    requires CodecOk(c) && Fits(secs, |w.row|) && |secs| == |db.secondary|
    ensures ApplyOps(db, OpsOf(c, secs, w, |secs|)) == Write(c, secs, db, w)
  {
    OpsOfUpTo(c, secs, db, w, |secs|);
    assert PartlyWritten(c, secs, db, w, |secs|).secondary == Write(c, secs, db, w).secondary;
  }

  ghost function AllOps(c: Codec, secs: seq<PIndex>, ws: seq<RowWrite>): seq<CfOp>
    requires CodecOk(c) && WritesFit(secs, ws)
    decreases ws
  {
    if ws == [] then [] else OpsOf(c, secs, ws[0], |secs|) + AllOps(c, secs, ws[1..])
  }

  lemma {:induction false} AllOpsSnoc(c: Codec, secs: seq<PIndex>, ws: seq<RowWrite>, w: RowWrite)
    requires CodecOk(c) && WritesFit(secs, ws) && Fits(secs, |w.row|)
    ensures WritesFit(secs, ws + [w])
    ensures AllOps(c, secs, ws + [w]) == AllOps(c, secs, ws) + OpsOf(c, secs, w, |secs|)
    decreases ws
  {
    if ws == [] {
      assert ws + [w] == [w];
      assert AllOps(c, secs, [w]) == OpsOf(c, secs, w, |secs|) + [];
    } else {
      AllOpsSnoc(c, secs, ws[1..], w);
      assert (ws + [w])[1..] == ws[1..] + [w];
    }
  }

  /** A write batch is the writes of its rows, one after the other. */
  lemma {:induction false} BatchOfRows(c: Codec, secs: seq<PIndex>, db: Db, ws: seq<RowWrite>)
    requires CodecOk(c) && WritesFit(secs, ws) && |secs| == |db.secondary|
    ensures ApplyOps(db, AllOps(c, secs, ws)) == WriteAll(c, secs, db, ws)
    decreases ws
  {
    if ws != [] {
      ApplyConcat(db, OpsOf(c, secs, ws[0], |secs|), AllOps(c, secs, ws[1..]));
      OpsOfRow(c, secs, db, ws[0]);
      BatchOfRows(c, secs, Write(c, secs, db, ws[0]), ws[1..]);
    }
  }

  lemma {:induction false} IsBatchSnoc(c: Codec, ix: PIndex, width: nat, before: map<Bytes, Row>, epoch: nat,
                                       seqNo: nat,
                                       records: seq<Record>, ws: seq<RowWrite>, rec: Record, w: RowWrite)
    requires CodecOk(c) && InBounds(ix.index.columns, width) && RowsFit(records, width) && |rec.row| == width
    requires epoch < U64 && seqNo + |records| + 1 < U64
    requires IsBatch(c, ix, width, before, epoch, seqNo, records, ws)
    requires IsWriteOf(c, ix, before, epoch, SeqAfterAll(ix, width, seqNo, records), rec, w)
    ensures IsBatch(c, ix, width, before, epoch, seqNo, records + [rec], ws + [w])
    ensures SeqAfterAll(ix, width, seqNo, records + [rec]) == SeqAfter(ix, SeqAfterAll(ix, width, seqNo, records), rec)
    decreases records
  {
    if records == [] {
      assert records + [rec] == [rec] && ws + [w] == [w];
      assert IsBatch(c, ix, width, before, epoch, SeqAfter(ix, seqNo, rec), [], []);
      assert [rec][1..] == [] && [w][1..] == [];
    } else {
      IsBatchSnoc(c, ix, width, before, epoch, SeqAfter(ix, seqNo, records[0]), records[1..], ws[1..], rec, w);
      assert (records + [rec])[1..] == records[1..] + [rec] && (ws + [w])[1..] == ws[1..] + [w];
    }
  }

  /** A batch of operations made of these records, and the counter after it. */
  ghost predicate Built(c: Codec, indices: seq<PIndex>, width: nat, before: map<Bytes, Row>, epoch: nat, seqNo: nat,
                        records: seq<Record>, ws: seq<RowWrite>, batch: seq<CfOp>, seqNo': nat)
  {
    CodecOk(c) && indices != [] && Fits(indices, width) && RowsFit(records, width) &&
    epoch < U64 && seqNo + |records| < U64 &&
    IsBatch(c, indices[0], width, before, epoch, seqNo, records, ws) &&
    WritesFit(indices[1..], ws) && batch == AllOps(c, indices[1..], ws) &&
    seqNo' == SeqAfterAll(indices[0], width, seqNo, records)
  }

  lemma BuiltSnoc(c: Codec, indices: seq<PIndex>, width: nat, before: map<Bytes, Row>, epoch: nat, seqNo: nat,
                  records: seq<Record>, ws: seq<RowWrite>, batch: seq<CfOp>, seqNo': nat, rec: Record, w: RowWrite)
    requires Built(c, indices, width, before, epoch, seqNo, records, ws, batch, seqNo')
    requires |rec.row| == width && w.row == rec.row && seqNo + |records| + 1 < U64
    requires IsWriteOf(c, indices[0], before, epoch, seqNo', rec, w)
    ensures WritesFit(indices[1..], ws + [w])
    ensures Built(c, indices, width, before, epoch, seqNo, records + [rec], ws + [w],
                  AllOps(c, indices[1..], ws + [w]), SeqAfter(indices[0], seqNo', rec))
  {
    IsBatchSnoc(c, indices[0], width, before, epoch, seqNo, records, ws, rec, w);
    AllOpsSnoc(c, indices[1..], ws, w);
  }

  /** The database after one write of each record, in order, all deletes having looked at it as it was before. */
  ghost predicate BatchWritten(c: Codec, indices: seq<PIndex>, width: nat, before: Db, epoch: nat, seqNo: nat,
                               records: seq<Record>, after: Db)
  {
    CodecOk(c) && indices != [] && Fits(indices, width) && RowsFit(records, width) && epoch < U64 &&
    seqNo + |records| < U64 && |before.secondary| == |indices| - 1 &&
    exists ws :: IsBatch(c, indices[0], width, before.primary, epoch, seqNo, records, ws) &&
                 WritesFit(indices[1..], ws) && after == WriteAll(c, indices[1..], before, ws)
  }

  lemma BuiltIsWritten(c: Codec, indices: seq<PIndex>, width: nat, before: Db, epoch: nat, seqNo: nat,
                       records: seq<Record>, ws: seq<RowWrite>, batch: seq<CfOp>, seqNo': nat)
    requires Built(c, indices, width, before.primary, epoch, seqNo, records, ws, batch, seqNo')
    requires |before.secondary| == |indices| - 1
    ensures BatchWritten(c, indices, width, before, epoch, seqNo, records, ApplyOps(before, batch))
  {
    BatchOfRows(c, indices[1..], before, ws);
  }

  /** Some record of the batch deletes a row that the database does not hold where a delete looks for it. */
  ghost predicate SomeCannotFind(c: Codec, ix: PIndex, width: nat, p: map<Bytes, Row>, records: seq<Record>)
    requires CodecOk(c) && InBounds(ix.index.columns, width) && RowsFit(records, width)
  {
    exists i :: 0 <= i < |records| && records[i].Negative? && CannotFind(c, ix, p, records[i].row)
  }

  /** Numbers given out and not used are no loss. */
  lemma HigherSeqKeepsInv(c: Codec, schema: Schema, st: Store, truth: Bag, seqNo: nat)
    requires CodecOk(c) && Inv(c, schema, st, truth) && st.seqNo <= seqNo < U64
    ensures Inv(c, schema, st.(seqNo := seqNo), truth)
  {
    forall pk | pk in st.db.primary
      ensures PkShape(c, st.indices[0], st.db.primary[pk], pk, st.epoch, seqNo)
    {
      PkShapeLater(c, st.indices[0], st.db.primary[pk], pk, st.epoch, st.seqNo, st.epoch, seqNo);
    }
  }

  /** The database holds no entry of this row that a scan would find. */
  ghost predicate CannotFind(c: Codec, ix: PIndex, p: map<Bytes, Row>, row: Row)
    requires CodecOk(c) && InBounds(ix.index.columns, |row|)
  {
    !ByKeyAlone(ix, row) &&
    forall q :: q in p && c.prefix(KeyOf(ix.index.columns, row)) <= q ==> p[q] != row
  }

  lemma NotFoundNotThere(c: Codec, schema: Schema, st: Store, truth: Bag, records: seq<Record>, i: nat)
    requires CodecOk(c) && Inv(c, schema, st, truth) && i < |records| && |records[i].row| == schema.width
    requires records[i].Negative? && CannotFind(c, st.indices[0], st.db.primary, records[i].row)
    ensures !Searchable(st.indices[0], schema.width, truth, records)
  {
    var ix, row := st.indices[0], records[i].row;
    assert MustSearch(ix, schema.width, records[i]);
    if row in truth {
      var pk := RowIsSomewhere(st.db.primary, truth, row);
      PrimaryViewOk(c, schema, ix, st.db.primary, st.epoch, st.seqNo);
      StartsIffSamePrefix(c, ix, row, pk, KeyOf(ix.index.columns, row));
    }
  }

  /** The operation can be taken as a step of a run, and leads to `st'`. */
  ghost predicate StepsTo(c: Codec, schema: Schema, st: Store, truth: Bag, op: Op, st': Store) {
    CodecOk(c) && Inv(c, schema, st, truth) && PersistentRuns.Enabled(c, schema, st, truth, op) &&
    st' == Step(c, schema, st, truth, op)
  }

  /** Writing these records is such a step. */
  ghost predicate WriteSteps(c: Codec, schema: Schema, st: Store, truth: Bag, records: seq<Record>, st': Store) {
    exists ws :: StepsTo(c, schema, st, truth, WriteBatch(records, ws), st')
  }

  lemma BatchIsStep(c: Codec, schema: Schema, st: Store, truth: Bag, records: seq<Record>, ws: seq<RowWrite>,
                    batch: seq<CfOp>, seqNo: nat)
    requires CodecOk(c) && Inv(c, schema, st, truth) && Allowed(schema, truth, records)
    requires BatchFits(c, st.indices, records) && Searchable(st.indices[0], schema.width, truth, records)
    requires Built(c, st.indices, schema.width, st.db.primary, st.epoch, st.seqNo, records, ws, batch, seqNo)
    ensures WriteSteps(c, schema, st, truth, records, Store(st.indices, ApplyOps(st.db, batch), st.epoch, seqNo))
  {
    BatchOfRows(c, st.indices[1..], st.db, ws);
    BatchOkIff(schema, st.indices[0], truth, records);
    assert StepsTo(c, schema, st, truth, WriteBatch(records, ws),
                   Store(st.indices, ApplyOps(st.db, batch), st.epoch, seqNo));
  }

  /** What the store is once a batch of allowed records is written. */
  lemma BatchResult(c: Codec, schema: Schema, st: Store, truth: Bag, records: seq<Record>, ws: seq<RowWrite>,
                    batch: seq<CfOp>, seqNo: nat)
    requires CodecOk(c) && Inv(c, schema, st, truth) && Allowed(schema, truth, records)
    requires BatchFits(c, st.indices, records)
    requires Built(c, st.indices, schema.width, st.db.primary, st.epoch, st.seqNo, records, ws, batch, seqNo)
    ensures Represents(ApplyOps(st.db, batch).primary, BatchTruth(truth, records)) <==>
            Searchable(st.indices[0], schema.width, truth, records)
    ensures Searchable(st.indices[0], schema.width, truth, records) ==>
              Inv(c, schema, Store(st.indices, ApplyOps(st.db, batch), st.epoch, seqNo), BatchTruth(truth, records)) &&
              WriteSteps(c, schema, st, truth, records, Store(st.indices, ApplyOps(st.db, batch), st.epoch, seqNo))
  {
    BatchOfRows(c, st.indices[1..], st.db, ws);
    WrittenRightIff(c, schema, st, truth, records, ws);
    BatchOkIff(schema, st.indices[0], truth, records);
    if Searchable(st.indices[0], schema.width, truth, records) {
      BatchKeepsInv(c, schema, st, truth, st.db.primary, truth, {}, records, ws);
      BatchIsStep(c, schema, st, truth, records, ws, batch, seqNo);
    }
  }

  lemma IndexShowsView(c: Codec, st: Store, i: nat)
    requires CodecOk(c) && i < |st.indices| && SecondariesOk(c, st.indices[1..], st.db)
    ensures Shows(st.db.primary, if i == 0 then None else Some(st.db.secondary[i - 1]), View(c, st, i))
  {
    if i > 0 {
      EntriesShowView(c, st.indices[1..][i - 1], st.db.secondary[i - 1], st.db.primary);
    }
  }

  lemma EntriesShowView(c: Codec, ix: PIndex, cf: map<Bytes, Bytes>, p: map<Bytes, Row>)
    requires CodecOk(c) && SecondaryOk(c, ix, cf, p)
    ensures Shows(p, Some(cf), ViewOf(c, ix, cf, p))
  {
    ReadThrough(cf, p);
  }

  lemma ReadThrough(cf: map<Bytes, Bytes>, p: map<Bytes, Row>)
    requires forall k :: k in cf ==> cf[k] in p
    ensures Shows(p, Some(cf), map k | k in cf :: p[cf[k]])
  {
  }

  class PersistentState {
    const c: Codec
    const schema: Schema
    var indices: seq<PIndex>
    var primary: map<Bytes, Row>
    var secondary: seq<map<Bytes, Bytes>>
    var epoch: nat
    var seqNo: nat
    var offset: Option<ReplicationOffset>

    /** The table that this state stands for. */
    ghost var truth: Bag

    ghost function AsStore(): Store
      reads this
    {
      Store(indices, Db(primary, secondary), epoch, seqNo)
    }

    ghost predicate Valid()
      reads this
    {
      CodecOk(c) && epoch < U64 && seqNo < U64 &&
      if indices == [] then primary == map[] && secondary == [] && truth == multiset{}
      else indices[0].index.indexType == HashMap && Inv(c, schema, AsStore(), truth)
    }

    constructor (c: Codec, schema: Schema)
      requires CodecOk(c)
      ensures Valid() && this.c == c && this.schema == schema
      ensures indices == [] && truth == multiset{} && offset == None && epoch == 0 && seqNo == 0
    {
      this.c := c;
      this.schema := schema;
      indices := [];
      primary := map[];
      secondary := [];
      epoch := 0;
      seqNo := 0;
      offset := None;
      truth := multiset{};
    }

    /** The same files opened again. */
    method Reopen()
      requires Valid() && epoch + 1 < U64
      modifies this
      ensures Valid() && truth == old(truth) && offset == old(offset)
      ensures epoch == old(epoch) + 1 && seqNo == 0
      ensures indices == old(indices) && primary == old(primary) && secondary == old(secondary)
      ensures indices != [] ==> StepsTo(c, schema, old(AsStore()), truth, Op.Reopen, AsStore())
    {
      if indices != [] {
        ReopenKeepsInv(c, schema, AsStore(), truth);
      }
      epoch := epoch + 1;
      seqNo := 0;
    }

    /** The primary key of a new row. */
    method NewKey(row: Row) returns (pk: Bytes)
      requires CodecOk(c) && indices != [] && Fits(indices, |row|) && epoch < U64 && seqNo + 1 < U64
      modifies this`seqNo
      ensures pk == NewPk(c, indices[0], row, epoch, old(seqNo))
      ensures seqNo == NextSeq(indices[0], row, old(seqNo))
    {
      var key := KeyOf(indices[0].index.columns, row);
      if indices[0].unique && !HasNull(key) {
        pk := c.prefix(key);
      } else {
        seqNo := seqNo + 1;
        pk := c.prefix(key) + c.stamp(epoch, seqNo);
      }
    }

    /** Adds to a batch the operations that write one row to every column family. */
    method WriteEverywhere(batch: seq<CfOp>, w: RowWrite, ghost ws: seq<RowWrite>) returns (batch': seq<CfOp>)
      requires CodecOk(c) && indices != [] && Fits(indices, |w.row|)
      requires WritesFit(indices[1..], ws) && batch == AllOps(c, indices[1..], ws)
      ensures WritesFit(indices[1..], ws + [w]) && batch' == AllOps(c, indices[1..], ws + [w])
    {
      var ops := [RowOp(w)];
      for i := 1 to |indices|
        invariant ops == OpsOf(c, indices[1..], w, i - 1)
      {
        assert indices[1..][i - 1] == indices[i];
        ops := ops + [EntryOp(c, indices[i], i - 1, w)];
      }
      AllOpsSnoc(c, indices[1..], ws, w);
      batch' := batch + ops;
    }

    /** Scans the database for the entry that holds a row; `keys` is what an iterator over the primary
        index walks through. */
    method FindRow(row: Row, keys: seq<Bytes>) returns (found: Option<Bytes>)
      requires CodecOk(c) && indices != [] && Fits(indices, |row|) && Iterates(keys, primary)
      ensures var prefix := c.prefix(KeyOf(indices[0].index.columns, row));
              found.None? ==> forall q :: q in primary && prefix <= q ==> primary[q] != row
      ensures !ByKeyAlone(indices[0], row) && found.Some? ==> Finds(c, indices[0], primary, row, found.value)
    {
      var prefix := c.prefix(KeyOf(indices[0].index.columns, row));
      var lo := Seek(keys, prefix);
      var i := lo;
      while i < |keys|
        invariant lo <= i <= |keys|
        invariant forall j :: 0 <= j < i && prefix <= keys[j] ==> primary[keys[j]] != row
      {
        if !(prefix <= keys[i]) {
          ScanIsComplete(keys, prefix, lo, i);
          return None;
        }
        if primary[keys[i]] == row {
          FirstIsLeast(keys, prefix, row, i);
          return Some(keys[i]);
        }
        i := i + 1;
      }
      return None;
    }

    lemma FirstIsLeast(keys: seq<Bytes>, prefix: Bytes, row: Row, i: nat)
      requires Iterates(keys, primary) && i < |keys|
      requires forall j :: 0 <= j < i && prefix <= keys[j] ==> primary[keys[j]] != row
      ensures forall q :: q in primary && prefix <= q && primary[q] == row ==> LexLeq(keys[i], q)
    {
      forall q | q in primary && prefix <= q && primary[q] == row ensures LexLeq(keys[i], q) {
        assert q in keys;
        var j :| 0 <= j < |keys| && keys[j] == q;
        StartsThenSorts(keys[i], keys[i]);
      }
    }

    /** The primary key of a row to delete, if it can be found. The search looks at the database, not
        at the batch that is being built. */
    method KeyToDelete(row: Row, keys: seq<Bytes>) returns (pk: Option<Bytes>)
      requires CodecOk(c) && indices != [] && Fits(indices, |row|) && Iterates(keys, primary)
      ensures pk.Some? ==> Finds(c, indices[0], primary, row, pk.value)
      ensures pk.None? ==> CannotFind(c, indices[0], primary, row)
    {
      var key := KeyOf(indices[0].index.columns, row);
      if indices[0].unique && !HasNull(key) {
        pk := Some(c.prefix(key));
      } else {
        pk := FindRow(row, keys);
      }
    }

    /** `insert` and `remove`: adds the operations for one record to a batch. */
    method AddRecord(batch: seq<CfOp>, rec: Record, keys: seq<Bytes>,
                     ghost done: seq<Record>, ghost ws: seq<RowWrite>, ghost first: nat)
      returns (ok: bool, batch': seq<CfOp>, ghost ws': seq<RowWrite>)
      requires Built(c, indices, schema.width, primary, epoch, first, done, ws, batch, seqNo)
      requires |rec.row| == schema.width && first + |done| + 1 < U64 && Iterates(keys, primary)
      modifies this`seqNo
      ensures ok ==> Built(c, indices, schema.width, primary, epoch, first, done + [rec], ws', batch', seqNo)
      ensures old(seqNo) <= seqNo <= old(seqNo) + 1
      ensures !ok ==> rec.Negative? && CannotFind(c, indices[0], primary, rec.row)
    {
      var w: RowWrite;
      match rec {
        case Positive(row) =>
          var pk := NewKey(row);
          w := Put(pk, row);
        case Negative(row) =>
          var pk := KeyToDelete(row, keys);
          if pk.None? {
            return false, batch, ws;
          }
          w := Del(pk.value, row);
      }
      BuiltSnoc(c, indices, schema.width, primary, epoch, first, done, ws, batch, old(seqNo), rec, w);
      batch' := WriteEverywhere(batch, w, ws);
      ws' := ws + [w];
      ok := true;
    }

    /** Writes a batch to the database. */
    method Commit(batch: seq<CfOp>)
      modifies this`primary, this`secondary
      ensures Db(primary, secondary) == ApplyOps(old(Db(primary, secondary)), batch)
    {
      ghost var was := Db(primary, secondary);
      for i := 0 to |batch|
        invariant Db(primary, secondary) == ApplyOps(was, batch[..i])
      {
        var db := ApplyOp(Db(primary, secondary), batch[i]);
        primary, secondary := db.primary, db.secondary;
        ApplySnoc(was, batch[..i], batch[i]);
        assert batch[..i + 1] == batch[..i] + [batch[i]];
      }
      assert batch[..|batch|] == batch;
    }

    /** Turns records into one write batch, unless some record cannot be found. */
    method BuildBatch(records: seq<Record>, keys: seq<Bytes>)
      returns (ok: bool, batch: seq<CfOp>, ghost ws: seq<RowWrite>, ghost failed: nat)
      requires CodecOk(c) && indices != [] && Fits(indices, schema.width) && epoch < U64
      requires Iterates(keys, primary) && RowsFit(records, schema.width) && seqNo + |records| < U64
      modifies this`seqNo
      ensures old(seqNo) <= seqNo <= old(seqNo) + |records|
      ensures ok ==> Built(c, indices, schema.width, primary, epoch, old(seqNo), records, ws, batch, seqNo)
      ensures !ok ==> failed < |records| && records[failed].Negative? &&
                      CannotFind(c, indices[0], primary, records[failed].row)
    {
      batch, ws, failed := [], [], 0;
      for i := 0 to |records|
        invariant old(seqNo) <= seqNo <= old(seqNo) + i
        invariant Built(c, indices, schema.width, primary, epoch, old(seqNo), records[..i], ws, batch, seqNo)
      {
        ok, batch, ws := AddRecord(batch, records[i], keys, records[..i], ws, old(seqNo));
        if !ok {
          failed := i;
          return;
        }
        assert records[..i + 1] == records[..i] + [records[i]];
      }
      assert records[..|records|] == records;
      ok := true;
    }

    /** Builds a batch and writes it, or writes nothing. */
    method TryWrite(records: seq<Record>, keys: seq<Bytes>)
      returns (ok: bool, ghost ws: seq<RowWrite>, ghost batch: seq<CfOp>, ghost failed: nat)
      requires CodecOk(c) && indices != [] && Fits(indices, schema.width) && epoch < U64
      requires Iterates(keys, primary) && RowsFit(records, schema.width) && seqNo + |records| < U64
      requires |secondary| == |indices| - 1
      modifies this`primary, this`secondary, this`seqNo
      ensures old(seqNo) <= seqNo <= old(seqNo) + |records|
      ensures ok ==> Built(c, indices, schema.width, old(primary), epoch, old(seqNo), records, ws, batch, seqNo)
      ensures ok ==> Db(primary, secondary) == ApplyOps(old(Db(primary, secondary)), batch) &&
                     BatchWritten(c, indices, schema.width, old(Db(primary, secondary)), epoch, old(seqNo), records,
                                  Db(primary, secondary))
      ensures !ok ==> primary == old(primary) && secondary == old(secondary)
      ensures !ok ==> failed < |records| && records[failed].Negative? &&
                      CannotFind(c, indices[0], primary, records[failed].row)
    {
      var built;
      ok, built, ws, failed := BuildBatch(records, keys);
      batch := built;
      if ok {
        BuiltIsWritten(c, indices, schema.width, Db(primary, secondary), epoch, old(seqNo), records, ws, built, seqNo);
        Commit(built);
      }
    }

    /** The records are each possible and respect the unique keys, and their keys can be encoded. */
    ghost predicate AllowedNow(records: seq<Record>)
      reads this
    {
      Allowed(schema, truth, records) && BatchFits(c, indices, records)
    }

    /** Every row that must be searched for is there, and is deleted once. */
    ghost predicate SearchableNow(records: seq<Record>)
      reads this
      requires indices != [] && InBounds(indices[0].index.columns, schema.width)
    {
      Searchable(indices[0], schema.width, truth, records)
    }

    /** Writes records as one batch; nothing is written if one of them cannot be. */
    method WriteRecords(records: seq<Record>, keys: seq<Bytes>) returns (ok: bool)
      requires Valid() && indices != [] && Iterates(keys, primary) && RowsFit(records, schema.width)
      requires seqNo + |records| < U64
      modifies this`primary, this`secondary, this`seqNo, this`truth
      ensures !ok ==> Valid() && truth == old(truth) && primary == old(primary) && secondary == old(secondary)
      ensures old(AllowedNow(records)) ==>
                (ok && Represents(primary, BatchTruth(old(truth), records)) <==> old(SearchableNow(records)))
      ensures old(AllowedNow(records) && SearchableNow(records)) ==>
                Valid() && truth == BatchTruth(old(truth), records) &&
                WriteSteps(c, schema, old(AsStore()), old(truth), records, AsStore())
      ensures ok ==> BatchWritten(c, indices, schema.width, old(Db(primary, secondary)), epoch, old(seqNo), records,
                                  Db(primary, secondary)) &&
                     seqNo == SeqAfterAll(indices[0], schema.width, old(seqNo), records)
      ensures !ok ==> SomeCannotFind(c, indices[0], schema.width, primary, records)
      ensures old(seqNo) <= seqNo <= old(seqNo) + |records|
    {
      ghost var before := AsStore();
      ghost var ws, batch, failed;
      ok, ws, batch, failed := TryWrite(records, keys);
      if !ok {
        HigherSeqKeepsInv(c, schema, before, truth, seqNo);
        assert AsStore() == before.(seqNo := seqNo);
        NotFoundNotThere(c, schema, before, truth, records, failed);
      } else if AllowedNow(records) {
        BatchResult(c, schema, before, truth, records, ws, batch, seqNo);
        truth := BatchTruth(truth, records);
        assert AsStore() == Store(before.indices, ApplyOps(before.db, batch), before.epoch, seqNo);
      }
    }

    /** Applies a batch once: if its offset is not after the one already reached it is dropped. */
    method ProcessRecords(records: seq<Record>, newOffset: Option<ReplicationOffset>, keys: seq<Bytes>)
      returns (ok: bool)
      requires Valid() && Iterates(keys, primary) && RowsFit(records, schema.width) && seqNo + |records| < U64
      modifies this
      ensures indices == old(indices) && epoch == old(epoch)
      ensures Dropped(old(offset), newOffset) ==> ok && unchanged(this)
      ensures !Dropped(old(offset), newOffset) && ok ==> offset == if newOffset.Some? then newOffset else old(offset)
      ensures !ok ==> Valid() && truth == old(truth) && offset == old(offset) &&
                      primary == old(primary) && secondary == old(secondary)
      ensures records != [] && indices == [] && !Dropped(old(offset), newOffset) ==> !ok
      ensures records == [] ==> ok && Valid() && truth == old(truth)
      ensures indices != [] && !Dropped(old(offset), newOffset) && old(AllowedNow(records)) ==>
                (ok && Represents(primary, BatchTruth(old(truth), records)) <==> old(SearchableNow(records)))
      ensures indices != [] && !Dropped(old(offset), newOffset) &&
              old(AllowedNow(records) && SearchableNow(records)) ==>
                Valid() && truth == BatchTruth(old(truth), records)
      ensures indices != [] && newOffset.Some? && old(AllowedNow(records) && SearchableNow(records)) ==>
                Valid() && Replica(truth, offset) ==
                           Deliver(BatchTruth, old(Replica(truth, offset)), Batch(records, newOffset.value))
      ensures ok && records != [] && !Dropped(old(offset), newOffset) ==>
                BatchWritten(c, indices, schema.width, old(Db(primary, secondary)), epoch, old(seqNo), records,
                             Db(primary, secondary)) &&
                seqNo == SeqAfterAll(indices[0], schema.width, old(seqNo), records)
      ensures !ok && indices != [] ==>
                CodecOk(c) && InBounds(indices[0].index.columns, schema.width) &&
                SomeCannotFind(c, indices[0], schema.width, primary, records)
      ensures old(seqNo) <= seqNo <= old(seqNo) + |records|
    {
      if Dropped(offset, newOffset) {
        return true;
      }
      ok := ApplyRecords(records, keys);
      if ok && newOffset.Some? {
        offset := newOffset;
      }
    }

    /** Writes records, which needs an index. */
    method ApplyRecords(records: seq<Record>, keys: seq<Bytes>) returns (ok: bool)
      requires Valid() && Iterates(keys, primary) && RowsFit(records, schema.width) && seqNo + |records| < U64
      modifies this`primary, this`secondary, this`seqNo, this`truth
      ensures !ok ==> Valid() && truth == old(truth) && primary == old(primary) && secondary == old(secondary)
      ensures indices == [] ==> (ok <==> records == [])
      ensures records == [] ==> ok && Valid() && truth == old(truth)
      ensures indices != [] && old(AllowedNow(records)) ==>
                (ok && Represents(primary, BatchTruth(old(truth), records)) <==> old(SearchableNow(records)))
      ensures indices != [] && old(AllowedNow(records) && SearchableNow(records)) ==>
                Valid() && truth == BatchTruth(old(truth), records)
      ensures ok && records != [] ==>
                BatchWritten(c, indices, schema.width, old(Db(primary, secondary)), epoch, old(seqNo), records,
                             Db(primary, secondary)) &&
                seqNo == SeqAfterAll(indices[0], schema.width, old(seqNo), records)
      ensures !ok && indices != [] ==>
                CodecOk(c) && InBounds(indices[0].index.columns, schema.width) &&
                SomeCannotFind(c, indices[0], schema.width, primary, records)
      ensures old(seqNo) <= seqNo <= old(seqNo) + |records|
    {
      if records == [] {
        return true;
      }
      if indices == [] {
        return false;
      }
      ok := WriteRecords(records, keys);
    }

    /** The first index of a table holds its rows. */
    method AddPrimaryIndex(columns: seq<nat>)
      requires Valid() && indices == [] && InBounds(columns, schema.width)
      modifies this`indices
      ensures Valid() && indices == [PersistentIndex(schema, Index(columns, HashMap))]
    {
      NoRow();
      indices := [PersistentIndex(schema, Index(columns, HashMap))];
    }

    /** A further index points to the rows; `keys` is what an iterator over the primary index walks
        through. */
    method AddSecondaryIndex(index: Index, keys: seq<Bytes>, batchSize: nat)
      requires Valid() && indices != [] && InBounds(index.columns, schema.width) && batchSize > 0
      requires Iterates(keys, primary) && TableFits(c, index.columns, truth)
      modifies this`indices, this`secondary
      ensures Valid()
      ensures indices == old(indices) + [PersistentIndex(schema, index)]
      ensures |secondary| == |old(secondary)| + 1 && secondary[..|old(secondary)|] == old(secondary)
      ensures SecondaryOk(c, PersistentIndex(schema, index), secondary[|old(secondary)|], primary)
      ensures StepsTo(c, schema, old(AsStore()), truth, AddSecondary(index, secondary[|old(secondary)|]), AsStore())
    {
      ghost var st := AsStore();
      RoomEverywhere(c, schema, st, truth, index, keys);
      PrimaryViewOk(c, schema, indices[0], primary, epoch, seqNo);
      var ix := PersistentIndex(schema, index);
      var cf := BuildIndex(c, primary, ix, keys, batchSize);
      AddKeepsInv(c, schema, st, truth, index, cf);
      indices := indices + [ix];
      secondary := secondary + [cf];
      assert AsStore() == WithIndex(st, ix, cf);
    }

    predicate HasIndex(index: Index)
      reads this
    {
      exists i :: 0 <= i < |indices| && indices[i].index == index
    }

    /** Makes sure that there is this index. The first index is always a hash index. */
    method AddKey(index: Index, keys: seq<Bytes>)
      requires Valid() && InBounds(index.columns, schema.width) && Iterates(keys, primary)
      requires !HasIndex(index) ==> TableFits(c, index.columns, truth)
      modifies this`indices, this`secondary
      ensures Valid() && HasIndex(index)
      ensures old(indices) <= indices
      ensures indices == old(indices) + (if old(HasIndex(index)) then [] else
                         if old(indices) == [] && index.indexType != HashMap
                         then [PersistentIndex(schema, Index(index.columns, HashMap)), PersistentIndex(schema, index)]
                         else [PersistentIndex(schema, index)])
    {
      if HasIndex(index) {
        return;
      }
      if indices == [] {
        AddPrimaryIndex(index.columns);
        if index.indexType != HashMap {
          AddSecondaryIndex(index, keys, INDEX_BATCH_SIZE);
        }
      } else {
        AddSecondaryIndex(index, keys, INDEX_BATCH_SIZE);
      }
      assert indices[|indices| - 1].index == index;
    }

    /** The first index of this kind; the source fails without one. */
    method FindIndex(index: Index) returns (i: nat)
      requires HasIndex(index)
      ensures i < |indices| && indices[i].index == index
    {
      i := 0;
      while indices[i].index != index
        invariant i < |indices|
        invariant exists j :: i <= j < |indices| && indices[j].index == index
        decreases |indices| - i
      {
        i := i + 1;
      }
    }

    /** The column family of index `i`, if it is not the primary one. */
    function EntriesOf(i: nat): Option<map<Bytes, Bytes>>
      reads this
      requires i <= |secondary|
    {
      if i == 0 then None else Some(secondary[i - 1])
    }

    /** What an iterator over the column family of index `i` walks through. */
    ghost predicate IteratesIndex(keys: seq<Bytes>, i: nat)
      reads this
      requires Valid() && i < |indices|
    {
      Iterates(keys, View(c, AsStore(), i))
    }

    /** All rows under a key, through any hash index: exactly the rows with that key if and only if no row
        with another key is returned. `iterators` holds what an iterator over each column family walks
        through. */
    method Lookup(columns: seq<nat>, key: Key, iterators: seq<seq<Bytes>>) returns (rows: seq<Row>)
      requires Valid() && c.fits(key)
      requires HasIndex(Index(columns, HashMap))
      requires |iterators| == |indices| && forall i :: 0 <= i < |indices| ==> IteratesIndex(iterators[i], i)
      ensures var ix := PersistentIndex(schema, Index(columns, HashMap));
              ExactlyReturned(c, ix, key, multiset(rows), truth) &&
              (ExactlyMatching(multiset(rows), truth, columns, key) <==> NoOtherReturned(c, ix, key, truth))
    {
      var i := FindIndex(Index(columns, HashMap));
      EveryView(c, schema, AsStore(), truth, i);
      IndexShowsView(c, AsStore(), i);
      rows := LookupVia(c, primary, EntriesOf(i), indices[i], key, iterators[i], schema.width,
                        View(c, AsStore(), i), truth);
    }

    /** What an iterator over the column family of an ordered index walks through, if its comparator reads
        all entries back. */
    ghost predicate WalksIndex(w: Cursor, i: nat)
      reads this
      requires Valid() && i < |indices|
    {
      w.c == c && Walks(w, ScopeOf(i))
    }

    ghost function ScopeOf(i: nat): Scope
      reads this
      requires Valid() && i < |indices|
    {
      Scope(schema.width, indices[i], View(c, AsStore(), i))
    }

    /** All rows with keys in a range, in key order, through an ordered index: exactly the rows of the
        range if and only if the condition on the range holds. `iterators` holds what an iterator over
        each ordered column family walks through. */
    method LookupRange(columns: seq<nat>, lower: KeyBound, upper: KeyBound, iterators: seq<Cursor>)
      returns (rows: seq<Row>, i: nat)
      requires Valid() && HasIndex(Index(columns, BTreeMap)) && |iterators| == |indices|
      requires forall i :: 0 <= i < |indices| && indices[i].index == Index(columns, BTreeMap) ==>
                 WalksIndex(iterators[i], i)
      requires forall i :: 0 <= i < |indices| && indices[i].index == Index(columns, BTreeMap) ==>
                 BoundFits(c, iterators[i].split, lower) && BoundFits(c, iterators[i].split, upper)
      ensures 0 < i <= |secondary| && i < |indices| && indices[i].index == Index(columns, BTreeMap)
      ensures InKeyOrder(iterators[i].less, columns, rows)
      ensures WalksIndex(iterators[i], i) && secondary[i - 1].Keys == ScopeOf(i).view.Keys
      ensures RangeResult(iterators[i], ScopeOf(i), secondary[i - 1], truth, lower, upper, multiset(rows))
      ensures ScansReturn(iterators[i], ScopeOf(i), secondary[i - 1], lower, upper, rows)
    {
      i := FindIndex(Index(columns, BTreeMap));
      EveryView(c, schema, AsStore(), truth, i);
      IndexShowsView(c, AsStore(), i);
      assert WalksIndex(iterators[i], i);
      ghost var s := ScopeOf(i);
      rows := PersistentRange.LookupRange(iterators[i], primary, secondary[i - 1], lower, upper, s, truth);
    }
  }
}

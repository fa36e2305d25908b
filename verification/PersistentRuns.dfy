/** Batches of records, late indices and restarts, and what every run of them keeps. */
module PersistentRuns {
  import opened ByteStrings
  import opened StateTypes
  import opened KeyEncoding
  import opened PersistentModel
  import opened PersistentTable

  // ---------------------------------------------------------------- batches

  /** A delete of a row finds this entry: by the key alone, or as the first entry in byte order, of
      the database as it was before the batch, that holds the row. */
  ghost predicate Finds(c: Codec, ix: PIndex, before: map<Bytes, Row>, row: Row, pk: Bytes)
    requires CodecOk(c) && InBounds(ix.index.columns, |row|)
  {
    var prefix := c.prefix(KeyOf(ix.index.columns, row));
    if ByKeyAlone(ix, row) then pk == prefix
    else pk in before && prefix <= pk && before[pk] == row &&
         forall q :: q in before && prefix <= q && before[q] == row ==> LexLeq(pk, q)
  }

  ghost predicate IsWriteOf(c: Codec, ix: PIndex, before: map<Bytes, Row>, epoch: nat, seqNo: nat, rec: Record,
                            w: RowWrite)
    requires CodecOk(c) && InBounds(ix.index.columns, |rec.row|) && epoch < U64 && seqNo + 1 < U64
  {
    match rec
    case Positive(row) => w == Put(NewPk(c, ix, row, epoch, seqNo), row)
    case Negative(row) => w.Del? && w.row == row && Finds(c, ix, before, row, w.pk)
  }

  function SeqAfter(ix: PIndex, seqNo: nat, rec: Record): nat
    requires InBounds(ix.index.columns, |rec.row|)
  {
    if rec.Positive? then NextSeq(ix, rec.row, seqNo) else seqNo
  }

  ghost predicate RowsFit(records: seq<Record>, width: nat) {
    forall i :: 0 <= i < |records| ==> |records[i].row| == width
  }

  /** The keys of all rows of the batch are of their types and can be encoded, in every index. */
  ghost predicate BatchFits(c: Codec, indices: seq<PIndex>, records: seq<Record>) {
    forall i :: 0 <= i < |records| ==> KeysFit(c, indices, records[i].row)
  }

  function SeqAfterAll(ix: PIndex, width: nat, seqNo: nat, records: seq<Record>): (n: nat)
    requires InBounds(ix.index.columns, width) && forall i :: 0 <= i < |records| ==> |records[i].row| == width
    ensures n <= seqNo + |records|
    decreases records
  {
    if records == [] then seqNo else SeqAfterAll(ix, width, SeqAfter(ix, seqNo, records[0]), records[1..])
  }

  /** These writes are made of these records, all deletes looking at the database `before`. */
  ghost predicate IsBatch(c: Codec, ix: PIndex, width: nat, before: map<Bytes, Row>, epoch: nat, seqNo: nat,
                          records: seq<Record>, ws: seq<RowWrite>)
    requires CodecOk(c) && InBounds(ix.index.columns, width) && RowsFit(records, width)
    requires epoch < U64 && seqNo + |records| < U64
    decreases records
  {
    |ws| == |records| &&
    (records != [] ==>
       IsWriteOf(c, ix, before, epoch, seqNo, records[0], ws[0]) &&
       IsBatch(c, ix, width, before, epoch, SeqAfter(ix, seqNo, records[0]), records[1..], ws[1..]))
  }

  ghost predicate WritesFit(secs: seq<PIndex>, ws: seq<RowWrite>) {
    forall i :: 0 <= i < |ws| ==> Fits(secs, |ws[i].row|)
  }

  ghost function WriteAll(c: Codec, secs: seq<PIndex>, db: Db, ws: seq<RowWrite>): (r: Db)
    requires CodecOk(c) && WritesFit(secs, ws) && |db.secondary| == |secs|
    ensures |r.secondary| == |secs|
    decreases ws
  {
    if ws == [] then db else WriteAll(c, secs, Write(c, secs, db, ws[0]), ws[1..])
  }

  lemma {:induction false} BatchRows(c: Codec, ix: PIndex, width: nat, before: map<Bytes, Row>, epoch: nat,
                                     seqNo: nat, records: seq<Record>, ws: seq<RowWrite>, secs: seq<PIndex>)
    requires CodecOk(c) && InBounds(ix.index.columns, width) && RowsFit(records, width)
    requires epoch < U64 && seqNo + |records| < U64 && Fits(secs, width)
    requires IsBatch(c, ix, width, before, epoch, seqNo, records, ws)
    ensures forall i :: 0 <= i < |ws| ==> ws[i].row == records[i].row
    ensures WritesFit(secs, ws)
    decreases records
  {
    if records != [] {
      BatchRows(c, ix, width, before, epoch, SeqAfter(ix, seqNo, records[0]), records[1..], ws[1..], secs);
      forall i | 0 <= i < |ws| ensures ws[i].row == records[i].row {
        if i > 0 {
          assert ws[i] == ws[1..][i - 1] && records[i] == records[1..][i - 1];
        }
      }
    }
  }

  /** The source's demand on a batch: each record in turn is possible and respects the unique keys,
      and a row that must be searched for was there before the batch and is deleted once. */
  ghost predicate BatchOk(schema: Schema, ix: PIndex, before: Bag, truth: Bag, gone: set<Row>, records: seq<Record>)
    requires InBounds(ix.index.columns, schema.width)
    decreases records
  {
    records != [] ==>
      var rec := records[0];
      |rec.row| == schema.width && Possible(truth, rec) && RespectsKeys(schema, ApplyTruth(truth, rec)) &&
      (rec.Negative? && !ByKeyAlone(ix, rec.row) ==> rec.row in before && rec.row !in gone) &&
      BatchOk(schema, ix, before, ApplyTruth(truth, rec), GoneAfter(gone, rec), records[1..])
  }

  ghost function GoneAfter(gone: set<Row>, rec: Record): set<Row> {
    if rec.Negative? then gone + {rec.row} else gone
  }

  /** Entries with a stamp stay as they were before the batch until their row is deleted. */
  ghost predicate StillThere(width: nat, ix: PIndex, before: map<Bytes, Row>, p: map<Bytes, Row>, gone: set<Row>)
    requires InBounds(ix.index.columns, width)
  {
    forall pk :: pk in before && |before[pk]| == width && !ByKeyAlone(ix, before[pk]) && before[pk] !in gone ==>
      pk in p && p[pk] == before[pk]
  }

  /** The entry that a delete finds is there, and holds the row. */
  lemma FoundIsThere(c: Codec, schema: Schema, st: Store, truth: Bag, before: map<Bytes, Row>, gone: set<Row>,
                     row: Row, pk: Bytes)
    requires CodecOk(c) && Inv(c, schema, st, truth) && |row| == schema.width && row in truth
    requires StillThere(schema.width, st.indices[0], before, st.db.primary, gone)
    requires !ByKeyAlone(st.indices[0], row) ==> row !in gone
    requires Finds(c, st.indices[0], before, row, pk)
    ensures pk in st.db.primary && st.db.primary[pk] == row
  {
    if ByKeyAlone(st.indices[0], row) {
      var q := RowIsSomewhere(st.db.primary, truth, row);
    }
  }

  ghost function AfterRecord(c: Codec, schema: Schema, st: Store, rec: Record, w: RowWrite): Store
    requires CodecOk(c) && |st.indices| > 0 && Fits(st.indices, schema.width) && |rec.row| == schema.width
    requires w.row == rec.row && |st.db.secondary| == |st.indices| - 1
  {
    st.(db := Write(c, st.indices[1..], st.db, w), seqNo := SeqAfter(st.indices[0], st.seqNo, rec))
  }

  lemma StillThereAfterPut(width: nat, ix: PIndex, before: map<Bytes, Row>, p: map<Bytes, Row>, gone: set<Row>,
                           pk: Bytes, row: Row)
    requires InBounds(ix.index.columns, width) && StillThere(width, ix, before, p, gone) && pk !in p
    ensures StillThere(width, ix, before, p[pk := row], gone)
  {
  }

  lemma StillThereAfterDel(width: nat, ix: PIndex, before: map<Bytes, Row>, p: map<Bytes, Row>, gone: set<Row>,
                           pk: Bytes)
    requires InBounds(ix.index.columns, width) && StillThere(width, ix, before, p, gone) && pk in p
    ensures StillThere(width, ix, before, p - {pk}, gone + {p[pk]})
  {
  }

  lemma RecordKeepsInv(c: Codec, schema: Schema, st: Store, truth: Bag, before: map<Bytes, Row>, gone: set<Row>,
                       rec: Record, w: RowWrite)
    requires CodecOk(c) && Inv(c, schema, st, truth) && |rec.row| == schema.width && st.seqNo + 1 < U64
    requires KeysFit(c, st.indices, rec.row)
    requires StillThere(schema.width, st.indices[0], before, st.db.primary, gone)
    requires Possible(truth, rec) && RespectsKeys(schema, ApplyTruth(truth, rec))
    requires rec.Negative? && !ByKeyAlone(st.indices[0], rec.row) ==> rec.row !in gone
    requires IsWriteOf(c, st.indices[0], before, st.epoch, st.seqNo, rec, w)
    ensures Inv(c, schema, AfterRecord(c, schema, st, rec, w), ApplyTruth(truth, rec))
    ensures StillThere(schema.width, st.indices[0], before, WritePrimary(st.db.primary, w), GoneAfter(gone, rec))
  {
    match rec
    case Positive(row) =>
      PutKeepsInv(c, schema, st, truth, row);
      StillThereAfterPut(schema.width, st.indices[0], before, st.db.primary, gone, w.pk, row);
    case Negative(row) =>
      FoundIsThere(c, schema, st, truth, before, gone, row, w.pk);
      DelKeepsInv(c, schema, st, truth, w.pk);
      StillThereAfterDel(schema.width, st.indices[0], before, st.db.primary, gone, w.pk);
  }

  /** A batch turns the store of a table into the store of the table with the batch applied. */
  lemma {:induction false} BatchKeepsInv(c: Codec, schema: Schema, st: Store, truth: Bag, before: map<Bytes, Row>,
                                         was: Bag, gone: set<Row>, records: seq<Record>, ws: seq<RowWrite>)
    requires CodecOk(c) && Inv(c, schema, st, truth) && st.seqNo + |records| < U64
    requires BatchFits(c, st.indices, records)
    requires StillThere(schema.width, st.indices[0], before, st.db.primary, gone)
    requires BatchOk(schema, st.indices[0], was, truth, gone, records) && RowsFit(records, schema.width)
    requires IsBatch(c, st.indices[0], schema.width, before, st.epoch, st.seqNo, records, ws)
    requires WritesFit(st.indices[1..], ws)
    ensures Inv(c, schema, st.(db := WriteAll(c, st.indices[1..], st.db, ws),
                               seqNo := SeqAfterAll(st.indices[0], schema.width, st.seqNo, records)),
                BatchTruth(truth, records))
    decreases records
  {
    if records != [] {
      var rec, w := records[0], ws[0];
      RecordKeepsInv(c, schema, st, truth, before, gone, rec, w);
      var st' := AfterRecord(c, schema, st, rec, w);
      BatchKeepsInv(c, schema, st', ApplyTruth(truth, rec), before, was, GoneAfter(gone, rec), records[1..], ws[1..]);
      assert st'.(db := WriteAll(c, st.indices[1..], st'.db, ws[1..]),
                  seqNo := SeqAfterAll(st.indices[0], schema.width, st'.seqNo, records[1..])) ==
             st.(db := WriteAll(c, st.indices[1..], st.db, ws),
                 seqNo := SeqAfterAll(st.indices[0], schema.width, st.seqNo, records));
    }
  }

  lemma {:induction false} LexAntisymmetric(a: Bytes, b: Bytes)
    requires LexLeq(a, b) && LexLeq(b, a)
    ensures a == b
  {
    if a != [] {
      LexAntisymmetric(a[1..], b[1..]);
      assert a == [a[0]] + a[1..] && b == [b[0]] + b[1..];
    }
  }

  /** The demand is needed: deleting a row twice in one batch, where both deletes must search for it,
      takes away one copy only. */
  lemma {:induction false} SecondDeleteIsLost(c: Codec, schema: Schema, st: Store, truth: Bag, row: Row,
                                              ws: seq<RowWrite>)
    requires CodecOk(c) && Inv(c, schema, st, truth) && |row| == schema.width && st.seqNo + 2 < U64
    requires truth[row] >= 2 && !ByKeyAlone(st.indices[0], row)
    requires IsBatch(c, st.indices[0], schema.width, st.db.primary, st.epoch, st.seqNo,
                     [Negative(row), Negative(row)], ws)
    ensures WritesFit(st.indices[1..], ws)
    ensures var p := WriteAll(c, st.indices[1..], st.db, ws).primary;
            Represents(p, truth - multiset{row}) &&
            !Represents(p, BatchTruth(truth, [Negative(row), Negative(row)]))
  {
    BothFindTheSame(c, st.indices[0], schema.width, st.db.primary, st.epoch, st.seqNo, row, ws);
    DeletedTwice(c, st.indices[1..], st.db, ws[0]);
    OneCopyStays(st.db.primary, truth, ws[0].pk);
  }

  lemma OneCopyStays(p: map<Bytes, Row>, truth: Bag, pk: Bytes)
    requires Represents(p, truth) && pk in p && truth[p[pk]] >= 2
    ensures Represents(p - {pk}, truth - multiset{p[pk]})
    ensures !Represents(p - {pk}, BatchTruth(truth, [Negative(p[pk]), Negative(p[pk])]))
  {
    var row := p[pk];
    DelRepresents(p, truth, pk);
    TruthAfterTwo(truth, row);
    RepresentsOnlyOne(p - {pk}, truth - multiset{row}, BatchTruth(truth, [Negative(row), Negative(row)]), row);
  }

  lemma RepresentsOnlyOne(p: map<Bytes, Row>, a: Bag, b: Bag, row: Row)
    requires Represents(p, a) && a[row] != b[row]
    ensures !Represents(p, b)
  {
    assert a[row] == |PksOf(p, row)|;
  }

  lemma BothFindTheSame(c: Codec, ix: PIndex, width: nat, before: map<Bytes, Row>, epoch: nat, seqNo: nat,
                        row: Row, ws: seq<RowWrite>)
    requires CodecOk(c) && InBounds(ix.index.columns, width) && |row| == width && epoch < U64 && seqNo + 2 < U64
    requires !ByKeyAlone(ix, row)
    requires IsBatch(c, ix, width, before, epoch, seqNo, [Negative(row), Negative(row)], ws)
    ensures |ws| == 2 && ws[0] == ws[1] && ws == [ws[0], ws[0]]
    ensures ws[0].Del? && ws[0].row == row && ws[0].pk in before && before[ws[0].pk] == row
  {
    assert [Negative(row), Negative(row)][1..] == [Negative(row)];
    assert IsBatch(c, ix, width, before, epoch, seqNo, [Negative(row)], ws[1..]);
    LexAntisymmetric(ws[0].pk, ws[1].pk);
  }

  lemma DeletedTwice(c: Codec, secs: seq<PIndex>, db: Db, w: RowWrite)
    requires CodecOk(c) && Fits(secs, |w.row|) && |db.secondary| == |secs| && w.Del?
    ensures WriteAll(c, secs, db, [w, w]).primary == db.primary - {w.pk}
  {
    var db' := Write(c, secs, db, w);
    assert [w, w][1..] == [w];
    assert WriteAll(c, secs, db, [w, w]) == WriteAll(c, secs, db', [w]);
    assert WriteAll(c, secs, db', [w]) == Write(c, secs, db', w);
  }

  lemma TruthAfterTwo(truth: Bag, row: Row)
    ensures BatchTruth(truth, [Negative(row), Negative(row)]) == truth - multiset{row} - multiset{row}
  {
    assert [Negative(row), Negative(row)][1..] == [Negative(row)];
    assert BatchTruth(truth - multiset{row}, [Negative(row)]) == truth - multiset{row} - multiset{row};
  }

  // ---------------------------------------------------------------- runs

  /** `Reopen` loads the state again: its epoch is one higher and its counter starts over.
      `AddSecondary` builds an index over the rows already there. */
  datatype Op =
    | WriteBatch(records: seq<Record>, writes: seq<RowWrite>)
    | Reopen
    | AddSecondary(index: Index, entries: map<Bytes, Bytes>)

  ghost predicate Enabled(c: Codec, schema: Schema, st: Store, truth: Bag, op: Op)
    requires CodecOk(c) && Inv(c, schema, st, truth)
  {
    match op
    case WriteBatch(records, ws) =>
      RowsFit(records, schema.width) && st.seqNo + |records| < U64 && WritesFit(st.indices[1..], ws) &&
      BatchFits(c, st.indices, records) &&
      BatchOk(schema, st.indices[0], truth, truth, {}, records) &&
      IsBatch(c, st.indices[0], schema.width, st.db.primary, st.epoch, st.seqNo, records, ws)
    case Reopen => st.epoch + 1 < U64
    case AddSecondary(index, entries) =>
      InBounds(index.columns, schema.width) &&
      SecondaryOk(c, PersistentIndex(schema, index), entries, st.db.primary)
  }

  function PersistentIndex(schema: Schema, index: Index): PIndex {
    PIndex(index, CheckIndexIsUnique(schema.uniqueKeys, index.columns))
  }

  ghost function WithIndex(st: Store, ix: PIndex, entries: map<Bytes, Bytes>): Store {
    st.(indices := st.indices + [ix], db := Db(st.db.primary, st.db.secondary + [entries]))
  }

  ghost function Step(c: Codec, schema: Schema, st: Store, truth: Bag, op: Op): Store
    requires CodecOk(c) && Inv(c, schema, st, truth) && Enabled(c, schema, st, truth, op)
  {
    match op
    case WriteBatch(records, ws) =>
      st.(db := WriteAll(c, st.indices[1..], st.db, ws),
          seqNo := SeqAfterAll(st.indices[0], schema.width, st.seqNo, records))
    case Reopen => st.(epoch := st.epoch + 1, seqNo := 0)
    case AddSecondary(index, entries) => WithIndex(st, PersistentIndex(schema, index), entries)
  }

  ghost function StepTruth(truth: Bag, op: Op): Bag {
    if op.WriteBatch? then BatchTruth(truth, op.records) else truth
  }

  lemma ReopenKeepsInv(c: Codec, schema: Schema, st: Store, truth: Bag)
    requires CodecOk(c) && Inv(c, schema, st, truth) && st.epoch + 1 < U64
    ensures Inv(c, schema, st.(epoch := st.epoch + 1, seqNo := 0), truth)
  {
    forall pk | pk in st.db.primary
      ensures PkShape(c, st.indices[0], st.db.primary[pk], pk, st.epoch + 1, 0)
    {
      PkShapeLater(c, st.indices[0], st.db.primary[pk], pk, st.epoch, st.seqNo, st.epoch + 1, 0);
    }
  }

  lemma AddKeepsInv(c: Codec, schema: Schema, st: Store, truth: Bag, index: Index, entries: map<Bytes, Bytes>)
    requires CodecOk(c) && Inv(c, schema, st, truth) && InBounds(index.columns, schema.width)
    requires SecondaryOk(c, PersistentIndex(schema, index), entries, st.db.primary)
    ensures Inv(c, schema, WithIndex(st, PersistentIndex(schema, index), entries), truth)
  {
    var ix := PersistentIndex(schema, index);
    var st' := WithIndex(st, ix, entries);
    assert st'.indices[1..] == st.indices[1..] + [ix];
    assert forall i :: 0 <= i < |st.db.secondary| ==> st'.db.secondary[i] == st.db.secondary[i];
  }

  lemma StepKeepsInv(c: Codec, schema: Schema, st: Store, truth: Bag, op: Op)
    requires CodecOk(c) && Inv(c, schema, st, truth) && Enabled(c, schema, st, truth, op)
    ensures Inv(c, schema, Step(c, schema, st, truth, op), StepTruth(truth, op))
  {
    match op
    case WriteBatch(records, ws) =>
      BatchKeepsInv(c, schema, st, truth, st.db.primary, truth, {}, records, ws);
    case Reopen =>
      ReopenKeepsInv(c, schema, st, truth);
    case AddSecondary(index, entries) =>
      AddKeepsInv(c, schema, st, truth, index, entries);
  }

  ghost predicate Runs(c: Codec, schema: Schema, st: Store, truth: Bag, ops: seq<Op>)
    requires CodecOk(c) && Inv(c, schema, st, truth)
    decreases ops
  {
    ops != [] ==>
      Enabled(c, schema, st, truth, ops[0]) &&
      (StepKeepsInv(c, schema, st, truth, ops[0]);
       Runs(c, schema, Step(c, schema, st, truth, ops[0]), StepTruth(truth, ops[0]), ops[1..]))
  }

  ghost function Run(c: Codec, schema: Schema, st: Store, truth: Bag, ops: seq<Op>): Store
    requires CodecOk(c) && Inv(c, schema, st, truth) && Runs(c, schema, st, truth, ops)
    decreases ops
  {
    if ops == [] then st
    else
      StepKeepsInv(c, schema, st, truth, ops[0]);
      Run(c, schema, Step(c, schema, st, truth, ops[0]), StepTruth(truth, ops[0]), ops[1..])
  }

  ghost function RunTruth(truth: Bag, ops: seq<Op>): Bag
    decreases ops
  {
    if ops == [] then truth else RunTruth(StepTruth(truth, ops[0]), ops[1..])
  }

  /** A table just created: only its primary index, and no rows. */
  function Created(schema: Schema, columns: seq<nat>): Store {
    Store([PersistentIndex(schema, Index(columns, HashMap))], Db(map[], []), 0, 0)
  }

  lemma CreatedInv(c: Codec, schema: Schema, columns: seq<nat>)
    requires CodecOk(c) && InBounds(columns, schema.width)
    ensures Inv(c, schema, Created(schema, columns), multiset{})
  {
    forall r: Row ensures |PksOf(map[], r)| == 0 {
      assert PksOf(map[], r) == {};
    }
  }

  /** Along every run the store is the table that the records make, in all its indices. */
  lemma {:induction false} RunKeepsInv(c: Codec, schema: Schema, st: Store, truth: Bag, ops: seq<Op>)
    requires CodecOk(c) && Inv(c, schema, st, truth) && Runs(c, schema, st, truth, ops)
    ensures Inv(c, schema, Run(c, schema, st, truth, ops), RunTruth(truth, ops))
    decreases ops
  {
    if ops != [] {
      StepKeepsInv(c, schema, st, truth, ops[0]);
      RunKeepsInv(c, schema, Step(c, schema, st, truth, ops[0]), StepTruth(truth, ops[0]), ops[1..]);
    }
  }

  ghost predicate RunsFromNew(c: Codec, schema: Schema, columns: seq<nat>, ops: seq<Op>)
    requires CodecOk(c) && InBounds(columns, schema.width)
  {
    CreatedInv(c, schema, columns);
    Runs(c, schema, Created(schema, columns), multiset{}, ops)
  }

  /** The store after a run that starts with a new table: it is the table that the records make. */
  ghost function RunFromNew(c: Codec, schema: Schema, columns: seq<nat>, ops: seq<Op>): (st: Store)
    requires CodecOk(c) && InBounds(columns, schema.width) && RunsFromNew(c, schema, columns, ops)
    ensures Inv(c, schema, st, RunTruth(multiset{}, ops))
  {
    CreatedInv(c, schema, columns);
    RunKeepsInv(c, schema, Created(schema, columns), multiset{}, ops);
    Run(c, schema, Created(schema, columns), multiset{}, ops)
  }
}

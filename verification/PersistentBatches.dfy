/** Exactly which batches are written right. Deletes that must search for their row look at the database
    as it was before the batch, so they all find the same entry. */
module PersistentBatches {
  import opened Options
  import opened ByteStrings
  import opened StateTypes
  import opened KeyEncoding
  import opened PersistentModel
  import opened PersistentTable
  import opened PersistentRuns
  import opened PersistentLookup

  /** Each record in turn is possible and respects the unique keys: what a caller of the state owes. */
  ghost predicate Allowed(schema: Schema, truth: Bag, records: seq<Record>)
    decreases records
  {
    records != [] ==>
      |records[0].row| == schema.width && Possible(truth, records[0]) &&
      RespectsKeys(schema, ApplyTruth(truth, records[0])) &&
      Allowed(schema, ApplyTruth(truth, records[0]), records[1..])
  }

  /** A delete of this row must search for its entry. */
  predicate MustSearch(ix: PIndex, width: nat, rec: Record)
    requires InBounds(ix.index.columns, width)
  {
    rec.Negative? && |rec.row| == width && !ByKeyAlone(ix, rec.row)
  }

  /** Every row that must be searched for was in the table before the batch. */
  ghost predicate SearchedWereThere(ix: PIndex, width: nat, before: Bag, records: seq<Record>)
    requires InBounds(ix.index.columns, width)
  {
    forall i :: 0 <= i < |records| && MustSearch(ix, width, records[i]) ==> records[i].row in before
  }

  function Deletes(records: seq<Record>, row: Row): nat {
    if records == [] then 0 else (if records[0] == Negative(row) then 1 else 0) + Deletes(records[1..], row)
  }

  function Inserts(records: seq<Record>, row: Row): nat {
    if records == [] then 0 else (if records[0] == Positive(row) then 1 else 0) + Inserts(records[1..], row)
  }

  /** Every row that must be searched for is deleted once. */
  ghost predicate SearchedOnce(ix: PIndex, width: nat, records: seq<Record>)
    requires InBounds(ix.index.columns, width)
  {
    forall row: Row :: MustSearch(ix, width, Negative(row)) ==> Deletes(records, row) <= 1
  }

  ghost predicate Searchable(ix: PIndex, width: nat, before: Bag, records: seq<Record>)
    requires InBounds(ix.index.columns, width)
  {
    SearchedWereThere(ix, width, before, records) && SearchedOnce(ix, width, records)
  }

  // ---------------------------------------------------------------- the demand in two parts

  /** No row that must be searched for is deleted a second time, those already gone counted. */
  ghost predicate NotAgain(ix: PIndex, width: nat, gone: set<Row>, records: seq<Record>)
    requires InBounds(ix.index.columns, width)
    decreases records
  {
    records != [] ==>
      (MustSearch(ix, width, records[0]) ==> records[0].row !in gone) &&
      NotAgain(ix, width, GoneAfter(gone, records[0]), records[1..])
  }

  lemma {:induction false} NotAgainIff(ix: PIndex, width: nat, gone: set<Row>, records: seq<Record>)
    requires InBounds(ix.index.columns, width)
    ensures NotAgain(ix, width, gone, records) <==>
            forall row: Row :: MustSearch(ix, width, Negative(row)) ==>
              Deletes(records, row) + (if row in gone then 1 else 0) <= 1 || Deletes(records, row) == 0
    decreases records
  {
    if records != [] {
      var gone' := GoneAfter(gone, records[0]);
      NotAgainIff(ix, width, gone', records[1..]);
      if MustSearch(ix, width, records[0]) {
        assert Deletes(records, records[0].row) >= 1;
      }
    }
  }

  lemma {:induction false} BatchOkParts(schema: Schema, ix: PIndex, was: Bag, truth: Bag, gone: set<Row>,
                                        records: seq<Record>)
    requires InBounds(ix.index.columns, schema.width) && Allowed(schema, truth, records)
    ensures BatchOk(schema, ix, was, truth, gone, records) <==>
            SearchedWereThere(ix, schema.width, was, records) && NotAgain(ix, schema.width, gone, records)
    decreases records
  {
    if records != [] {
      BatchOkParts(schema, ix, was, ApplyTruth(truth, records[0]), GoneAfter(gone, records[0]), records[1..]);
      WereThereCons(ix, schema.width, was, records);
    }
  }

  lemma WereThereCons(ix: PIndex, width: nat, was: Bag, records: seq<Record>)
    requires InBounds(ix.index.columns, width) && records != []
    ensures SearchedWereThere(ix, width, was, records) <==>
            (MustSearch(ix, width, records[0]) ==> records[0].row in was) &&
            SearchedWereThere(ix, width, was, records[1..])
  {
    assert forall i :: 1 <= i < |records| ==> records[i] == records[1..][i - 1];
    assert forall i :: 0 <= i < |records| - 1 ==> records[1..][i] == records[i + 1];
  }

  /** A batch of allowed records is what the source can write exactly if every row that must be searched
      for was there before and is deleted once. */
  lemma BatchOkIff(schema: Schema, ix: PIndex, truth: Bag, records: seq<Record>)
    requires InBounds(ix.index.columns, schema.width) && Allowed(schema, truth, records)
    ensures BatchOk(schema, ix, truth, truth, {}, records) <==> Searchable(ix, schema.width, truth, records)
  {
    BatchOkParts(schema, ix, truth, truth, {}, records);
    NotAgainIff(ix, schema.width, {}, records);
  }

  lemma {:induction false} AllowedFits(schema: Schema, truth: Bag, records: seq<Record>)
    requires Allowed(schema, truth, records)
    ensures RowsFit(records, schema.width)
    decreases records
  {
    if records != [] {
      AllowedFits(schema, ApplyTruth(truth, records[0]), records[1..]);
      assert forall i :: 1 <= i < |records| ==> records[i] == records[1..][i - 1];
    }
  }

  /** What allowed records make of the copies of one row. */
  lemma {:induction false} CopiesAfter(schema: Schema, truth: Bag, records: seq<Record>, row: Row)
    requires Allowed(schema, truth, records)
    ensures BatchTruth(truth, records)[row] + Deletes(records, row) == truth[row] + Inserts(records, row)
    decreases records
  {
    if records != [] {
      CopiesAfter(schema, ApplyTruth(truth, records[0]), records[1..], row);
    }
  }

  // ---------------------------------------------------------------- which batches can be written

  lemma {:induction false} LexTotal(a: Bytes, b: Bytes)
    ensures LexLeq(a, b) || LexLeq(b, a)
  {
    if a != [] && b != [] && a[0] == b[0] {
      LexTotal(a[1..], b[1..]);
    }
  }

  lemma {:induction false} LeastOf(keys: set<Bytes>) returns (least: Bytes)
    requires keys != {}
    ensures least in keys && forall k :: k in keys ==> LexLeq(least, k)
    decreases keys
  {
    var first :| first in keys;
    LexTotal(first, first);
    least := first;
    if keys != {first} {
      var other := LeastOf(keys - {first});
      LexTotal(first, other);
      if LexLeq(first, other) {
        forall k | k in keys ensures LexLeq(first, k) {
          if k != first {
            LexTransitive(first, other, k);
          }
        }
      } else {
        least := other;
        assert forall k :: k in keys ==> k == first || k in keys - {first};
      }
    }
  }

  /** A row of the table has an entry that a delete finds. */
  lemma EntryIsFound(c: Codec, schema: Schema, st: Store, truth: Bag, row: Row) returns (pk: Bytes)
    requires CodecOk(c) && Inv(c, schema, st, truth) && |row| == schema.width && row in truth
    ensures Finds(c, st.indices[0], st.db.primary, row, pk)
  {
    var ix, p := st.indices[0], st.db.primary;
    var prefix := c.prefix(KeyOf(ix.index.columns, row));
    if ByKeyAlone(ix, row) {
      pk := prefix;
    } else {
      var some := RowIsSomewhere(p, truth, row);
      PrimaryViewOk(c, schema, ix, p, st.epoch, st.seqNo);
      StartsIffSamePrefix(c, ix, row, some, KeyOf(ix.index.columns, row));
      var keys := set q | q in p && prefix <= q && p[q] == row;
      assert some in keys;
      pk := LeastOf(keys);
    }
  }

  /** The writes of a batch, if every row that must be searched for was there. */
  lemma {:induction false} BatchIsBuilt(c: Codec, schema: Schema, st: Store, truth: Bag, seqNo: nat,
                                        records: seq<Record>)
    returns (ws: seq<RowWrite>)
    requires CodecOk(c) && Inv(c, schema, st, truth) && RowsFit(records, schema.width) && seqNo + |records| < U64
    requires SearchedWereThere(st.indices[0], schema.width, truth, records)
    ensures IsBatch(c, st.indices[0], schema.width, st.db.primary, st.epoch, seqNo, records, ws)
    decreases records
  {
    if records == [] {
      ws := [];
    } else {
      var ix, rec := st.indices[0], records[0];
      WereThereCons(ix, schema.width, truth, records);
      var rest := BatchIsBuilt(c, schema, st, truth, SeqAfter(ix, seqNo, rec), records[1..]);
      var w: RowWrite;
      match rec {
        case Positive(row) =>
          w := Put(NewPk(c, ix, row, st.epoch, seqNo), row);
        case Negative(row) =>
          var pk := c.prefix(KeyOf(ix.index.columns, row));
          if !ByKeyAlone(ix, row) {
            pk := EntryIsFound(c, schema, st, truth, row);
          }
          w := Del(pk, row);
      }
      ws := [w] + rest;
      assert ws[1..] == rest;
    }
  }

  /** A batch that is written found every row that it had to search for. */
  lemma {:induction false} BuiltWasFound(c: Codec, ix: PIndex, width: nat, before: map<Bytes, Row>, truth: Bag,
                                         epoch: nat, seqNo: nat, records: seq<Record>, ws: seq<RowWrite>)
    requires CodecOk(c) && InBounds(ix.index.columns, width) && RowsFit(records, width)
    requires epoch < U64 && seqNo + |records| < U64 && Represents(before, truth)
    requires IsBatch(c, ix, width, before, epoch, seqNo, records, ws)
    ensures SearchedWereThere(ix, width, truth, records)
    decreases records
  {
    if records != [] {
      BuiltWasFound(c, ix, width, before, truth, epoch, SeqAfter(ix, seqNo, records[0]), records[1..], ws[1..]);
      WereThereCons(ix, width, truth, records);
      if MustSearch(ix, width, records[0]) {
        RepresentedRow(before, truth, ws[0].pk);
      }
    }
  }

  // ---------------------------------------------------------------- what a batch leaves of a row

  /** Entries of one row that no delete of the batch finds: stamped, and either new or other than the one
      entry that is found. */
  ghost predicate Lasting(c: Codec, ix: PIndex, before: map<Bytes, Row>, row: Row, found: Bytes, pks: set<Bytes>,
                          epoch: nat, seqNo: nat)
    requires CodecOk(c) && InBounds(ix.index.columns, |row|)
  {
    forall pk :: pk in pks ==>
      StampedBy(c, KeyOf(ix.index.columns, row), pk, epoch, seqNo) && pk != found &&
      (pk in before ==> before[pk] == row)
  }

  lemma LastingLater(c: Codec, ix: PIndex, before: map<Bytes, Row>, row: Row, found: Bytes, pks: set<Bytes>,
                     epoch: nat, seqNo: nat, seqNo': nat)
    requires CodecOk(c) && InBounds(ix.index.columns, |row|) && seqNo <= seqNo'
    requires Lasting(c, ix, before, row, found, pks, epoch, seqNo)
    ensures Lasting(c, ix, before, row, found, pks, epoch, seqNo')
  {
    var key := KeyOf(ix.index.columns, row);
    forall pk | pk in pks ensures StampedBy(c, key, pk, epoch, seqNo') {
      var e, s :| Stamped(c, key, pk, e, s) && NotAfter(e, s, epoch, seqNo);
      assert NotAfter(e, s, epoch, seqNo');
    }
  }

  /** A put does not touch them. */
  lemma PutElsewhere(c: Codec, ix: PIndex, before: map<Bytes, Row>, row: Row, found: Bytes, pks: set<Bytes>,
                     epoch: nat, seqNo: nat, other: Row)
    requires CodecOk(c) && InBounds(ix.index.columns, |row|) && |other| == |row| && !ByKeyAlone(ix, row)
    requires epoch < U64 && seqNo + 1 < U64 && Lasting(c, ix, before, row, found, pks, epoch, seqNo)
    requires KeyFits(c, ix, row) && KeyFits(c, ix, other)
    ensures NewPk(c, ix, other, epoch, seqNo) !in pks
  {
    forall pk | pk in pks ensures pk != NewPk(c, ix, other, epoch, seqNo) {
      NewPkIsFresh(c, ix, other, epoch, seqNo, row, pk);
    }
  }

  /** A delete does not touch them either. */
  lemma DelElsewhere(c: Codec, ix: PIndex, before: map<Bytes, Row>, row: Row, found: Bytes, pks: set<Bytes>,
                     epoch: nat, seqNo: nat, other: Row, pk: Bytes)
    requires CodecOk(c) && InBounds(ix.index.columns, |row|) && |other| == |row| && !ByKeyAlone(ix, row)
    requires Lasting(c, ix, before, row, found, pks, epoch, seqNo)
    requires Finds(c, ix, before, row, found) && Finds(c, ix, before, other, pk)
    requires KeyFits(c, ix, row) && KeyFits(c, ix, other)
    ensures pk !in pks
  {
    if ByKeyAlone(ix, other) {
      if pk in pks {
        var key := KeyOf(ix.index.columns, row);
        var e, s :| Stamped(c, key, pk, e, s) && NotAfter(e, s, epoch, seqNo);
        assert pk == c.prefix(KeyOf(ix.index.columns, other)) + [];
        Unambiguous(c, KeyOf(ix.index.columns, other), [], key, c.stamp(e, s));
      }
    } else if other == row {
      LexAntisymmetric(pk, found);
    }
  }

  ghost function WritePrimaries(p: map<Bytes, Row>, ws: seq<RowWrite>): map<Bytes, Row>
    decreases ws
  {
    if ws == [] then p else WritePrimaries(WritePrimary(p, ws[0]), ws[1..])
  }

  lemma {:induction false} PrimariesOfAll(c: Codec, secs: seq<PIndex>, db: Db, ws: seq<RowWrite>)
    requires CodecOk(c) && WritesFit(secs, ws) && |db.secondary| == |secs|
    ensures WriteAll(c, secs, db, ws).primary == WritePrimaries(db.primary, ws)
    decreases ws
  {
    if ws != [] {
      PrimariesOfAll(c, secs, Write(c, secs, db, ws[0]), ws[1..]);
    }
  }

  /** One write leaves the entries that last, and an insert of the row adds one. */
  lemma LastingStep(c: Codec, ix: PIndex, before: map<Bytes, Row>, row: Row, found: Bytes, pks: set<Bytes>,
                    p: map<Bytes, Row>, epoch: nat, seqNo: nat, rec: Record, w: RowWrite) returns (pks': set<Bytes>)
    requires CodecOk(c) && InBounds(ix.index.columns, |row|) && |rec.row| == |row| && epoch < U64 && seqNo + 1 < U64
    requires IsWriteOf(c, ix, before, epoch, seqNo, rec, w) && !ByKeyAlone(ix, row) && Finds(c, ix, before, row, found)
    requires Lasting(c, ix, before, row, found, pks, epoch, seqNo) && pks <= PksOf(p, row)
    requires NewIsNew(c, ix, before, row, epoch, seqNo) && KeyFits(c, ix, row) && KeyFits(c, ix, rec.row)
    ensures Lasting(c, ix, before, row, found, pks', epoch, SeqAfter(ix, seqNo, rec))
    ensures pks' <= PksOf(WritePrimary(p, w), row)
    ensures |pks'| == |pks| + if rec == Positive(row) then 1 else 0
  {
    pks' := pks;
    LastingLater(c, ix, before, row, found, pks, epoch, seqNo, SeqAfter(ix, seqNo, rec));
    match rec
    case Positive(other) =>
      PutElsewhere(c, ix, before, row, found, pks, epoch, seqNo, other);
      OthersStay(p, row, pks, w);
      if other == row {
        NewIsLasting(c, ix, before, row, found, pks, epoch, seqNo);
        pks' := pks + {w.pk};
      }
    case Negative(other) =>
      DelElsewhere(c, ix, before, row, found, pks, epoch, seqNo, other, w.pk);
      OthersStay(p, row, pks, w);
  }

  /** A write to another entry leaves these. */
  lemma OthersStay(p: map<Bytes, Row>, row: Row, pks: set<Bytes>, w: RowWrite)
    requires pks <= PksOf(p, row) && w.pk !in pks
    ensures pks <= PksOf(WritePrimary(p, w), row)
    ensures w.Put? && w.row == row ==> pks + {w.pk} <= PksOf(WritePrimary(p, w), row)
  {
  }

  /** The entries that last are still there after the batch, with one more for each insert. */
  lemma {:induction false} LastingCopies(c: Codec, ix: PIndex, width: nat, before: map<Bytes, Row>, row: Row,
                                         found: Bytes, pks: set<Bytes>, p: map<Bytes, Row>, epoch: nat, seqNo: nat,
                                         records: seq<Record>, ws: seq<RowWrite>)
    requires CodecOk(c) && InBounds(ix.index.columns, width) && RowsFit(records, width) && |row| == width
    requires epoch < U64 && seqNo + |records| < U64
    requires IsBatch(c, ix, width, before, epoch, seqNo, records, ws)
    requires !ByKeyAlone(ix, row) && Finds(c, ix, before, row, found)
    requires Lasting(c, ix, before, row, found, pks, epoch, seqNo) && pks <= PksOf(p, row)
    requires NewIsNew(c, ix, before, row, epoch, seqNo) && KeyFits(c, ix, row) && BatchFits(c, [ix], records)
    ensures |PksOf(WritePrimaries(p, ws), row)| >= |pks| + Inserts(records, row)
    decreases records
  {
    if records == [] {
      Cardinality(pks, PksOf(p, row));
    } else {
      assert KeyFits(c, [ix][0], records[0].row);
      var pks' := LastingStep(c, ix, before, row, found, pks, p, epoch, seqNo, records[0], ws[0]);
      var seqNo' := SeqAfter(ix, seqNo, records[0]);
      NewStaysNew(c, ix, before, row, epoch, seqNo, seqNo');
      LastingCopies(c, ix, width, before, row, found, pks', WritePrimary(p, ws[0]), epoch, seqNo',
                    records[1..], ws[1..]);
    }
  }

  /** No stamp still to be given out is that of an entry that was there before the batch. */
  ghost predicate NewIsNew(c: Codec, ix: PIndex, before: map<Bytes, Row>, row: Row, epoch: nat, seqNo: nat)
    requires CodecOk(c) && InBounds(ix.index.columns, |row|)
  {
    forall s: nat :: s > seqNo && s < U64 && epoch < U64 ==>
      c.prefix(KeyOf(ix.index.columns, row)) + c.stamp(epoch, s) !in before
  }

  lemma NewStaysNew(c: Codec, ix: PIndex, before: map<Bytes, Row>, row: Row, epoch: nat, seqNo: nat, seqNo': nat)
    requires CodecOk(c) && InBounds(ix.index.columns, |row|) && seqNo <= seqNo' &&
             NewIsNew(c, ix, before, row, epoch, seqNo)
    ensures NewIsNew(c, ix, before, row, epoch, seqNo')
  {
  }

  lemma NewIsLasting(c: Codec, ix: PIndex, before: map<Bytes, Row>, row: Row, found: Bytes, pks: set<Bytes>,
                     epoch: nat, seqNo: nat)
    requires CodecOk(c) && InBounds(ix.index.columns, |row|) && epoch < U64 && seqNo + 1 < U64 && !ByKeyAlone(ix, row)
    requires Lasting(c, ix, before, row, found, pks, epoch, seqNo) && found in before &&
             NewIsNew(c, ix, before, row, epoch, seqNo) && KeyFits(c, ix, row)
    ensures Lasting(c, ix, before, row, found, pks + {NewPk(c, ix, row, epoch, seqNo)}, epoch, seqNo + 1)
  {
    LastingLater(c, ix, before, row, found, pks, epoch, seqNo, seqNo + 1);
    NewPkShape(c, ix, row, epoch, seqNo);
  }

  lemma Cardinality(a: set<Bytes>, b: set<Bytes>)
    requires a <= b
    ensures |a| <= |b|
  {
    assert b == a + (b - a);
  }

  lemma BeforeIsNew(c: Codec, schema: Schema, ix: PIndex, p: map<Bytes, Row>, row: Row, epoch: nat, seqNo: nat)
    requires CodecOk(c) && InBounds(ix.index.columns, schema.width) && |row| == schema.width && !ByKeyAlone(ix, row)
    requires PrimaryOk(c, schema, ix, p, epoch, seqNo) && KeyFits(c, ix, row)
    ensures NewIsNew(c, ix, p, row, epoch, seqNo)
  {
    var key := KeyOf(ix.index.columns, row);
    forall s: nat | s > seqNo && s < U64 && epoch < U64 ensures c.prefix(key) + c.stamp(epoch, s) !in p {
      var pk := c.prefix(key) + c.stamp(epoch, s);
      if pk in p {
        StampNotGiven(c, ix, p[pk], pk, key, epoch, seqNo, s);
      }
    }
  }

  lemma StampNotGiven(c: Codec, ix: PIndex, other: Row, pk: Bytes, key: Key, epoch: nat, seqNo: nat, s: nat)
    requires CodecOk(c) && InBounds(ix.index.columns, |other|) && PkShape(c, ix, other, pk, epoch, seqNo)
    requires |key| == |ix.index.columns| && c.fits(key) && s > seqNo && s < U64 && epoch < U64
    ensures pk != c.prefix(key) + c.stamp(epoch, s)
  {
    if pk == c.prefix(key) + c.stamp(epoch, s) {
      var extra := PkIsStored(c, ix, other, pk, epoch, seqNo);
      Unambiguous(c, KeyOf(ix.index.columns, other), extra, key, c.stamp(epoch, s));
      var e, n :| Stamped(c, key, pk, e, n) && NotAfter(e, n, epoch, seqNo);
      StampIsUnique(c, key, pk, e, n, epoch, s);
    }
  }

  lemma FitInPrimary(c: Codec, indices: seq<PIndex>, records: seq<Record>)
    requires indices != [] && BatchFits(c, indices, records)
    ensures BatchFits(c, [indices[0]], records)
  {
    forall i | 0 <= i < |records| ensures KeysFit(c, [indices[0]], records[i].row) {
      assert KeyFits(c, indices[0], records[i].row);
    }
  }

  lemma RowFitsPrimary(c: Codec, schema: Schema, ix: PIndex, p: map<Bytes, Row>, epoch: nat, seqNo: nat, pk: Bytes)
    requires CodecOk(c) && InBounds(ix.index.columns, schema.width) && PrimaryOk(c, schema, ix, p, epoch, seqNo)
    requires pk in p
    ensures KeyFits(c, ix, p[pk])
  {
  }

  /** A row that is deleted twice, where the deletes must search, keeps a copy too many. */
  lemma {:induction false} DeletedTwiceIsWrong(c: Codec, schema: Schema, st: Store, truth: Bag, records: seq<Record>,
                                               ws: seq<RowWrite>, row: Row)
    requires CodecOk(c) && Inv(c, schema, st, truth) && Allowed(schema, truth, records) &&
             RowsFit(records, schema.width) && BatchFits(c, st.indices, records)
    requires st.seqNo + |records| < U64 && WritesFit(st.indices[1..], ws)
    requires IsBatch(c, st.indices[0], schema.width, st.db.primary, st.epoch, st.seqNo, records, ws)
    requires MustSearch(st.indices[0], schema.width, Negative(row)) && Deletes(records, row) >= 2 && row in truth
    ensures !Represents(WriteAll(c, st.indices[1..], st.db, ws).primary, BatchTruth(truth, records))
  {
    var ix, p := st.indices[0], st.db.primary;
    var found := EntryIsFound(c, schema, st, truth, row);
    var pks := PksOf(p, row) - {found};
    assert found in PksOf(p, row) && |pks| == truth[row] - 1;
    RowFitsPrimary(c, schema, ix, p, st.epoch, st.seqNo, found);
    AllButOneLast(c, schema, ix, p, row, found, st.epoch, st.seqNo);
    BeforeIsNew(c, schema, ix, p, row, st.epoch, st.seqNo);
    FitInPrimary(c, st.indices, records);
    LastingCopies(c, ix, schema.width, p, row, found, pks, p, st.epoch, st.seqNo, records, ws);
    PrimariesOfAll(c, st.indices[1..], st.db, ws);
    CopiesAfter(schema, truth, records, row);
  }

  lemma AllButOneLast(c: Codec, schema: Schema, ix: PIndex, p: map<Bytes, Row>, row: Row, found: Bytes, epoch: nat,
                      seqNo: nat)
    requires CodecOk(c) && InBounds(ix.index.columns, schema.width) && |row| == schema.width && !ByKeyAlone(ix, row)
    requires PrimaryOk(c, schema, ix, p, epoch, seqNo)
    ensures Lasting(c, ix, p, row, found, PksOf(p, row) - {found}, epoch, seqNo)
  {
  }

  lemma {:induction false} DeletedIsRecord(records: seq<Record>, row: Row) returns (i: nat)
    requires Deletes(records, row) > 0
    ensures i < |records| && records[i] == Negative(row)
  {
    if records[0] == Negative(row) {
      i := 0;
    } else {
      var j := DeletedIsRecord(records[1..], row);
      i := j + 1;
    }
  }

  // ---------------------------------------------------------------- the exact condition

  /** The batch can be written, and the primary index then holds the table with the batch applied. */
  ghost predicate WrittenRight(c: Codec, schema: Schema, st: Store, truth: Bag, records: seq<Record>, ws: seq<RowWrite>)
    requires CodecOk(c) && Inv(c, schema, st, truth) && RowsFit(records, schema.width) && st.seqNo + |records| < U64
  {
    IsBatch(c, st.indices[0], schema.width, st.db.primary, st.epoch, st.seqNo, records, ws) &&
    WritesFit(st.indices[1..], ws) &&
    Represents(WriteAll(c, st.indices[1..], st.db, ws).primary, BatchTruth(truth, records))
  }

  /** Of a batch that is written, the result is right exactly if no row that must be searched for is
      deleted twice. */
  lemma {:induction false} WrittenRightIff(c: Codec, schema: Schema, st: Store, truth: Bag, records: seq<Record>,
                                           ws: seq<RowWrite>)
    requires CodecOk(c) && Inv(c, schema, st, truth) && Allowed(schema, truth, records) &&
             RowsFit(records, schema.width) && BatchFits(c, st.indices, records)
    requires st.seqNo + |records| < U64
    requires IsBatch(c, st.indices[0], schema.width, st.db.primary, st.epoch, st.seqNo, records, ws)
    ensures WritesFit(st.indices[1..], ws)
    ensures SearchedWereThere(st.indices[0], schema.width, truth, records)
    ensures WrittenRight(c, schema, st, truth, records, ws) <==> SearchedOnce(st.indices[0], schema.width, records)
  {
    var ix := st.indices[0];
    BatchRows(c, ix, schema.width, st.db.primary, st.epoch, st.seqNo, records, ws, st.indices[1..]);
    BuiltWasFound(c, ix, schema.width, st.db.primary, truth, st.epoch, st.seqNo, records, ws);
    if SearchedOnce(ix, schema.width, records) {
      BatchOkIff(schema, ix, truth, records);
      BatchKeepsInv(c, schema, st, truth, st.db.primary, truth, {}, records, ws);
    } else {
      var row: Row :| MustSearch(ix, schema.width, Negative(row)) && Deletes(records, row) > 1;
      var i := DeletedIsRecord(records, row);
      assert MustSearch(ix, schema.width, records[i]);
      DeletedTwiceIsWrong(c, schema, st, truth, records, ws, row);
    }
  }

  /** Records that are each possible and respect the unique keys, and whose keys can be encoded, are written,
      and written right, exactly if every row that must be searched for was in the table before the batch
      and is deleted once. */
  lemma {:induction false} BatchRightIff(c: Codec, schema: Schema, st: Store, truth: Bag, records: seq<Record>)
    requires CodecOk(c) && Inv(c, schema, st, truth) && Allowed(schema, truth, records) &&
             RowsFit(records, schema.width) && BatchFits(c, st.indices, records)
    requires st.seqNo + |records| < U64
    ensures (exists ws :: WrittenRight(c, schema, st, truth, records, ws)) <==>
            Searchable(st.indices[0], schema.width, truth, records)
  {
    if ws :| WrittenRight(c, schema, st, truth, records, ws) {
      WrittenRightIff(c, schema, st, truth, records, ws);
    }
    if Searchable(st.indices[0], schema.width, truth, records) {
      var ws := BatchIsBuilt(c, schema, st, truth, st.seqNo, records);
      WrittenRightIff(c, schema, st, truth, records, ws);
    }
  }
}

/** Restarts inside the construction of a late index. The index is made known first, and its entries are written
    without a log, so after a crash it is trusted with the entries of some of the rows. */
module PersistentCrash {
  import opened ByteStrings
  import opened StateTypes
  import opened KeyEncoding
  import opened PersistentModel
  import opened PersistentTable
  import opened PersistentRuns
  import opened PersistentLookup
  import opened PersistentCollisions

  // ---------------------------------------------------------------- what a crash leaves

  /** The entries of the first `n` rows that the construction walks through. */
  ghost function EntriesUpTo(c: Codec, ix: PIndex, p: map<Bytes, Row>, keys: seq<Bytes>, n: nat): map<Bytes, Bytes>
    requires n <= |keys| && forall i :: 0 <= i < |keys| ==> keys[i] in p && InBounds(ix.index.columns, |p[keys[i]]|)
  {
    if n == 0 then map[]
    else PutSecondary(c, ix, EntriesUpTo(c, ix, p, keys, n - 1), keys[n - 1], p[keys[n - 1]])
  }

  /** The entries are those of the first `n` rows. */
  ghost predicate BuiltUpTo(c: Codec, ix: PIndex, p: map<Bytes, Row>, keys: seq<Bytes>, n: nat, cf: map<Bytes, Bytes>)
    requires CodecOk(c) && n <= |keys|
  {
    SecondaryOk(c, ix, cf, Among(p, keys[..n]))
  }

  lemma NothingYet(c: Codec, ix: PIndex, p: map<Bytes, Row>, keys: seq<Bytes>)
    requires CodecOk(c)
    ensures BuiltUpTo(c, ix, p, keys, 0, map[])
  {
  }

  lemma OneMoreEntry(c: Codec, ix: PIndex, p: map<Bytes, Row>, keys: seq<Bytes>, n: nat, cf: map<Bytes, Bytes>)
    requires CodecOk(c) && n < |keys| && Distinct(keys) && [] !in p && RoomOnTheWay(c, ix, p, keys)
    requires BuiltUpTo(c, ix, p, keys, n, cf)
    ensures BuiltUpTo(c, ix, p, keys, n + 1, PutSecondary(c, ix, cf, keys[n], p[keys[n]]))
  {
    EntryAdded(c, ix, cf, p, keys, n);
  }

  lemma RowsInBounds(c: Codec, ix: PIndex, p: map<Bytes, Row>, keys: seq<Bytes>)
    requires RoomOnTheWay(c, ix, p, keys)
    ensures forall i :: 0 <= i < |keys| ==> keys[i] in p && InBounds(ix.index.columns, |p[keys[i]]|)
  {
  }

  lemma {:induction false} EntriesUpToOk(c: Codec, ix: PIndex, p: map<Bytes, Row>, keys: seq<Bytes>, n: nat)
    requires CodecOk(c) && n <= |keys| && Distinct(keys) && [] !in p && RoomOnTheWay(c, ix, p, keys)
    requires forall i :: 0 <= i < |keys| ==> keys[i] in p && InBounds(ix.index.columns, |p[keys[i]]|)
    ensures BuiltUpTo(c, ix, p, keys, n, EntriesUpTo(c, ix, p, keys, n))
  {
    if n == 0 {
      NothingYet(c, ix, p, keys);
    } else {
      EntriesUpToOk(c, ix, p, keys, n - 1);
      OneMoreEntry(c, ix, p, keys, n - 1, EntriesUpTo(c, ix, p, keys, n - 1));
    }
  }

  /** The rows that the construction had not reached. */
  ghost function Unreached(keys: seq<Bytes>, n: nat): set<Bytes>
    requires n <= |keys|
  {
    set k | k in keys[n..]
  }

  lemma ReachedRows(p: map<Bytes, Row>, keys: seq<Bytes>, n: nat)
    requires Iterates(keys, p) && n <= |keys|
    ensures Unreached(keys, n) <= p.Keys && Among(p, keys[..n]) == p - Unreached(keys, n)
    ensures Among(p, keys[..|keys|]) == p
  {
    forall k | k in p ensures k in keys[..n] <==> k !in keys[n..] {
      assert k in keys;
      var i :| 0 <= i < |keys| && keys[i] == k;
      if i < n {
        assert keys[..n][i] == k;
      } else {
        assert keys[n..][i - n] == k;
      }
    }
    assert keys[..|keys|] == keys;
  }

  // ---------------------------------------------------------------- writes to such an index

  /** The entry of a missing row is not there, nor another one in its place. */
  lemma EntryIsMissing(c: Codec, schema: Schema, st: Store, truth: Bag, ix: PIndex, cf: map<Bytes, Bytes>,
                       missing: set<Bytes>, pk: Bytes)
    requires CodecOk(c) && Inv(c, schema, st, truth) && missing <= st.db.primary.Keys && pk in missing
    requires InBounds(ix.index.columns, schema.width) && KeyFits(c, ix, st.db.primary[pk])
    requires ix.unique == CheckIndexIsUnique(schema.uniqueKeys, ix.index.columns)
    requires SecondaryOk(c, ix, cf, st.db.primary - missing)
    ensures SecondaryKey(c, ix, st.db.primary[pk], pk) !in cf
  {
    var p := st.db.primary;
    var sk := SecondaryKey(c, ix, p[pk], pk);
    PrimaryViewOk(c, schema, st.indices[0], p, st.epoch, st.seqNo);
    if sk in cf {
      var q := cf[sk];
      assert q in p - missing && KeyFits(c, ix, p[q]);
      SecondaryKeysClash(c, ix, p[pk], pk, p[q], q);
      if ByKeyAlone(ix, p[pk]) {
        CheckedIndexIsUnique(schema, ix.index.columns, truth);
        RepresentedRow(p, truth, pk);
        RepresentedRow(p, truth, q);
        assert SharesKey(ix.index.columns, p[pk], p[q]);
        TwoEntries(p, truth, q, pk);
      }
    }
  }

  /** A row that is deleted is no longer missing. */
  ghost function MissingAfter(missing: set<Bytes>, w: RowWrite): set<Bytes> {
    if w.Del? then missing - {w.pk} else missing
  }

  /** A family of the store whose entries of some rows are missing. */
  ghost predicate FamilyOk(c: Codec, ix: PIndex, cf: map<Bytes, Bytes>, p: map<Bytes, Row>, missing: set<Bytes>)
    requires CodecOk(c)
  {
    missing <= p.Keys && SecondaryOk(c, ix, cf, p - missing)
  }

  lemma PutToFamily(c: Codec, ix: PIndex, cf: map<Bytes, Bytes>, p: map<Bytes, Row>, missing: set<Bytes>, pk: Bytes,
                    row: Row)
    requires CodecOk(c) && FamilyOk(c, ix, cf, p, missing) && KeyFits(c, ix, row)
    requires pk !in p && pk != [] && [] !in p && RoomFor(ix, p, row)
    ensures FamilyOk(c, ix, PutSecondary(c, ix, cf, pk, row), p[pk := row], missing)
  {
    PutKeepsSecondary(c, ix, cf, p - missing, pk, row);
    assert p[pk := row] - missing == (p - missing)[pk := row];
  }

  lemma DelFromFamily(c: Codec, ix: PIndex, cf: map<Bytes, Bytes>, p: map<Bytes, Row>, missing: set<Bytes>, pk: Bytes)
    requires CodecOk(c) && FamilyOk(c, ix, cf, p, missing) && pk in p && InBounds(ix.index.columns, |p[pk]|)
    requires pk in missing ==> SecondaryKey(c, ix, p[pk], pk) !in cf
    ensures FamilyOk(c, ix, DelSecondary(c, ix, cf, pk, p[pk]), p - {pk}, missing - {pk})
  {
    if pk in missing {
      assert DelSecondary(c, ix, cf, pk, p[pk]) == cf;
      assert p - {pk} - (missing - {pk}) == p - missing;
    } else {
      DelKeepsSecondary(c, ix, cf, p - missing, pk);
      assert p - {pk} - (missing - {pk}) == p - missing - {pk};
    }
  }

  /** The writes of a batch to one family. */
  ghost function FamilyAfter(c: Codec, ix: PIndex, cf: map<Bytes, Bytes>, ws: seq<RowWrite>): map<Bytes, Bytes>
    requires CodecOk(c) && forall i :: 0 <= i < |ws| ==> InBounds(ix.index.columns, |ws[i].row|)
    decreases ws
  {
    if ws == [] then cf else FamilyAfter(c, ix, WriteSecondary(c, ix, cf, ws[0]), ws[1..])
  }

  ghost function MissingAfterAll(missing: set<Bytes>, ws: seq<RowWrite>): set<Bytes>
    decreases ws
  {
    if ws == [] then missing else MissingAfterAll(MissingAfter(missing, ws[0]), ws[1..])
  }

  /** The `i`-th family of a batch that is written. */
  lemma {:induction false} FamilyOfAll(c: Codec, secs: seq<PIndex>, db: Db, ws: seq<RowWrite>, i: nat)
    requires CodecOk(c) && WritesFit(secs, ws) && |db.secondary| == |secs| && i < |secs|
    ensures forall j :: 0 <= j < |ws| ==> InBounds(secs[i].index.columns, |ws[j].row|)
    ensures WriteAll(c, secs, db, ws).secondary[i] == FamilyAfter(c, secs[i], db.secondary[i], ws)
    decreases ws
  {
    if ws != [] {
      FamilyOfAll(c, secs, Write(c, secs, db, ws[0]), ws[1..], i);
    }
  }

  /** A batch that is being written: what is left of it, and the store and the table so far. */
  datatype Progress = Progress(st: Store, truth: Bag, gone: set<Row>, records: seq<Record>, ws: seq<RowWrite>)

  ghost predicate ProgressOk(c: Codec, schema: Schema, before: map<Bytes, Row>, was: Bag, g: Progress) {
    CodecOk(c) && Inv(c, schema, g.st, g.truth) && g.st.seqNo + |g.records| < U64 &&
    BatchFits(c, g.st.indices, g.records) &&
    StillThere(schema.width, g.st.indices[0], before, g.st.db.primary, g.gone) &&
    BatchOk(schema, g.st.indices[0], was, g.truth, g.gone, g.records) && RowsFit(g.records, schema.width) &&
    IsBatch(c, g.st.indices[0], schema.width, before, g.st.epoch, g.st.seqNo, g.records, g.ws) &&
    WritesFit(g.st.indices[1..], g.ws)
  }

  ghost function Progressed(c: Codec, schema: Schema, before: map<Bytes, Row>, was: Bag, g: Progress): Progress
    requires ProgressOk(c, schema, before, was, g) && g.records != []
  {
    Progress(AfterRecord(c, schema, g.st, g.records[0], g.ws[0]), ApplyTruth(g.truth, g.records[0]),
             GoneAfter(g.gone, g.records[0]), g.records[1..], g.ws[1..])
  }

  lemma RestFits(c: Codec, indices: seq<PIndex>, secs: seq<PIndex>, width: nat, records: seq<Record>, ws: seq<RowWrite>)
    requires records != [] && ws != [] && BatchFits(c, indices, records) && RowsFit(records, width)
    requires WritesFit(secs, ws)
    ensures BatchFits(c, indices, records[1..]) && RowsFit(records[1..], width) && WritesFit(secs, ws[1..])
    ensures KeysFit(c, indices, records[0].row) && Fits(secs, |ws[0].row|)
  {
  }

  /** The record that comes next keeps the store the table, and finds its row. */
  lemma NextRecord(c: Codec, schema: Schema, before: map<Bytes, Row>, was: Bag, g: Progress)
    requires ProgressOk(c, schema, before, was, g) && g.records != []
    ensures var g' := Progressed(c, schema, before, was, g);
            Inv(c, schema, g'.st, g'.truth) &&
            StillThere(schema.width, g'.st.indices[0], before, g'.st.db.primary, g'.gone)
  {
    RestFits(c, g.st.indices, g.st.indices[1..], schema.width, g.records, g.ws);
    RecordKeepsInv(c, schema, g.st, g.truth, before, g.gone, g.records[0], g.ws[0]);
  }

  lemma ProgressStep(c: Codec, schema: Schema, before: map<Bytes, Row>, was: Bag, g: Progress)
    requires ProgressOk(c, schema, before, was, g) && g.records != []
    ensures ProgressOk(c, schema, before, was, Progressed(c, schema, before, was, g))
  {
    RestFits(c, g.st.indices, g.st.indices[1..], schema.width, g.records, g.ws);
    NextRecord(c, schema, before, was, g);
  }

  /** One record keeps a family in step with the rows that are not missing. */
  lemma RecordToFamily(c: Codec, schema: Schema, before: map<Bytes, Row>, was: Bag, g: Progress, i: nat,
                       cf: map<Bytes, Bytes>, missing: set<Bytes>)
    requires ProgressOk(c, schema, before, was, g) && g.records != []
    requires 0 < i < |g.st.indices| && FamilyOk(c, g.st.indices[i], cf, g.st.db.primary, missing)
    ensures InBounds(g.st.indices[i].index.columns, |g.ws[0].row|)
    ensures FamilyOk(c, g.st.indices[i], WriteSecondary(c, g.st.indices[i], cf, g.ws[0]),
                     WritePrimary(g.st.db.primary, g.ws[0]), MissingAfter(missing, g.ws[0]))
  {
    var st, w := g.st, g.ws[0];
    var p, ix := st.db.primary, st.indices[i];
    assert ix == st.indices[1..][i - 1];
    PrimaryViewOk(c, schema, st.indices[0], p, st.epoch, st.seqNo);
    match g.records[0]
    case Positive(row) =>
      PutPieces(c, schema, st, g.truth, row, w.pk);
      RoomInIndex(schema, st.indices, i, p, g.truth, row);
      RoomInIndex(schema, st.indices, 0, p, g.truth, row);
      PrimaryPut(c, schema, st.indices[0], p, st.epoch, st.seqNo, row);
      PutToFamily(c, ix, cf, p, missing, w.pk, row);
    case Negative(row) =>
      FoundIsThere(c, schema, st, g.truth, before, g.gone, row, w.pk);
      if w.pk in missing {
        EntryIsMissing(c, schema, st, g.truth, ix, cf, missing, w.pk);
      }
      DelFromFamily(c, ix, cf, p, missing, w.pk);
  }

  lemma WritesInBounds(secs: seq<PIndex>, ws: seq<RowWrite>, i: nat)
    requires WritesFit(secs, ws) && i < |secs|
    ensures forall j :: 0 <= j < |ws| ==> InBounds(secs[i].index.columns, |ws[j].row|)
  {
  }

  /** So does a batch. */
  lemma {:induction false} BatchToFamily(c: Codec, schema: Schema, before: map<Bytes, Row>, was: Bag, g: Progress,
                                         i: nat, cf: map<Bytes, Bytes>, missing: set<Bytes>)
    requires ProgressOk(c, schema, before, was, g)
    requires 0 < i < |g.st.indices| && FamilyOk(c, g.st.indices[i], cf, g.st.db.primary, missing)
    ensures forall j :: 0 <= j < |g.ws| ==> InBounds(g.st.indices[i].index.columns, |g.ws[j].row|)
    ensures FamilyOk(c, g.st.indices[i], FamilyAfter(c, g.st.indices[i], cf, g.ws),
                     WriteAll(c, g.st.indices[1..], g.st.db, g.ws).primary, MissingAfterAll(missing, g.ws))
    decreases g.records
  {
    var ix := g.st.indices[i];
    assert ix == g.st.indices[1..][i - 1];
    WritesInBounds(g.st.indices[1..], g.ws, i - 1);
    if g.records != [] {
      ProgressStep(c, schema, before, was, g);
      RecordToFamily(c, schema, before, was, g, i, cf, missing);
      BatchToFamily(c, schema, before, was, Progressed(c, schema, before, was, g), i,
                    WriteSecondary(c, ix, cf, g.ws[0]), MissingAfter(missing, g.ws[0]));
    }
  }

  // ---------------------------------------------------------------- runs with crashes

  /** Operations that finish, and a crash while an index is being built: `keys` is what the construction walks
      through, and the entries of the first `reached` rows survive. The state is then opened again. */
  datatype Event = Finished(op: Op) | CrashBuilding(index: Index, keys: seq<Bytes>, reached: nat)

  /** A store with missing entries: the same store with none missing, the families as they are, and the rows
      whose entries each of them lacks. */
  datatype Damaged = Damaged(whole: Store, part: seq<map<Bytes, Bytes>>, missing: seq<set<Bytes>>)

  function Actual(d: Damaged): Store {
    d.whole.(db := Db(d.whole.db.primary, d.part))
  }

  ghost predicate FamiliesOk(c: Codec, indices: seq<PIndex>, part: seq<map<Bytes, Bytes>>, p: map<Bytes, Row>,
                             missing: seq<set<Bytes>>)
    requires CodecOk(c)
  {
    |part| == |missing| == |indices| - 1 &&
    forall i :: 0 < i < |indices| ==> FamilyOk(c, indices[i], part[i - 1], p, missing[i - 1])
  }

  ghost predicate DamagedOk(c: Codec, schema: Schema, d: Damaged, truth: Bag)
    requires CodecOk(c)
  {
    Inv(c, schema, d.whole, truth) && FamiliesOk(c, d.whole.indices, d.part, d.whole.db.primary, d.missing)
  }

  /** What the construction can be begun with. */
  ghost predicate CanBuild(c: Codec, schema: Schema, st: Store, truth: Bag, index: Index, keys: seq<Bytes>)
    requires CodecOk(c)
  {
    Inv(c, schema, st, truth) && InBounds(index.columns, schema.width) && TableFits(c, index.columns, truth) &&
    Iterates(keys, st.db.primary)
  }

  /** The entries of an index when the construction has reached some of the rows. */
  ghost function EntriesReached(c: Codec, schema: Schema, st: Store, truth: Bag, index: Index, keys: seq<Bytes>,
                                n: nat): (cf: map<Bytes, Bytes>)
    requires CodecOk(c) && CanBuild(c, schema, st, truth, index, keys) && n <= |keys|
    ensures FamilyOk(c, PersistentIndex(schema, index), cf, st.db.primary, Unreached(keys, n))
  {
    var ix := PersistentIndex(schema, index);
    RoomEverywhere(c, schema, st, truth, index, keys);
    RowsInBounds(c, ix, st.db.primary, keys);
    PrimaryViewOk(c, schema, st.indices[0], st.db.primary, st.epoch, st.seqNo);
    EntriesUpToOk(c, ix, st.db.primary, keys, n);
    ReachedRows(st.db.primary, keys, n);
    EntriesUpTo(c, ix, st.db.primary, keys, n)
  }

  lemma AllReached(c: Codec, schema: Schema, st: Store, truth: Bag, index: Index, keys: seq<Bytes>)
    requires CodecOk(c) && CanBuild(c, schema, st, truth, index, keys)
    ensures SecondaryOk(c, PersistentIndex(schema, index),
                        EntriesReached(c, schema, st, truth, index, keys, |keys|), st.db.primary)
  {
    assert Unreached(keys, |keys|) == {};
    assert st.db.primary - {} == st.db.primary;
  }

  ghost predicate EventEnabled(c: Codec, schema: Schema, d: Damaged, truth: Bag, e: Event)
    requires CodecOk(c) && DamagedOk(c, schema, d, truth)
  {
    match e
    case Finished(op) => Enabled(c, schema, d.whole, truth, op)
    case CrashBuilding(index, keys, reached) =>
      CanBuild(c, schema, d.whole, truth, index, keys) && reached <= |keys| && d.whole.epoch + 1 < U64
  }

  /** The store with the whole index, opened again. */
  ghost function Completed(c: Codec, schema: Schema, st: Store, truth: Bag, index: Index, keys: seq<Bytes>): Store
    requires CodecOk(c) && CanBuild(c, schema, st, truth, index, keys)
  {
    WithIndex(st, PersistentIndex(schema, index), EntriesReached(c, schema, st, truth, index, keys, |keys|)).(
      epoch := st.epoch + 1, seqNo := 0)
  }

  lemma CompletedInv(c: Codec, schema: Schema, st: Store, truth: Bag, index: Index, keys: seq<Bytes>)
    requires CodecOk(c) && CanBuild(c, schema, st, truth, index, keys) && st.epoch + 1 < U64
    ensures Inv(c, schema, Completed(c, schema, st, truth, index, keys), truth)
  {
    var all := EntriesReached(c, schema, st, truth, index, keys, |keys|);
    AllReached(c, schema, st, truth, index, keys);
    AddKeepsInv(c, schema, st, truth, index, all);
    ReopenKeepsInv(c, schema, WithIndex(st, PersistentIndex(schema, index), all), truth);
  }

  ghost function AfterCrash(c: Codec, schema: Schema, d: Damaged, truth: Bag, index: Index, keys: seq<Bytes>,
                            reached: nat): Damaged
    requires CodecOk(c) && CanBuild(c, schema, d.whole, truth, index, keys) && reached <= |keys|
  {
    Damaged(Completed(c, schema, d.whole, truth, index, keys),
            d.part + [EntriesReached(c, schema, d.whole, truth, index, keys, reached)],
            d.missing + [Unreached(keys, reached)])
  }

  ghost function MissingAfterBatch(missing: seq<set<Bytes>>, ws: seq<RowWrite>): seq<set<Bytes>> {
    seq(|missing|, i requires 0 <= i < |missing| => MissingAfterAll(missing[i], ws))
  }

  ghost function AfterOp(c: Codec, schema: Schema, d: Damaged, truth: Bag, op: Op): Damaged
    requires CodecOk(c) && DamagedOk(c, schema, d, truth) && Enabled(c, schema, d.whole, truth, op)
  {
    var whole := Step(c, schema, d.whole, truth, op);
    match op
    case WriteBatch(records, ws) =>
      Damaged(whole, WriteAll(c, d.whole.indices[1..], Actual(d).db, ws).secondary,
              MissingAfterBatch(d.missing, ws))
    case Reopen => Damaged(whole, d.part, d.missing)
    case AddSecondary(index, entries) => Damaged(whole, d.part + [entries], d.missing + [{}])
  }

  ghost function AfterEvent(c: Codec, schema: Schema, d: Damaged, truth: Bag, e: Event): Damaged
    requires CodecOk(c) && DamagedOk(c, schema, d, truth) && EventEnabled(c, schema, d, truth, e)
  {
    match e
    case Finished(op) => AfterOp(c, schema, d, truth, op)
    case CrashBuilding(index, keys, reached) => AfterCrash(c, schema, d, truth, index, keys, reached)
  }

  ghost function EventTruth(truth: Bag, e: Event): Bag {
    if e.Finished? then StepTruth(truth, e.op) else truth
  }

  lemma BatchBegins(c: Codec, schema: Schema, st: Store, truth: Bag, op: Op)
    requires CodecOk(c) && Inv(c, schema, st, truth) && Enabled(c, schema, st, truth, op) && op.WriteBatch?
    ensures ProgressOk(c, schema, st.db.primary, truth, Progress(st, truth, {}, op.records, op.writes))
  {
  }

  /** Each family after a batch. */
  lemma FamilyAfterBatch(c: Codec, schema: Schema, d: Damaged, truth: Bag, op: Op, i: nat)
    requires CodecOk(c) && DamagedOk(c, schema, d, truth) && Enabled(c, schema, d.whole, truth, op) && op.WriteBatch?
    requires 0 < i < |d.whole.indices|
    ensures FamilyOk(c, d.whole.indices[i], WriteAll(c, d.whole.indices[1..], Actual(d).db, op.writes).secondary[i - 1],
                     WriteAll(c, d.whole.indices[1..], d.whole.db, op.writes).primary,
                     MissingAfterAll(d.missing[i - 1], op.writes))
  {
    FamilyOfAll(c, d.whole.indices[1..], Actual(d).db, op.writes, i - 1);
    assert d.whole.indices[1..][i - 1] == d.whole.indices[i];
    WrittenToFamily(c, schema, d.whole, truth, op, i, d.part[i - 1], d.missing[i - 1]);
  }

  lemma WrittenToFamily(c: Codec, schema: Schema, st: Store, truth: Bag, op: Op, i: nat, cf: map<Bytes, Bytes>,
                        missing: set<Bytes>)
    requires CodecOk(c) && Inv(c, schema, st, truth) && Enabled(c, schema, st, truth, op) && op.WriteBatch?
    requires 0 < i < |st.indices| && FamilyOk(c, st.indices[i], cf, st.db.primary, missing)
    ensures forall j :: 0 <= j < |op.writes| ==> InBounds(st.indices[i].index.columns, |op.writes[j].row|)
    ensures FamilyOk(c, st.indices[i], FamilyAfter(c, st.indices[i], cf, op.writes),
                     WriteAll(c, st.indices[1..], st.db, op.writes).primary, MissingAfterAll(missing, op.writes))
  {
    BatchBegins(c, schema, st, truth, op);
    BatchToFamily(c, schema, st.db.primary, truth, Progress(st, truth, {}, op.records, op.writes), i, cf, missing);
  }

  lemma BatchKeepsDamaged(c: Codec, schema: Schema, d: Damaged, truth: Bag, op: Op)
    requires CodecOk(c) && DamagedOk(c, schema, d, truth) && Enabled(c, schema, d.whole, truth, op) && op.WriteBatch?
    ensures DamagedOk(c, schema, AfterOp(c, schema, d, truth, op), StepTruth(truth, op))
  {
    StepKeepsInv(c, schema, d.whole, truth, op);
    FamiliesAfterBatch(c, schema, d, truth, op);
  }

  lemma FamiliesAfterBatch(c: Codec, schema: Schema, d: Damaged, truth: Bag, op: Op)
    requires CodecOk(c) && DamagedOk(c, schema, d, truth) && Enabled(c, schema, d.whole, truth, op) && op.WriteBatch?
    ensures FamiliesOk(c, d.whole.indices, WriteAll(c, d.whole.indices[1..], Actual(d).db, op.writes).secondary,
                       WriteAll(c, d.whole.indices[1..], d.whole.db, op.writes).primary,
                       MissingAfterBatch(d.missing, op.writes))
  {
    forall i | 0 < i < |d.whole.indices|
      ensures FamilyOk(c, d.whole.indices[i],
                       WriteAll(c, d.whole.indices[1..], Actual(d).db, op.writes).secondary[i - 1],
                       WriteAll(c, d.whole.indices[1..], d.whole.db, op.writes).primary,
                       MissingAfterBatch(d.missing, op.writes)[i - 1])
    {
      FamilyAfterBatch(c, schema, d, truth, op, i);
    }
  }

  /** A family is added to those there are. */
  lemma FamilyAdded(c: Codec, schema: Schema, d: Damaged, truth: Bag, whole: Store, ix: PIndex, cf: map<Bytes, Bytes>,
                    missing: set<Bytes>)
    requires CodecOk(c) && DamagedOk(c, schema, d, truth) && Inv(c, schema, whole, truth)
    requires whole.indices == d.whole.indices + [ix] && whole.db.primary == d.whole.db.primary
    requires FamilyOk(c, ix, cf, whole.db.primary, missing)
    ensures DamagedOk(c, schema, Damaged(whole, d.part + [cf], d.missing + [missing]), truth)
  {
  }

  lemma CrashKeepsDamaged(c: Codec, schema: Schema, d: Damaged, truth: Bag, index: Index, keys: seq<Bytes>,
                          reached: nat)
    requires CodecOk(c) && DamagedOk(c, schema, d, truth) && CanBuild(c, schema, d.whole, truth, index, keys)
    requires reached <= |keys| && d.whole.epoch + 1 < U64
    ensures DamagedOk(c, schema, AfterCrash(c, schema, d, truth, index, keys, reached), truth)
  {
    CompletedInv(c, schema, d.whole, truth, index, keys);
    FamilyAdded(c, schema, d, truth, Completed(c, schema, d.whole, truth, index, keys), PersistentIndex(schema, index),
                EntriesReached(c, schema, d.whole, truth, index, keys, reached), Unreached(keys, reached));
  }

  /** Every event keeps the primary index the table, and every family in step with the rows that it does not
      lack. */
  lemma EventKeepsDamaged(c: Codec, schema: Schema, d: Damaged, truth: Bag, e: Event)
    requires CodecOk(c) && DamagedOk(c, schema, d, truth) && EventEnabled(c, schema, d, truth, e)
    ensures DamagedOk(c, schema, AfterEvent(c, schema, d, truth, e), EventTruth(truth, e))
  {
    match e
    case CrashBuilding(index, keys, reached) =>
      CrashKeepsDamaged(c, schema, d, truth, index, keys, reached);
    case Finished(op) =>
      StepKeepsInv(c, schema, d.whole, truth, op);
      match op {
        case WriteBatch(records, ws) =>
          BatchKeepsDamaged(c, schema, d, truth, op);
        case Reopen =>
        case AddSecondary(index, entries) =>
          assert d.whole.db.primary - {} == d.whole.db.primary;
          FamilyAdded(c, schema, d, truth, Step(c, schema, d.whole, truth, op), PersistentIndex(schema, index), entries,
                      {});
      }
  }

  ghost predicate Happens(c: Codec, schema: Schema, d: Damaged, truth: Bag, es: seq<Event>)
    requires CodecOk(c) && DamagedOk(c, schema, d, truth)
    decreases es
  {
    es != [] ==>
      EventEnabled(c, schema, d, truth, es[0]) &&
      (EventKeepsDamaged(c, schema, d, truth, es[0]);
       Happens(c, schema, AfterEvent(c, schema, d, truth, es[0]), EventTruth(truth, es[0]), es[1..]))
  }

  ghost function AfterEvents(c: Codec, schema: Schema, d: Damaged, truth: Bag, es: seq<Event>): Damaged
    requires CodecOk(c) && DamagedOk(c, schema, d, truth) && Happens(c, schema, d, truth, es)
    decreases es
  {
    if es == [] then d
    else
      EventKeepsDamaged(c, schema, d, truth, es[0]);
      AfterEvents(c, schema, AfterEvent(c, schema, d, truth, es[0]), EventTruth(truth, es[0]), es[1..])
  }

  ghost function EventsTruth(truth: Bag, es: seq<Event>): Bag
    decreases es
  {
    if es == [] then truth else EventsTruth(EventTruth(truth, es[0]), es[1..])
  }

  /** Along every run with crashes. */
  lemma {:induction false} EventsKeepDamaged(c: Codec, schema: Schema, d: Damaged, truth: Bag, es: seq<Event>)
    requires CodecOk(c) && DamagedOk(c, schema, d, truth) && Happens(c, schema, d, truth, es)
    ensures DamagedOk(c, schema, AfterEvents(c, schema, d, truth, es), EventsTruth(truth, es))
    decreases es
  {
    if es != [] {
      EventKeepsDamaged(c, schema, d, truth, es[0]);
      EventsKeepDamaged(c, schema, AfterEvent(c, schema, d, truth, es[0]), EventTruth(truth, es[0]), es[1..]);
    }
  }

  // ---------------------------------------------------------------- lookups

  lemma {:induction false} BagOf(p: map<Bytes, Row>) returns (b: Bag)
    ensures Represents(p, b)
    decreases p.Keys
  {
    if p == map[] {
      NoRow();
      b := multiset{};
    } else {
      var k :| k in p;
      var rest := BagOf(p - {k});
      PutRepresents(p - {k}, rest, k, p[k]);
      assert (p - {k})[k := p[k]] == p;
      b := rest + multiset{p[k]};
    }
  }

  /** The rows behind index `i` as it is. */
  ghost function PartView(d: Damaged, i: nat): map<Bytes, Row>
    requires i <= |d.part|
  {
    if i == 0 then d.whole.db.primary else ThroughEntries(d.part[i - 1], d.whole.db.primary)
  }

  ghost function ThroughEntries(cf: map<Bytes, Bytes>, p: map<Bytes, Row>): map<Bytes, Row> {
    map k | k in cf && cf[k] in p :: p[cf[k]]
  }

  /** The rows that index `i` lacks. */
  ghost function Lacks(d: Damaged, i: nat): set<Bytes>
    requires i <= |d.missing|
  {
    if i == 0 then {} else d.missing[i - 1]
  }

  /** No missing row has the key, and no other row with another key is returned for it. */
  ghost predicate LookupRight(c: Codec, ix: PIndex, p: map<Bytes, Row>, missing: set<Bytes>, key: Key) {
    forall pk :: pk in p ==>
      if pk in missing then !HasKey(ix.index.columns, p[pk], key)
      else Returns(c, ix, key, p[pk]) ==> HasKey(ix.index.columns, p[pk], key)
  }

  /** Rows with the key are returned, as often as they are not missing. */
  lemma PresentCopies(p: map<Bytes, Row>, truth: Bag, missing: set<Bytes>, present: Bag, r: Row)
    requires Represents(p, truth) && Represents(p - missing, present)
    ensures PksOf(p - missing, r) == PksOf(p, r) - missing
    ensures present[r] == |PksOf(p, r) - missing| && truth[r] == |PksOf(p, r)|
  {
  }

  lemma SmallerIff(a: set<Bytes>, b: set<Bytes>)
    ensures |a - b| == |a| <==> a !! b
  {
    assert a == (a - b) + (a * b);
    if a !! b {
      assert a - b == a;
    } else {
      assert |a * b| > 0;
    }
  }

  /** Of the entries of one row: none is missing if the row has the key, and none is there if the row is returned
      without having it. */
  ghost predicate EntriesRight(pks: set<Bytes>, missing: set<Bytes>, has: bool, returned: bool) {
    forall pk :: pk in pks ==> if pk in missing then !has else returned ==> has
  }

  lemma CountRightIff(pks: set<Bytes>, missing: set<Bytes>, has: bool, returned: bool)
    requires has ==> returned
    ensures (if returned then |pks - missing| else 0) == (if has then |pks| else 0) <==>
            EntriesRight(pks, missing, has, returned)
  {
    SmallerIff(pks, missing);
    if !has && returned {
      if pks <= missing {
        assert pks - missing == {};
      } else {
        var pk :| pk in pks && pk !in missing;
        assert pk in pks - missing;
      }
    }
  }

  /** What is returned of one row is right exactly if nothing is wrong with its entries. */
  lemma RowRightIff(c: Codec, ix: PIndex, p: map<Bytes, Row>, truth: Bag, missing: set<Bytes>, present: Bag, key: Key,
                    rows: Bag, r: Row)
    requires Represents(p, truth) && Represents(p - missing, present) && ExactlyReturned(c, ix, key, rows, present)
    ensures rows[r] == (if HasKey(ix.index.columns, r, key) then truth[r] else 0) <==>
            EntriesRight(PksOf(p, r), missing, HasKey(ix.index.columns, r, key), Returns(c, ix, key, r))
  {
    PresentCopies(p, truth, missing, present, r);
    CountRightIff(PksOf(p, r), missing, HasKey(ix.index.columns, r, key), Returns(c, ix, key, r));
  }

  lemma RightByRow(c: Codec, ix: PIndex, p: map<Bytes, Row>, missing: set<Bytes>, key: Key)
    ensures LookupRight(c, ix, p, missing, key) <==>
            forall r: Row ::
              EntriesRight(PksOf(p, r), missing, HasKey(ix.index.columns, r, key), Returns(c, ix, key, r))
  {
    if forall r: Row :: EntriesRight(PksOf(p, r), missing, HasKey(ix.index.columns, r, key), Returns(c, ix, key, r)) {
      forall pk | pk in p
        ensures if pk in missing then !HasKey(ix.index.columns, p[pk], key)
                else Returns(c, ix, key, p[pk]) ==> HasKey(ix.index.columns, p[pk], key)
      {
        assert pk in PksOf(p, p[pk]);
      }
    }
  }

  lemma PartExactIff(c: Codec, ix: PIndex, p: map<Bytes, Row>, truth: Bag, missing: set<Bytes>, present: Bag, key: Key,
                     rows: Bag)
    requires Represents(p, truth) && Represents(p - missing, present) && ExactlyReturned(c, ix, key, rows, present)
    ensures ExactlyMatching(rows, truth, ix.index.columns, key) <==> LookupRight(c, ix, p, missing, key)
  {
    forall r: Row
      ensures rows[r] == (if HasKey(ix.index.columns, r, key) then truth[r] else 0) <==>
              EntriesRight(PksOf(p, r), missing, HasKey(ix.index.columns, r, key), Returns(c, ix, key, r))
    {
      RowRightIff(c, ix, p, truth, missing, present, key, rows, r);
    }
    RightByRow(c, ix, p, missing, key);
  }

  lemma FamilyLookup(c: Codec, width: nat, ix: PIndex, cf: map<Bytes, Bytes>, p: map<Bytes, Row>, missing: set<Bytes>,
                     truth: Bag, key: Key, rows: Bag)
    requires CodecOk(c) && InBounds(ix.index.columns, width) && FamilyOk(c, ix, cf, p, missing) && [] !in p
    requires (forall pk :: pk in p ==> |p[pk]| == width) && Represents(p, truth) && c.fits(key)
    requires Represents(Matching(c, ix, key, ThroughEntries(cf, p)), rows)
    ensures ExactlyMatching(rows, truth, ix.index.columns, key) <==> LookupRight(c, ix, p, missing, key)
  {
    var rest := p - missing;
    var present := BagOf(rest);
    SecondaryViewOk(c, width, ix, cf, rest);
    ViewRepresents(c, ix, cf, rest, present);
    assert ThroughEntries(cf, p) == ViewOf(c, ix, cf, rest);
    MatchingReturned(c, width, ix, ViewOf(c, ix, cf, rest), present, key, rows);
    PartExactIff(c, ix, p, truth, missing, present, key, rows);
  }

  /** In a store with missing entries a lookup through any index returns exactly the rows with the key if and
      only if the index lacks no row with the key, and returns no row with another one. */
  lemma DamagedLookupIff(c: Codec, schema: Schema, d: Damaged, truth: Bag, i: nat, key: Key, rows: Bag)
    requires CodecOk(c) && DamagedOk(c, schema, d, truth) && i < |d.whole.indices| && c.fits(key)
    requires Represents(Matching(c, d.whole.indices[i], key, PartView(d, i)), rows)
    ensures ExactlyMatching(rows, truth, d.whole.indices[i].index.columns, key) <==>
            LookupRight(c, d.whole.indices[i], d.whole.db.primary, Lacks(d, i), key)
  {
    var st, p, ix := d.whole, d.whole.db.primary, d.whole.indices[i];
    PrimaryViewOk(c, schema, st.indices[0], p, st.epoch, st.seqNo);
    if i == 0 {
      MatchingReturned(c, schema.width, ix, p, truth, key, rows);
      assert p - {} == p;
      PartExactIff(c, ix, p, truth, {}, truth, key, rows);
    } else {
      FamilyLookup(c, schema.width, ix, d.part[i - 1], p, d.missing[i - 1], truth, key, rows);
    }
  }

  // ---------------------------------------------------------------- from a new table

  function New(schema: Schema, columns: seq<nat>): Damaged {
    Damaged(Created(schema, columns), [], [])
  }

  ghost predicate HappensFromNew(c: Codec, schema: Schema, columns: seq<nat>, es: seq<Event>)
    requires CodecOk(c) && InBounds(columns, schema.width)
  {
    CreatedInv(c, schema, columns);
    Happens(c, schema, New(schema, columns), multiset{}, es)
  }

  ghost function AfterAll(c: Codec, schema: Schema, columns: seq<nat>, es: seq<Event>): (d: Damaged)
    requires CodecOk(c) && InBounds(columns, schema.width) && HappensFromNew(c, schema, columns, es)
    ensures DamagedOk(c, schema, d, EventsTruth(multiset{}, es))
  {
    CreatedInv(c, schema, columns);
    EventsKeepDamaged(c, schema, New(schema, columns), multiset{}, es);
    AfterEvents(c, schema, New(schema, columns), multiset{}, es)
  }

  /** After every run of a new table, with crashes while indices are built, the primary index is the table, and
      a lookup through any index returns exactly the rows with the key if and only if the index lacks no row
      with that key, and returns no row with another one. */
  lemma CrashedLookupIff(c: Codec, schema: Schema, columns: seq<nat>, es: seq<Event>, i: nat, key: Key, rows: Bag)
    requires CodecOk(c) && InBounds(columns, schema.width) && HappensFromNew(c, schema, columns, es)
    requires var d := AfterAll(c, schema, columns, es);
             i < |d.whole.indices| && c.fits(key) &&
             Represents(Matching(c, d.whole.indices[i], key, PartView(d, i)), rows)
    ensures var d := AfterAll(c, schema, columns, es);
            Represents(Actual(d).db.primary, EventsTruth(multiset{}, es)) &&
            (ExactlyMatching(rows, EventsTruth(multiset{}, es), d.whole.indices[i].index.columns, key) <==>
             LookupRight(c, d.whole.indices[i], d.whole.db.primary, Lacks(d, i), key))
  {
    DamagedLookupIff(c, schema, AfterAll(c, schema, columns, es), EventsTruth(multiset{}, es), i, key, rows);
  }

  // ---------------------------------------------------------------- which rows an index lacks

  predicate AddsIndex(e: Event) {
    e.CrashBuilding? || e.op.AddSecondary?
  }

  predicate DeletesPk(ws: seq<RowWrite>, pk: Bytes) {
    exists i :: 0 <= i < |ws| && ws[i].Del? && ws[i].pk == pk
  }

  predicate DeletedBy(e: Event, pk: Bytes) {
    e.Finished? && e.op.WriteBatch? && DeletesPk(e.op.writes, pk)
  }

  predicate DeletedByAny(es: seq<Event>, pk: Bytes) {
    exists i :: 0 <= i < |es| && DeletedBy(es[i], pk)
  }

  /** The state crashed while it built the `n`-th index that these events add and had not reached the row yet,
      and no batch deleted the row afterwards. */
  predicate Loses(es: seq<Event>, n: nat, pk: Bytes) {
    es != [] &&
    if !AddsIndex(es[0]) then Loses(es[1..], n, pk)
    else if n > 0 then Loses(es[1..], n - 1, pk)
    else es[0].CrashBuilding? && es[0].reached <= |es[0].keys| && pk in es[0].keys[es[0].reached..] &&
         !DeletedByAny(es[1..], pk)
  }

  lemma {:induction false} MissingAfterAllIff(missing: set<Bytes>, ws: seq<RowWrite>, pk: Bytes)
    ensures pk in MissingAfterAll(missing, ws) <==> pk in missing && !DeletesPk(ws, pk)
    decreases ws
  {
    if ws != [] {
      MissingAfterAllIff(MissingAfter(missing, ws[0]), ws[1..], pk);
      assert DeletesPk(ws, pk) <==> (ws[0].Del? && ws[0].pk == pk) || DeletesPk(ws[1..], pk) by {
        assert ws == [ws[0]] + ws[1..];
      }
    }
  }

  /** What one event makes of what the indices lack, and what an index that it adds lacks. */
  ghost predicate LackAfterOne(before: seq<set<Bytes>>, after: seq<set<Bytes>>, e: Event, pk: Bytes) {
    |after| == |before| + (if AddsIndex(e) then 1 else 0) &&
    (forall i :: 0 <= i < |before| ==> (pk in after[i] <==> pk in before[i] && !DeletedBy(e, pk))) &&
    (AddsIndex(e) ==>
       (pk in after[|before|] <==> e.CrashBuilding? && e.reached <= |e.keys| && pk in e.keys[e.reached..]))
  }

  ghost predicate LackAfter(before: seq<set<Bytes>>, after: seq<set<Bytes>>, es: seq<Event>, pk: Bytes) {
    |before| <= |after| &&
    (forall i :: 0 <= i < |before| ==> (pk in after[i] <==> pk in before[i] && !DeletedByAny(es, pk))) &&
    forall i :: |before| <= i < |after| ==> (pk in after[i] <==> Loses(es, i - |before|, pk))
  }

  lemma EventLacks(c: Codec, schema: Schema, d: Damaged, truth: Bag, e: Event, pk: Bytes)
    requires CodecOk(c) && DamagedOk(c, schema, d, truth) && EventEnabled(c, schema, d, truth, e)
    ensures LackAfterOne(d.missing, AfterEvent(c, schema, d, truth, e).missing, e, pk)
  {
    if e.Finished? && e.op.WriteBatch? {
      forall i | 0 <= i < |d.missing|
        ensures pk in MissingAfterAll(d.missing[i], e.op.writes) <==> pk in d.missing[i] && !DeletedBy(e, pk)
      {
        MissingAfterAllIff(d.missing[i], e.op.writes, pk);
      }
    }
  }

  lemma LackAfterMore(before: seq<set<Bytes>>, mid: seq<set<Bytes>>, after: seq<set<Bytes>>, es: seq<Event>, pk: Bytes)
    requires es != [] && LackAfterOne(before, mid, es[0], pk) && LackAfter(mid, after, es[1..], pk)
    ensures LackAfter(before, after, es, pk)
  {
    assert DeletedByAny(es, pk) <==> DeletedBy(es[0], pk) || DeletedByAny(es[1..], pk) by {
      assert es == [es[0]] + es[1..];
    }
  }

  lemma {:induction false} EventsLack(c: Codec, schema: Schema, d: Damaged, truth: Bag, es: seq<Event>, pk: Bytes)
    requires CodecOk(c) && DamagedOk(c, schema, d, truth) && Happens(c, schema, d, truth, es)
    ensures LackAfter(d.missing, AfterEvents(c, schema, d, truth, es).missing, es, pk)
    decreases es
  {
    if es != [] {
      var d' := AfterEvent(c, schema, d, truth, es[0]);
      EventKeepsDamaged(c, schema, d, truth, es[0]);
      EventLacks(c, schema, d, truth, es[0], pk);
      EventsLack(c, schema, d', EventTruth(truth, es[0]), es[1..], pk);
      LackAfterMore(d.missing, d'.missing, AfterEvents(c, schema, d, truth, es).missing, es, pk);
    }
  }

  /** After every run: what an index lacks is exactly the rows that a crash kept from it and that no later batch
      deleted. Nothing else, restarts included, adds to it or takes from it. */
  lemma LacksIff(c: Codec, schema: Schema, columns: seq<nat>, es: seq<Event>, i: nat, pk: Bytes)
    requires CodecOk(c) && InBounds(columns, schema.width) && HappensFromNew(c, schema, columns, es)
    requires i <= |AfterAll(c, schema, columns, es).missing|
    ensures pk in Lacks(AfterAll(c, schema, columns, es), i) <==> i > 0 && Loses(es, i - 1, pk)
  {
    CreatedInv(c, schema, columns);
    EventsLack(c, schema, New(schema, columns), multiset{}, es, pk);
    LacksThen(AfterAll(c, schema, columns, es), es, i, pk);
  }

  lemma LacksThen(d: Damaged, es: seq<Event>, i: nat, pk: Bytes)
    requires LackAfter([], d.missing, es, pk) && i <= |d.missing|
    ensures pk in Lacks(d, i) <==> i > 0 && Loses(es, i - 1, pk)
  {
  }

  // ---------------------------------------------------------------- a row that is lost to an index

  /** A row is written; then the state crashes before the construction of an index reaches it. */
  ghost function LosingEvents(c: Codec, schema: Schema, columns: seq<nat>, index: Index, row: Row): seq<Event>
    requires InBounds(columns, |row|)
  {
    [Finished(OneWrite(c, schema, columns, row)), CrashBuilding(index, [OnePk(c, schema, columns, row)], 0)]
  }

  lemma OneRowListed(pk: Bytes, row: Row)
    ensures Iterates([pk], map[pk := row])
  {
  }

  lemma OneRowStored(c: Codec, schema: Schema, columns: seq<nat>, row: Row)
    requires CodecOk(c) && InBounds(columns, schema.width) && |row| == schema.width
    requires KeyFits(c, PrimaryIndex(schema, columns), row)
    ensures DamagedOk(c, schema, New(schema, columns), multiset{})
    ensures var e, d := Finished(OneWrite(c, schema, columns, row)), New(schema, columns);
            EventEnabled(c, schema, d, multiset{}, e) && EventTruth(multiset{}, e) == multiset{row} &&
            var d' := AfterEvent(c, schema, d, multiset{}, e);
            d'.whole.db.primary == map[OnePk(c, schema, columns, row) := row] && d'.part == [] && d'.missing == [] &&
            d'.whole.indices == [PrimaryIndex(schema, columns)] && d'.whole.epoch == 0
  {
    OneRowAllowed(c, schema, columns, row);
    var st, op := Created(schema, columns), OneWrite(c, schema, columns, row);
    assert op.writes[1..] == [] && op.records[1..] == [];
    assert BatchTruth(multiset{}, op.records) == BatchTruth(multiset{} + multiset{row}, []);
    assert WriteAll(c, st.indices[1..], st.db, op.writes) == Write(c, st.indices[1..], st.db, op.writes[0]);
  }

  lemma OneEvent(c: Codec, schema: Schema, d: Damaged, truth: Bag, e: Event)
    requires CodecOk(c) && DamagedOk(c, schema, d, truth) && EventEnabled(c, schema, d, truth, e)
    ensures Happens(c, schema, d, truth, [e])
    ensures AfterEvents(c, schema, d, truth, [e]) == AfterEvent(c, schema, d, truth, e)
    ensures EventsTruth(truth, [e]) == EventTruth(truth, e)
  {
    EventKeepsDamaged(c, schema, d, truth, e);
    assert [e][1..] == [];
  }

  lemma EventFirst(c: Codec, schema: Schema, d: Damaged, truth: Bag, e: Event, es: seq<Event>)
    requires CodecOk(c) && DamagedOk(c, schema, d, truth) && EventEnabled(c, schema, d, truth, e)
    requires DamagedOk(c, schema, AfterEvent(c, schema, d, truth, e), EventTruth(truth, e))
    requires Happens(c, schema, AfterEvent(c, schema, d, truth, e), EventTruth(truth, e), es)
    ensures Happens(c, schema, d, truth, [e] + es)
    ensures AfterEvents(c, schema, d, truth, [e] + es) ==
            AfterEvents(c, schema, AfterEvent(c, schema, d, truth, e), EventTruth(truth, e), es)
    ensures EventsTruth(truth, [e] + es) == EventsTruth(EventTruth(truth, e), es)
  {
    assert ([e] + es)[1..] == es;
  }

  /** The construction can begin, and a crash before it reaches the row leaves the index empty. */
  lemma CrashAtOnce(c: Codec, schema: Schema, d: Damaged, index: Index, row: Row, pk: Bytes)
    requires CodecOk(c) && DamagedOk(c, schema, d, multiset{row}) && d.whole.db.primary == map[pk := row]
    requires d.part == [] && d.missing == [] && d.whole.epoch == 0 && InBounds(index.columns, schema.width)
    requires KeyFits(c, PersistentIndex(schema, index), row)
    ensures EventEnabled(c, schema, d, multiset{row}, CrashBuilding(index, [pk], 0))
    ensures var d' := AfterEvent(c, schema, d, multiset{row}, CrashBuilding(index, [pk], 0));
            d'.whole.indices == d.whole.indices + [PersistentIndex(schema, index)] && d'.part == [map[]] &&
            d'.missing == [{pk}] && d'.whole.db.primary == map[pk := row]
  {
    OneRowListed(pk, row);
    assert Unreached([pk], 0) == {pk};
  }

  lemma NothingThere(c: Codec, ix: PIndex, pk: Bytes, row: Row)
    requires InBounds(ix.index.columns, |row|)
    ensures !LookupRight(c, ix, map[pk := row], {pk}, KeyOf(ix.index.columns, row))
  {
  }

  lemma LosingHappens(c: Codec, schema: Schema, columns: seq<nat>, index: Index, row: Row)
    requires CodecOk(c) && InBounds(columns, schema.width) && |row| == schema.width
    requires KeyFits(c, PrimaryIndex(schema, columns), row) && KeyFits(c, PersistentIndex(schema, index), row)
    ensures var es := LosingEvents(c, schema, columns, index, row);
            HappensFromNew(c, schema, columns, es) && EventsTruth(multiset{}, es) == multiset{row} &&
            var d := AfterAll(c, schema, columns, es);
            d.whole.indices == [PrimaryIndex(schema, columns)] + [PersistentIndex(schema, index)] &&
            d.part == [map[]] && d.missing == [{OnePk(c, schema, columns, row)}] &&
            d.whole.db.primary == map[OnePk(c, schema, columns, row) := row]
  {
    var d, es, pk := New(schema, columns), LosingEvents(c, schema, columns, index, row), OnePk(c, schema, columns, row);
    OneRowStored(c, schema, columns, row);
    EventKeepsDamaged(c, schema, d, multiset{}, es[0]);
    var d' := AfterEvent(c, schema, d, multiset{}, es[0]);
    CrashAtOnce(c, schema, d', index, row, pk);
    OneEvent(c, schema, d', multiset{row}, es[1]);
    EventFirst(c, schema, d, multiset{}, es[0], [es[1]]);
    assert [es[0]] + [es[1]] == es;
  }

  /** That run happens, and then the index, which the state trusts, lacks the row: a lookup of its key finds
      nothing. */
  lemma CrashLosesRow(c: Codec, schema: Schema, columns: seq<nat>, index: Index, row: Row)
    requires CodecOk(c) && InBounds(columns, schema.width) && |row| == schema.width
    requires KeyFits(c, PrimaryIndex(schema, columns), row) && KeyFits(c, PersistentIndex(schema, index), row)
    ensures var es := LosingEvents(c, schema, columns, index, row);
            HappensFromNew(c, schema, columns, es) && EventsTruth(multiset{}, es) == multiset{row} &&
            var d := AfterAll(c, schema, columns, es);
            |d.whole.indices| == 2 && d.whole.indices[1] == PersistentIndex(schema, index) && PartView(d, 1) == map[] &&
            !LookupRight(c, d.whole.indices[1], d.whole.db.primary, Lacks(d, 1), KeyOf(index.columns, row))
  {
    LosingHappens(c, schema, columns, index, row);
    NothingThere(c, PersistentIndex(schema, index), OnePk(c, schema, columns, row), row);
  }
}

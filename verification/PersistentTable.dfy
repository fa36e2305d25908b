/** What the column families of a base table mean: a bag of rows. Batches of records keep that
    meaning, in every index, across every run of writes, late indices and restarts. */
module PersistentTable {
  import opened Options
  import opened ByteStrings
  import opened StateTypes
  import opened KeyEncoding
  import opened PersistentModel

  datatype Schema = Schema(width: nat, uniqueKeys: seq<seq<nat>>)

  /** The first index is the primary one. */
  datatype Store = Store(indices: seq<PIndex>, db: Db, epoch: nat, seqNo: nat)

  // ---------------------------------------------------------------- primary keys

  predicate Stamped(c: Codec, key: Key, pk: Bytes, e: nat, s: nat)
  {
    e < U64 && s < U64 && pk == c.prefix(key) + c.stamp(e, s)
  }

  predicate NotAfter(e: nat, s: nat, epoch: nat, seqNo: nat) {
    e < epoch || (e == epoch && s <= seqNo)
  }

  /** Some stamp already given out is that of `pk`. */
  ghost predicate StampedBy(c: Codec, key: Key, pk: Bytes, epoch: nat, seqNo: nat)
  {
    exists e, s :: Stamped(c, key, pk, e, s) && NotAfter(e, s, epoch, seqNo)
  }

  /** The entry of a row in the primary index is its key, or its key with a stamp. */
  ghost predicate PkShape(c: Codec, ix: PIndex, row: Row, pk: Bytes, epoch: nat, seqNo: nat)
    requires CodecOk(c) && InBounds(ix.index.columns, |row|)
  {
    var key := KeyOf(ix.index.columns, row);
    KeyFits(c, ix, row) && if ByKeyAlone(ix, row) then pk == c.prefix(key) else StampedBy(c, key, pk, epoch, seqNo)
  }

  lemma PkShapeLater(c: Codec, ix: PIndex, row: Row, pk: Bytes, epoch: nat, seqNo: nat, epoch': nat, seqNo': nat)
    requires CodecOk(c) && InBounds(ix.index.columns, |row|)
    requires PkShape(c, ix, row, pk, epoch, seqNo) && NotAfter(epoch, seqNo, epoch', seqNo')
    ensures PkShape(c, ix, row, pk, epoch', seqNo')
  {
    if !ByKeyAlone(ix, row) {
      var key := KeyOf(ix.index.columns, row);
      var e, s :| Stamped(c, key, pk, e, s) && NotAfter(e, s, epoch, seqNo);
      assert NotAfter(e, s, epoch', seqNo');
    }
  }

  /** A key, with nothing or a stamp behind it. */
  ghost predicate IsStoredUnder(c: Codec, key: Key, pk: Bytes, extra: Bytes)
  {
    pk == c.prefix(key) + extra
  }

  lemma PkIsStored(c: Codec, ix: PIndex, row: Row, pk: Bytes, epoch: nat, seqNo: nat) returns (extra: Bytes)
    requires CodecOk(c) && InBounds(ix.index.columns, |row|) && PkShape(c, ix, row, pk, epoch, seqNo)
    ensures IsStoredUnder(c, KeyOf(ix.index.columns, row), pk, extra)
    ensures ByKeyAlone(ix, row) <==> extra == []
    ensures pk != []
  {
    var key := KeyOf(ix.index.columns, row);
    if ByKeyAlone(ix, row) {
      extra := [];
      assert c.prefix(key) + [] == c.prefix(key);
    } else {
      var e, s :| Stamped(c, key, pk, e, s) && NotAfter(e, s, epoch, seqNo);
      extra := c.stamp(e, s);
    }
  }

  /** The key that an insert gives to a row, and the counter after it. */
  function NewPk(c: Codec, ix: PIndex, row: Row, epoch: nat, seqNo: nat): Bytes
    requires InBounds(ix.index.columns, |row|)
    requires epoch < U64 && seqNo + 1 < U64
  {
    var key := KeyOf(ix.index.columns, row);
    if ByKeyAlone(ix, row) then c.prefix(key) else c.prefix(key) + c.stamp(epoch, seqNo + 1)
  }

  function NextSeq(ix: PIndex, row: Row, seqNo: nat): nat
    requires InBounds(ix.index.columns, |row|)
  {
    if ByKeyAlone(ix, row) then seqNo else seqNo + 1
  }

  lemma NewPkShape(c: Codec, ix: PIndex, row: Row, epoch: nat, seqNo: nat)
    requires CodecOk(c) && KeyFits(c, ix, row) && epoch < U64 && seqNo + 1 < U64
    ensures PkShape(c, ix, row, NewPk(c, ix, row, epoch, seqNo), epoch, NextSeq(ix, row, seqNo))
  {
    if !ByKeyAlone(ix, row) {
      var key := KeyOf(ix.index.columns, row);
      assert Stamped(c, key, NewPk(c, ix, row, epoch, seqNo), epoch, seqNo + 1);
    }
  }

  /** A new key is the key of no row present, if the row is identified by its key alone only where no
      row present has that key. */
  lemma NewPkIsFresh(c: Codec, ix: PIndex, row: Row, epoch: nat, seqNo: nat, other: Row, pk: Bytes)
    requires CodecOk(c) && KeyFits(c, ix, row) && InBounds(ix.index.columns, |other|)
    requires epoch < U64 && seqNo + 1 < U64 && PkShape(c, ix, other, pk, epoch, seqNo)
    requires ByKeyAlone(ix, row) ==> KeyOf(ix.index.columns, row) != KeyOf(ix.index.columns, other)
    ensures pk != NewPk(c, ix, row, epoch, seqNo)
  {
    var new' := NewPk(c, ix, row, epoch, seqNo);
    if pk == new' {
      NewPkShape(c, ix, row, epoch, seqNo);
      var extra := PkIsStored(c, ix, row, new', epoch, NextSeq(ix, row, seqNo));
      var extra' := PkIsStored(c, ix, other, pk, epoch, seqNo);
      var key, key' := KeyOf(ix.index.columns, row), KeyOf(ix.index.columns, other);
      Unambiguous(c, key, extra, key', extra');
      assert ToldApart(c, ix.index.columns, key, key');
      assert Stamped(c, key', pk, epoch, seqNo + 1);
      NextStampIsFresh(c, key', pk, epoch, seqNo);
    }
  }

  lemma StampIsUnique(c: Codec, key: Key, pk: Bytes, e: nat, s: nat, e': nat, s': nat)
    requires CodecOk(c) && c.fits(key) && Stamped(c, key, pk, e, s) && Stamped(c, key, pk, e', s')
    ensures e == e' && s == s'
  {
    Unambiguous(c, key, c.stamp(e, s), key, c.stamp(e', s'));
    assert StampInjective(c, e, s, e', s');
  }

  lemma NextStampIsFresh(c: Codec, key: Key, pk: Bytes, epoch: nat, seqNo: nat)
    requires CodecOk(c) && c.fits(key) && StampedBy(c, key, pk, epoch, seqNo)
    ensures !Stamped(c, key, pk, epoch, seqNo + 1)
  {
    var e, s :| Stamped(c, key, pk, e, s) && NotAfter(e, s, epoch, seqNo);
    if Stamped(c, key, pk, epoch, seqNo + 1) {
      StampIsUnique(c, key, pk, e, s, epoch, seqNo + 1);
    }
  }

  // ---------------------------------------------------------------- unique keys

  /** At most one row has any given key without NULLs at these columns. */
  ghost predicate KeysUnique(columns: seq<nat>, truth: Bag) {
    forall r, r' :: r in truth && r' in truth && SharesKey(columns, r, r') ==> r == r' && truth[r] == 1
  }

  predicate SharesKey(columns: seq<nat>, r: Row, r': Row) {
    InBounds(columns, |r|) && InBounds(columns, |r'|) &&
    KeyOf(columns, r) == KeyOf(columns, r') && !HasNull(KeyOf(columns, r))
  }

  ghost predicate RespectsKeys(schema: Schema, truth: Bag) {
    forall i :: 0 <= i < |schema.uniqueKeys| ==> KeysUnique(schema.uniqueKeys[i], truth)
  }

  lemma SharedByPart(columns: seq<nat>, part: seq<nat>, r: Row, r': Row)
    requires forall x :: x in part ==> x in columns
    requires SharesKey(columns, r, r')
    ensures SharesKey(part, r, r')
  {
    forall i | 0 <= i < |part|
      ensures part[i] < |r| && part[i] < |r'| && r[part[i]] == r'[part[i]] && r[part[i]] != Null
    {
      assert part[i] in columns;
      var j :| 0 <= j < |columns| && columns[j] == part[i];
      assert KeyOf(columns, r)[j] == r[part[i]] && KeyOf(columns, r')[j] == r'[part[i]];
      assert KeyOf(columns, r)[j] in KeyOf(columns, r);
    }
  }

  /** An index that holds all columns of a unique key is unique itself, whatever the order of its
      columns and whatever other columns it has. */
  lemma CheckedIndexIsUnique(schema: Schema, columns: seq<nat>, truth: Bag)
    requires RespectsKeys(schema, truth) && CheckIndexIsUnique(schema.uniqueKeys, columns)
    ensures KeysUnique(columns, truth)
  {
    var i :| 0 <= i < |schema.uniqueKeys| && forall x :: x in schema.uniqueKeys[i] ==> x in columns;
    forall r, r' | r in truth && r' in truth && SharesKey(columns, r, r')
      ensures r == r' && truth[r] == 1
    {
      SharedByPart(columns, schema.uniqueKeys[i], r, r');
    }
  }

  /** The same value at these columns, and another one elsewhere. */
  function Patterned(columns: seq<nat>, width: nat, elsewhere: int): Row {
    seq(width, j requires 0 <= j < width => if j in columns then Int(0) else Int(elsewhere))
  }

  lemma PatternedShare(columns: seq<nat>, width: nat)
    requires InBounds(columns, width)
    ensures SharesKey(columns, Patterned(columns, width, 1), Patterned(columns, width, 2))
  {
    var r, r' := Patterned(columns, width, 1), Patterned(columns, width, 2);
    forall i | 0 <= i < |columns| ensures KeyOf(columns, r)[i] == Int(0) && KeyOf(columns, r')[i] == Int(0) {
      assert columns[i] in columns;
    }
  }

  /** A key with a column elsewhere tells the two apart. */
  lemma PatternedApart(columns: seq<nat>, width: nat, other: seq<nat>, x: nat)
    requires x in other && x !in columns
    ensures KeysUnique(other, multiset{Patterned(columns, width, 1), Patterned(columns, width, 2)})
  {
    var a, b := Patterned(columns, width, 1), Patterned(columns, width, 2);
    var truth := multiset{a, b};
    forall r, r' | r in truth && r' in truth && SharesKey(other, r, r') ensures r == r' && truth[r] == 1 {
      var i :| 0 <= i < |other| && other[i] == x;
      assert KeyOf(other, r)[i] == r[x] && KeyOf(other, r')[i] == r'[x];
      assert a[x] == Int(1) && b[x] == Int(2);
    }
  }

  lemma PatternedRespect(schema: Schema, columns: seq<nat>)
    requires !CheckIndexIsUnique(schema.uniqueKeys, columns)
    ensures RespectsKeys(schema, multiset{Patterned(columns, schema.width, 1), Patterned(columns, schema.width, 2)})
  {
    forall i | 0 <= i < |schema.uniqueKeys|
      ensures KeysUnique(schema.uniqueKeys[i],
                         multiset{Patterned(columns, schema.width, 1), Patterned(columns, schema.width, 2)})
    {
      var x :| x in schema.uniqueKeys[i] && x !in columns;
      PatternedApart(columns, schema.width, schema.uniqueKeys[i], x);
    }
  }

  /** An index is taken to be unique exactly if every table that respects the unique keys has at most one row
      per key without NULL in it. */
  lemma UniqueIff(schema: Schema, columns: seq<nat>)
    requires InBounds(columns, schema.width)
    ensures CheckIndexIsUnique(schema.uniqueKeys, columns) <==>
            forall truth :: RespectsKeys(schema, truth) ==> KeysUnique(columns, truth)
  {
    if CheckIndexIsUnique(schema.uniqueKeys, columns) {
      forall truth | RespectsKeys(schema, truth) ensures KeysUnique(columns, truth) {
        CheckedIndexIsUnique(schema, columns, truth);
      }
    } else {
      var a, b := Patterned(columns, schema.width, 1), Patterned(columns, schema.width, 2);
      PatternedRespect(schema, columns);
      PatternedShare(columns, schema.width);
      assert a in multiset{a, b} && b in multiset{a, b};
      assert a == b ==> multiset{a, b}[a] == 2;
      assert !KeysUnique(columns, multiset{a, b});
    }
  }

  // ---------------------------------------------------------------- the table

  ghost function PksOf(p: map<Bytes, Row>, row: Row): set<Bytes> {
    set pk | pk in p && p[pk] == row
  }

  /** The primary index holds exactly this bag of rows. */
  ghost predicate Represents(p: map<Bytes, Row>, truth: Bag) {
    forall r: Row :: truth[r] == |PksOf(p, r)|
  }

  lemma RepresentedRow(p: map<Bytes, Row>, truth: Bag, pk: Bytes)
    requires Represents(p, truth) && pk in p
    ensures p[pk] in truth
  {
    assert pk in PksOf(p, p[pk]);
  }

  lemma RowIsSomewhere(p: map<Bytes, Row>, truth: Bag, row: Row) returns (pk: Bytes)
    requires Represents(p, truth) && row in truth
    ensures pk in p && p[pk] == row
  {
    assert |PksOf(p, row)| > 0;
    pk :| pk in PksOf(p, row);
  }

  lemma PutRepresents(p: map<Bytes, Row>, truth: Bag, pk: Bytes, row: Row)
    requires Represents(p, truth) && pk !in p
    ensures Represents(p[pk := row], truth + multiset{row})
  {
    forall r: Row ensures (truth + multiset{row})[r] == |PksOf(p[pk := row], r)| {
      OneMorePk(p, pk, row, r);
    }
  }

  lemma OneMorePk(p: map<Bytes, Row>, pk: Bytes, row: Row, r: Row)
    requires pk !in p
    ensures |PksOf(p[pk := row], r)| == |PksOf(p, r)| + if r == row then 1 else 0
  {
    assert PksOf(p[pk := row], r) == PksOf(p, r) + if r == row then {pk} else {};
  }

  lemma DelRepresents(p: map<Bytes, Row>, truth: Bag, pk: Bytes)
    requires Represents(p, truth) && pk in p
    ensures Represents(p - {pk}, truth - multiset{p[pk]})
  {
    forall r: Row ensures (truth - multiset{p[pk]})[r] == |PksOf(p - {pk}, r)| {
      OneLessPk(p, pk, r);
    }
  }

  lemma OneLessPk(p: map<Bytes, Row>, pk: Bytes, r: Row)
    requires pk in p
    ensures |PksOf(p - {pk}, r)| == |PksOf(p, r)| - if r == p[pk] then 1 else 0
  {
    assert PksOf(p - {pk}, r) == PksOf(p, r) - if r == p[pk] then {pk} else {};
  }

  ghost predicate IndicesOk(schema: Schema, indices: seq<PIndex>) {
    Fits(indices, schema.width) &&
    forall i :: 0 <= i < |indices| ==>
      indices[i].unique == CheckIndexIsUnique(schema.uniqueKeys, indices[i].index.columns)
  }

  ghost predicate PrimaryOk(c: Codec, schema: Schema, ix: PIndex, p: map<Bytes, Row>, epoch: nat, seqNo: nat)
    requires CodecOk(c) && InBounds(ix.index.columns, schema.width)
  {
    forall pk :: pk in p ==> |p[pk]| == schema.width && PkShape(c, ix, p[pk], pk, epoch, seqNo)
  }

  ghost predicate SecondariesOk(c: Codec, secs: seq<PIndex>, db: Db)
    requires CodecOk(c)
  {
    |db.secondary| == |secs| &&
    forall i :: 0 <= i < |secs| ==> SecondaryOk(c, secs[i], db.secondary[i], db.primary)
  }

  /** The whole invariant: the store is the table `truth`. */
  ghost predicate Inv(c: Codec, schema: Schema, st: Store, truth: Bag)
    requires CodecOk(c)
  {
    |st.indices| > 0 && IndicesOk(schema, st.indices) && st.epoch < U64 && st.seqNo < U64 &&
    PrimaryOk(c, schema, st.indices[0], st.db.primary, st.epoch, st.seqNo) &&
    SecondariesOk(c, st.indices[1..], st.db) &&
    Represents(st.db.primary, truth) && RespectsKeys(schema, truth)
  }

  /** There is room for a row that the unique keys allow. */
  lemma RoomInIndex(schema: Schema, indices: seq<PIndex>, i: nat, p: map<Bytes, Row>, truth: Bag, row: Row)
    requires IndicesOk(schema, indices) && i < |indices| && |row| == schema.width
    requires Represents(p, truth) && RespectsKeys(schema, truth + multiset{row})
    requires forall pk :: pk in p ==> |p[pk]| == schema.width
    ensures RoomFor(indices[i], p, row)
  {
    var ix := indices[i];
    if ByKeyAlone(ix, row) {
      CheckedIndexIsUnique(schema, ix.index.columns, truth + multiset{row});
      forall pk | pk in p
        ensures InBounds(ix.index.columns, |p[pk]|) && KeyOf(ix.index.columns, p[pk]) != KeyOf(ix.index.columns, row)
      {
        RepresentedRow(p, truth, pk);
        assert p[pk] in truth + multiset{row} && row in truth + multiset{row};
        assert SharesKey(ix.index.columns, p[pk], row) ==> (truth + multiset{row})[row] == 1;
      }
    }
  }

  ghost function AfterPut(c: Codec, schema: Schema, st: Store, row: Row): Store
    requires CodecOk(c) && |st.indices| > 0 && IndicesOk(schema, st.indices) && |row| == schema.width
    requires |st.db.secondary| == |st.indices| - 1 && st.epoch < U64 && st.seqNo + 1 < U64
  {
    var pk := NewPk(c, st.indices[0], row, st.epoch, st.seqNo);
    st.(db := Write(c, st.indices[1..], st.db, Put(pk, row)), seqNo := NextSeq(st.indices[0], row, st.seqNo))
  }

  lemma PrimaryPut(c: Codec, schema: Schema, ix: PIndex, p: map<Bytes, Row>, epoch: nat, seqNo: nat, row: Row)
    requires CodecOk(c) && InBounds(ix.index.columns, schema.width) && PrimaryOk(c, schema, ix, p, epoch, seqNo)
    requires |row| == schema.width && KeyFits(c, ix, row) && epoch < U64 && seqNo + 1 < U64 && RoomFor(ix, p, row)
    ensures NewPk(c, ix, row, epoch, seqNo) !in p && NewPk(c, ix, row, epoch, seqNo) != [] && [] !in p
    ensures PrimaryOk(c, schema, ix, p[NewPk(c, ix, row, epoch, seqNo) := row], epoch, NextSeq(ix, row, seqNo))
  {
    var pk, next := NewPk(c, ix, row, epoch, seqNo), NextSeq(ix, row, seqNo);
    NewPkShape(c, ix, row, epoch, seqNo);
    var _ := PkIsStored(c, ix, row, pk, epoch, next);
    forall q | q in p ensures q != pk && q != [] && PkShape(c, ix, p[q], q, epoch, next) {
      NewPkIsFresh(c, ix, row, epoch, seqNo, p[q], q);
      var _ := PkIsStored(c, ix, p[q], q, epoch, seqNo);
      PkShapeLater(c, ix, p[q], q, epoch, seqNo, epoch, next);
    }
  }

  lemma SecondariesPut(c: Codec, secs: seq<PIndex>, db: Db, pk: Bytes, row: Row)
    requires CodecOk(c) && SecondariesOk(c, secs, db) && Fits(secs, |row|) && KeysFit(c, secs, row)
    requires pk !in db.primary && pk != [] && [] !in db.primary
    requires forall i :: 0 <= i < |secs| ==> RoomFor(secs[i], db.primary, row)
    ensures forall i :: 0 <= i < |secs| ==> SecondaryKey(c, secs[i], row, pk) !in db.secondary[i]
    ensures SecondariesOk(c, secs, Write(c, secs, db, Put(pk, row)))
  {
    forall i | 0 <= i < |secs|
      ensures SecondaryKey(c, secs[i], row, pk) !in db.secondary[i]
      ensures SecondaryOk(c, secs[i], PutSecondary(c, secs[i], db.secondary[i], pk, row), db.primary[pk := row])
    {
      PutKeepsSecondary(c, secs[i], db.secondary[i], db.primary, pk, row);
    }
  }

  ghost predicate OverwritesNothing(c: Codec, indices: seq<PIndex>, db: Db, pk: Bytes, row: Row)
    requires CodecOk(c) && Fits(indices, |row|) && |indices| == |db.secondary| + 1
  {
    pk !in db.primary &&
    forall i :: 0 <= i < |db.secondary| ==> SecondaryKey(c, indices[i + 1], row, pk) !in db.secondary[i]
  }

  ghost predicate RoomInAll(indices: seq<PIndex>, p: map<Bytes, Row>, row: Row)
    requires Fits(indices, |row|)
  {
    forall i :: 0 <= i < |indices| ==> RoomFor(indices[i], p, row)
  }

  lemma SecondariesPutShifted(c: Codec, indices: seq<PIndex>, db: Db, pk: Bytes, row: Row)
    requires |indices| > 0 && CodecOk(c) && SecondariesOk(c, indices[1..], db) && Fits(indices, |row|)
    requires KeysFit(c, indices, row)
    requires pk !in db.primary && pk != [] && [] !in db.primary && RoomInAll(indices, db.primary, row)
    ensures OverwritesNothing(c, indices, db, pk, row)
    ensures SecondariesOk(c, indices[1..], Write(c, indices[1..], db, Put(pk, row)))
  {
    SecondariesPut(c, indices[1..], db, pk, row);
    forall i | 0 <= i < |db.secondary|
      ensures SecondaryKey(c, indices[i + 1], row, pk) !in db.secondary[i]
    {
      assert indices[1..][i] == indices[i + 1];
    }
  }

  lemma PutPieces(c: Codec, schema: Schema, st: Store, truth: Bag, row: Row, pk: Bytes)
    requires CodecOk(c) && Inv(c, schema, st, truth) && KeysFit(c, st.indices, row)
    requires |row| == schema.width && st.seqNo + 1 < U64 && RespectsKeys(schema, truth + multiset{row})
    requires pk == NewPk(c, st.indices[0], row, st.epoch, st.seqNo)
    ensures OverwritesNothing(c, st.indices, st.db, pk, row)
    ensures PrimaryOk(c, schema, st.indices[0], st.db.primary[pk := row], st.epoch,
                      NextSeq(st.indices[0], row, st.seqNo))
    ensures SecondariesOk(c, st.indices[1..], Write(c, st.indices[1..], st.db, Put(pk, row)))
  {
    assert RoomInAll(st.indices, st.db.primary, row) by {
      forall i | 0 <= i < |st.indices| ensures RoomFor(st.indices[i], st.db.primary, row) {
        RoomInIndex(schema, st.indices, i, st.db.primary, truth, row);
      }
    }
    PrimaryPut(c, schema, st.indices[0], st.db.primary, st.epoch, st.seqNo, row);
    SecondariesPutShifted(c, st.indices, st.db, pk, row);
  }

  /** A row that the unique keys allow and whose keys can be encoded overwrites no entry of any index, and
      the store is then the table with that row. */
  lemma PutKeepsInv(c: Codec, schema: Schema, st: Store, truth: Bag, row: Row)
    requires CodecOk(c) && Inv(c, schema, st, truth) && KeysFit(c, st.indices, row)
    requires |row| == schema.width && st.seqNo + 1 < U64 && RespectsKeys(schema, truth + multiset{row})
    ensures OverwritesNothing(c, st.indices, st.db, NewPk(c, st.indices[0], row, st.epoch, st.seqNo), row)
    ensures Inv(c, schema, AfterPut(c, schema, st, row), truth + multiset{row})
  {
    var pk := NewPk(c, st.indices[0], row, st.epoch, st.seqNo);
    PutPieces(c, schema, st, truth, row, pk);
    PutRepresents(st.db.primary, truth, pk, row);
  }

  ghost function AfterDel(c: Codec, st: Store, pk: Bytes, row: Row): Store
    requires CodecOk(c) && |st.indices| > 0 && Fits(st.indices, |row|)
    requires |st.db.secondary| == |st.indices| - 1
  {
    st.(db := Write(c, st.indices[1..], st.db, Del(pk, row)))
  }

  lemma FewerRowsRespectKeys(schema: Schema, truth: Bag, row: Row)
    requires RespectsKeys(schema, truth)
    ensures RespectsKeys(schema, truth - multiset{row})
  {
    forall i | 0 <= i < |schema.uniqueKeys| ensures KeysUnique(schema.uniqueKeys[i], truth - multiset{row}) {
      assert KeysUnique(schema.uniqueKeys[i], truth);
    }
  }

  /** Deleting one entry of the primary index, and the entries made for it, is deleting its row. */
  lemma DelKeepsInv(c: Codec, schema: Schema, st: Store, truth: Bag, pk: Bytes)
    requires CodecOk(c) && Inv(c, schema, st, truth) && pk in st.db.primary
    ensures Inv(c, schema, AfterDel(c, st, pk, st.db.primary[pk]), truth - multiset{st.db.primary[pk]})
  {
    var p := st.db.primary;
    var secs := st.indices[1..];
    forall i | 0 <= i < |secs|
      ensures SecondaryOk(c, secs[i], DelSecondary(c, secs[i], st.db.secondary[i], pk, p[pk]), p - {pk})
    {
      DelKeepsSecondary(c, secs[i], st.db.secondary[i], p, pk);
    }
    DelRepresents(p, truth, pk);
    FewerRowsRespectKeys(schema, truth, p[pk]);
  }
}

/** Which point lookups of the store are exact. In an index of several columns NULL and the empty text are
    the same bytes, and a lookup does not compare rows. */
module PersistentCollisions {
  import opened ByteStrings
  import opened StateTypes
  import opened KeyEncoding
  import opened PointKeys
  import opened PersistentModel
  import opened PersistentTable
  import opened PersistentRuns
  import opened PersistentLookup
  import opened PersistentCodec

  // ---------------------------------------------------------------- one lookup

  /** No row has another key that differs from this one only in NULL and the empty text. */
  ghost predicate NoTwin(columns: seq<nat>, truth: Bag, key: Key) {
    forall r :: r in truth && InBounds(columns, |r|) && Alike(KeyOf(columns, r), key) ==> KeyOf(columns, r) == key
  }

  /** The row at each entry has a key that fits. */
  lemma RowFits(c: Codec, schema: Schema, st: Store, truth: Bag, i: nat, row: Row)
    requires CodecOk(c) && Inv(c, schema, st, truth) && i < |st.indices| && row in truth
    ensures KeyFits(c, st.indices[i], row)
  {
    EveryView(c, schema, st, truth, i);
    var k := RowIsSomewhere(View(c, st, i), truth, row);
    assert EntryShape(c, st.indices[i], View(c, st, i)[k], k);
  }

  lemma ReturnsIffAlike(types: nat -> ColumnType, ix: PIndex, key: Key, row: Row)
    requires KeyFits(SourceCodec(types), ix, row)
    requires SourceCodec(types).fits(key) && TypedKey(types, ix.index.columns, key)
    ensures var own := KeyOf(ix.index.columns, row);
            Returns(SourceCodec(types), ix, key, row) <==>
            Alike(own, key) && (ReadAlone(ix, key) ==> !HasNull(own))
  {
    SourcePrefixIff(types, ix.index.columns, KeyOf(ix.index.columns, row), key);
  }

  /** A key that one read is enough for is mistaken for no other. */
  lemma NoOtherIff(types: nat -> ColumnType, ix: PIndex, key: Key, truth: Bag)
    requires forall r :: r in truth ==> KeyFits(SourceCodec(types), ix, r)
    requires SourceCodec(types).fits(key) && TypedKey(types, ix.index.columns, key)
    ensures NoOtherReturned(SourceCodec(types), ix, key, truth) <==>
            ReadAlone(ix, key) || NoTwin(ix.index.columns, truth, key)
  {
    var c, columns := SourceCodec(types), ix.index.columns;
    forall r | r in truth
      ensures Returns(c, ix, key, r) && !HasKey(columns, r, key) <==>
              !ReadAlone(ix, key) && Alike(KeyOf(columns, r), key) && KeyOf(columns, r) != key
    {
      ReturnsIffAlike(types, ix, key, r);
      if ReadAlone(ix, key) && Returns(c, ix, key, r) {
        AlikeWithoutNull(KeyOf(columns, r), key);
      }
    }
    if !NoTwin(columns, truth, key) && !ReadAlone(ix, key) {
      var r :| r in truth && InBounds(columns, |r|) && Alike(KeyOf(columns, r), key) && KeyOf(columns, r) != key;
      assert Returns(c, ix, key, r) && !HasKey(columns, r, key);
    }
  }

  /** What a lookup returns after a run: the rows behind the entries that it meets in index `i`. */
  ghost predicate LooksUp(c: Codec, schema: Schema, primary: seq<nat>, ops: seq<Op>, i: nat, key: Key, rows: Bag) {
    CodecOk(c) && InBounds(primary, schema.width) && RunsFromNew(c, schema, primary, ops) && c.fits(key) &&
    var st := RunFromNew(c, schema, primary, ops);
    i < |st.indices| && c.typed(st.indices[i].index.columns, key) &&
    Represents(Matching(c, st.indices[i], key, View(c, st, i)), rows)
  }

  /** After every run and through every index, a lookup of a key of its column types returns exactly the rows
      with that key if and only if the key is unique and holds no NULL, or no row has a key that differs
      from it only in NULL and the empty text. */
  lemma SourceLookupIff(types: nat -> ColumnType, schema: Schema, primary: seq<nat>, ops: seq<Op>, i: nat, key: Key,
                        rows: Bag)
    requires LooksUp(SourceCodec(types), schema, primary, ops, i, key, rows)
    ensures var ix, truth := RunFromNew(SourceCodec(types), schema, primary, ops).indices[i], RunTruth(multiset{}, ops);
            ExactlyMatching(rows, truth, ix.index.columns, key) <==>
            ReadAlone(ix, key) || NoTwin(ix.index.columns, truth, key)
  {
    var c := SourceCodec(types);
    var st, truth := RunFromNew(c, schema, primary, ops), RunTruth(multiset{}, ops);
    LookupExactIff(c, schema, primary, ops, i, key, rows);
    forall r | r in truth ensures KeyFits(c, st.indices[i], r) {
      RowFits(c, schema, st, truth, i, r);
    }
    NoOtherIff(types, st.indices[i], key, truth);
  }

  // ---------------------------------------------------------------- a table of one row

  function PrimaryIndex(schema: Schema, columns: seq<nat>): PIndex {
    PersistentIndex(schema, Index(columns, HashMap))
  }

  function OnePk(c: Codec, schema: Schema, columns: seq<nat>, row: Row): Bytes
    requires InBounds(columns, |row|)
  {
    NewPk(c, PrimaryIndex(schema, columns), row, 0, 0)
  }

  function OneWrite(c: Codec, schema: Schema, columns: seq<nat>, row: Row): Op
    requires InBounds(columns, |row|)
  {
    WriteBatch([Positive(row)], [Put(OnePk(c, schema, columns, row), row)])
  }

  lemma OneRowRespects(schema: Schema, row: Row)
    ensures RespectsKeys(schema, multiset{} + multiset{row})
  {
    assert (multiset{} + multiset{row})[row] == 1;
  }

  lemma OneRowAllowed(c: Codec, schema: Schema, columns: seq<nat>, row: Row)
    requires CodecOk(c) && InBounds(columns, schema.width) && |row| == schema.width
    requires KeyFits(c, PrimaryIndex(schema, columns), row)
    ensures Inv(c, schema, Created(schema, columns), multiset{})
    ensures Enabled(c, schema, Created(schema, columns), multiset{}, OneWrite(c, schema, columns, row))
  {
    CreatedInv(c, schema, columns);
    var st, ix := Created(schema, columns), PrimaryIndex(schema, columns);
    var records, ws := [Positive(row)], [Put(OnePk(c, schema, columns, row), row)];
    assert records[1..] == [] && ws[1..] == [];
    assert IsWriteOf(c, ix, map[], 0, 0, records[0], ws[0]);
    assert IsBatch(c, ix, schema.width, map[], 0, SeqAfter(ix, 0, records[0]), [], []);
    OneRowRespects(schema, row);
    assert BatchOk(schema, ix, multiset{}, multiset{} + multiset{row}, {}, []);
  }

  lemma OneRowWritten(c: Codec, schema: Schema, columns: seq<nat>, row: Row)
    requires CodecOk(c) && InBounds(columns, schema.width) && |row| == schema.width
    requires KeyFits(c, PrimaryIndex(schema, columns), row)
    ensures var ops := [OneWrite(c, schema, columns, row)];
            RunsFromNew(c, schema, columns, ops) && RunTruth(multiset{}, ops) == multiset{row} &&
            RunFromNew(c, schema, columns, ops).indices == [PrimaryIndex(schema, columns)] &&
            RunFromNew(c, schema, columns, ops).db.primary == map[OnePk(c, schema, columns, row) := row]
  {
    OneRowAllowed(c, schema, columns, row);
    var st, w := Created(schema, columns), OneWrite(c, schema, columns, row);
    var ops := [w];
    assert ops[1..] == [] && w.writes[1..] == [] && w.records[1..] == [];
    StepKeepsInv(c, schema, st, multiset{}, w);
    assert BatchTruth(multiset{}, w.records) == BatchTruth(multiset{} + multiset{row}, []);
    assert WriteAll(c, st.indices[1..], st.db, w.writes) == Write(c, st.indices[1..], st.db, w.writes[0]);
    var st' := Step(c, schema, st, multiset{}, w);
    assert Run(c, schema, st, multiset{}, ops) == Run(c, schema, st', StepTruth(multiset{}, w), ops[1..]) == st';
  }

  /** A row with another key that is alike is returned. */
  lemma TwinIsReturned(types: nat -> ColumnType, schema: Schema, columns: seq<nat>, row: Row, key: Key)
    requires InBounds(columns, schema.width) && |row| == schema.width
    requires KeyFits(SourceCodec(types), PrimaryIndex(schema, columns), row)
    requires SourceCodec(types).fits(key) && TypedKey(types, columns, key)
    requires Alike(KeyOf(columns, row), key) && KeyOf(columns, row) != key
    requires !ReadAlone(PrimaryIndex(schema, columns), key)
    ensures var c, ops := SourceCodec(types), [OneWrite(SourceCodec(types), schema, columns, row)];
            LooksUp(c, schema, columns, ops, 0, key, multiset{row}) && RunTruth(multiset{}, ops) == multiset{row} &&
            RunFromNew(c, schema, columns, ops).indices == [PrimaryIndex(schema, columns)]
  {
    var c, ix, pk := SourceCodec(types), PrimaryIndex(schema, columns), OnePk(SourceCodec(types), schema, columns, row);
    SourceCodecOk(types);
    OneRowWritten(c, schema, columns, row);
    var ops := [OneWrite(c, schema, columns, row)];
    var st := RunFromNew(c, schema, columns, ops);
    ReturnsIffAlike(types, ix, key, row);
    PrimaryViewOk(c, schema, ix, st.db.primary, st.epoch, st.seqNo);
    MeetsIffReturns(c, ix, row, pk, key);
    OneRow(pk, row);
    assert Matching(c, ix, key, View(c, st, 0)) == map[pk := row];
  }

  // ---------------------------------------------------------------- which indices are always right

  /** A lookup through an index on these columns, after some run, that does not return exactly the rows with
      the key. */
  ghost predicate WrongLookup(c: Codec, schema: Schema, columns: seq<nat>, primary: seq<nat>, ops: seq<Op>, i: nat,
                              key: Key, rows: Bag)
  {
    LooksUp(c, schema, primary, ops, i, key, rows) &&
    RunFromNew(c, schema, primary, ops).indices[i].index.columns == columns &&
    !ExactlyMatching(rows, RunTruth(multiset{}, ops), columns, key)
  }

  predicate NoText(types: nat -> ColumnType, columns: seq<nat>) {
    forall i :: 0 <= i < |columns| ==> types(columns[i]) == Number
  }

  /** Keys of one column, or without text, are alike only if they are equal. */
  lemma NoTextNoTwin(types: nat -> ColumnType, columns: seq<nat>, k: Key, l: Key)
    requires TypedKey(types, columns, k) && TypedKey(types, columns, l) && Alike(k, l)
    requires |columns| == 1 || NoText(types, columns)
    ensures k == l
  {
  }

  /** A row of ones, with this value in place of every text. */
  function Filled(types: nat -> ColumnType, width: nat, v: DfValue): Row {
    seq(width, j requires 0 <= j < width => if types(j) == Number then Int(1) else v)
  }

  lemma FilledAlike(types: nat -> ColumnType, columns: seq<nat>, width: nat)
    requires InBounds(columns, width) && |columns| != 1
    ensures var k, l := KeyOf(columns, Filled(types, width, Null)), KeyOf(columns, Filled(types, width, Text("")));
            Alike(k, l) && Alike(l, k) && TypedKey(types, columns, k) && TypedKey(types, columns, l) &&
            (k == l <==> NoText(types, columns)) && !HasNull(l) && (!NoText(types, columns) ==> HasNull(k))
  {
    var k, l := KeyOf(columns, Filled(types, width, Null)), KeyOf(columns, Filled(types, width, Text("")));
    if !NoText(types, columns) {
      var i :| 0 <= i < |columns| && types(columns[i]) != Number;
      assert k[i] == Null && l[i] == Text("");
    }
  }

  /** Both of these keys can be encoded. */
  ghost predicate WitnessFits(types: nat -> ColumnType, columns: seq<nat>, width: nat) {
    InBounds(columns, width) && SourceCodec(types).fits(KeyOf(columns, Filled(types, width, Null))) &&
    SourceCodec(types).fits(KeyOf(columns, Filled(types, width, Text(""))))
  }

  predicate SmallValues(k: Key) {
    forall i :: 0 <= i < |k| ==> Serializable(k[i]) && |ElementBytes(k[i])| <= 2 && |ValueBytes(k[i])| <= 3
  }

  lemma {:induction false} SmallKeys(k: Key)
    requires SmallValues(k)
    ensures |Elements(k)| <= 2 * |k|
  {
    if k != [] {
      SmallKeys(k[1..]);
    }
  }

  lemma SmallKeyFits(types: nat -> ColumnType, k: Key)
    requires SmallValues(k) && |k| < 0x1_0000_0000
    ensures SourceCodec(types).fits(k)
  {
    SmallKeys(k);
    assert AllSerializable(k) && |PointKeyBytes(k)| < U64;
  }

  lemma FewColumnsFit(types: nat -> ColumnType, columns: seq<nat>, width: nat)
    requires InBounds(columns, width) && |columns| < 0x1_0000_0000
    ensures WitnessFits(types, columns, width)
  {
    assert SmallValues([Null, Int(1), Text("")]);
    SmallKeyFits(types, KeyOf(columns, Filled(types, width, Null)));
    SmallKeyFits(types, KeyOf(columns, Filled(types, width, Text(""))));
  }

  /** With a text among several columns, a row with NULL there is returned for the empty text if the index is
      not unique, and a row with the empty text is returned for NULL. */
  lemma TextIsWrong(types: nat -> ColumnType, schema: Schema, columns: seq<nat>, v: DfValue, w: DfValue)
    requires WitnessFits(types, columns, schema.width) && |columns| != 1 && !NoText(types, columns)
    requires (v == Null && w == Text("") && !PrimaryIndex(schema, columns).unique) || (v == Text("") && w == Null)
    ensures var row, key := Filled(types, schema.width, v), KeyOf(columns, Filled(types, schema.width, w));
            WrongLookup(SourceCodec(types), schema, columns, columns,
                        [OneWrite(SourceCodec(types), schema, columns, row)], 0, key, multiset{row})
  {
    var row, key := Filled(types, schema.width, v), KeyOf(columns, Filled(types, schema.width, w));
    FilledAlike(types, columns, schema.width);
    TwinIsReturned(types, schema, columns, row, key);
    var c := SourceCodec(types);
    assert multiset{row}[row] == 1 && !HasKey(columns, row, key);
  }

  lemma WrongHasText(types: nat -> ColumnType, schema: Schema, columns: seq<nat>, primary: seq<nat>, ops: seq<Op>,
                     i: nat, key: Key, rows: Bag)
    requires WrongLookup(SourceCodec(types), schema, columns, primary, ops, i, key, rows)
    ensures |columns| != 1 && !NoText(types, columns)
    ensures HasNull(key) || !CheckIndexIsUnique(schema.uniqueKeys, columns)
  {
    var c := SourceCodec(types);
    var st, truth := RunFromNew(c, schema, primary, ops), RunTruth(multiset{}, ops);
    SourceLookupIff(types, schema, primary, ops, i, key, rows);
    var r :| r in truth && InBounds(columns, |r|) && Alike(KeyOf(columns, r), key) && KeyOf(columns, r) != key;
    RowFits(c, schema, st, truth, i, r);
    if |columns| == 1 || NoText(types, columns) {
      NoTextNoTwin(types, columns, KeyOf(columns, r), key);
    }
  }

  /** Some lookup through an index on these columns is wrong, after some run; or some lookup of a key without
      NULL is. */
  ghost predicate SomeWrong(types: nat -> ColumnType, schema: Schema, columns: seq<nat>, nullFree: bool) {
    exists primary, ops, i, key, rows ::
      WrongLookup(SourceCodec(types), schema, columns, primary, ops, i, key, rows) && (nullFree ==> !HasNull(key))
  }

  /** Every lookup of a key of its column types through an index is exact, after every run, if and only if
      the index has one column or none with text; for keys without NULL also if it is unique. */
  lemma SomeWrongIff(types: nat -> ColumnType, schema: Schema, columns: seq<nat>, nullFree: bool)
    requires InBounds(columns, schema.width) && |columns| < 0x1_0000_0000
    ensures SomeWrong(types, schema, columns, nullFree) <==>
            |columns| != 1 && !NoText(types, columns) &&
            (nullFree ==> !CheckIndexIsUnique(schema.uniqueKeys, columns))
  {
    if SomeWrong(types, schema, columns, nullFree) {
      WrongNeedsText(types, schema, columns, nullFree);
    }
    if |columns| != 1 && !NoText(types, columns) {
      FewColumnsFit(types, columns, schema.width);
      if !CheckIndexIsUnique(schema.uniqueKeys, columns) {
        TextGoesWrong(types, schema, columns, Null, Text(""), nullFree);
      } else if !nullFree {
        TextGoesWrong(types, schema, columns, Text(""), Null, nullFree);
      }
    }
  }

  lemma WrongNeedsText(types: nat -> ColumnType, schema: Schema, columns: seq<nat>, nullFree: bool)
    requires SomeWrong(types, schema, columns, nullFree)
    ensures |columns| != 1 && !NoText(types, columns)
    ensures nullFree ==> !CheckIndexIsUnique(schema.uniqueKeys, columns)
  {
    var primary, ops, i, key, rows :|
      WrongLookup(SourceCodec(types), schema, columns, primary, ops, i, key, rows) && (nullFree ==> !HasNull(key));
    WrongHasText(types, schema, columns, primary, ops, i, key, rows);
  }

  lemma TextGoesWrong(types: nat -> ColumnType, schema: Schema, columns: seq<nat>, v: DfValue, w: DfValue,
                      nullFree: bool)
    requires WitnessFits(types, columns, schema.width) && |columns| != 1 && !NoText(types, columns)
    requires (v == Null && w == Text("") && !PrimaryIndex(schema, columns).unique) || (v == Text("") && w == Null)
    requires nullFree ==> w == Text("")
    ensures SomeWrong(types, schema, columns, nullFree)
  {
    var row, key := Filled(types, schema.width, v), KeyOf(columns, Filled(types, schema.width, w));
    assert nullFree ==> !HasNull(key) by {
      FilledAlike(types, columns, schema.width);
    }
    TextIsWrong(types, schema, columns, v, w);
    IsSomeWrong(types, schema, columns, nullFree, columns, [OneWrite(SourceCodec(types), schema, columns, row)], 0, key,
                multiset{row});
  }

  lemma IsSomeWrong(types: nat -> ColumnType, schema: Schema, columns: seq<nat>, nullFree: bool, primary: seq<nat>,
                    ops: seq<Op>, i: nat, key: Key, rows: Bag)
    requires WrongLookup(SourceCodec(types), schema, columns, primary, ops, i, key, rows)
    requires nullFree ==> !HasNull(key)
    ensures SomeWrong(types, schema, columns, nullFree)
  {
  }

  /** Column 0 holds numbers and column 1 texts. */
  function NumberThenText(column: nat): ColumnType {
    if column == 0 then Number else Characters
  }

  lemma FilledTwo(v: DfValue)
    ensures Filled(NumberThenText, 2, v) == [Int(1), v]
  {
    var row := Filled(NumberThenText, 2, v);
    assert NumberThenText(0) == Number && NumberThenText(1) == Characters;
    assert row[0] == Int(1) && row[1] == v;
  }

  /** The row 1, NULL is written; a lookup of 1 and the empty text returns it. */
  lemma NullForEmptyText()
    ensures var row, key: Key := [Int(1), Null], [Int(1), Text("")];
            var c, schema := SourceCodec(NumberThenText), Schema(2, []);
            WrongLookup(c, schema, [0, 1], [0, 1], [OneWrite(c, schema, [0, 1], row)], 0, key, multiset{row})
  {
    var columns: seq<nat> := [0, 1];
    FewColumnsFit(NumberThenText, columns, 2);
    FilledTwo(Null);
    FilledTwo(Text(""));
    assert KeyOf(columns, [Int(1), Text("")]) == [Int(1), Text("")];
    assert NumberThenText(columns[1]) == Characters;
    TextIsWrong(NumberThenText, Schema(2, []), columns, Null, Text(""));
  }
}

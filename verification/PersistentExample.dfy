/** Tables, reached by runs of the persistent state with the encoding of the source, on which range lookups
    go wrong: one with an exclusive lower end, and one through an index of several columns with text. */
module PersistentExample {
  import opened Options
  import opened ByteStrings
  import opened StateTypes
  import opened KeyEncoding
  import opened PointKeys
  import opened PersistentModel
  import opened PersistentTable
  import opened PersistentRuns
  import opened PersistentLookup
  import opened PersistentRange
  import opened PersistentCodec
  import opened KeyReading
  import opened PersistentCollisions

  // ---------------------------------------------------------------- an order of keys

  predicate LexLess<T(==)>(less: (T, T) -> bool, a: seq<T>, b: seq<T>)
    decreases a
  {
    b != [] && (a == [] || less(a[0], b[0]) || (a[0] == b[0] && LexLess(less, a[1..], b[1..])))
  }

  ghost predicate Total<T(!new)>(less: (T, T) -> bool) {
    (forall a, b :: less(a, b) ==> !less(b, a)) &&
    (forall a, b :: !less(a, b) && !less(b, a) ==> a == b) &&
    (forall a, b, d :: less(a, b) && less(b, d) ==> less(a, d))
  }

  lemma {:induction false} LexAsymmetric<T(!new)>(less: (T, T) -> bool, a: seq<T>, b: seq<T>)
    requires Total(less)
    ensures LexLess(less, a, b) ==> !LexLess(less, b, a)
    decreases a
  {
    if a != [] && b != [] {
      LexAsymmetric(less, a[1..], b[1..]);
    }
  }

  lemma {:induction false} LexConnected<T(!new)>(less: (T, T) -> bool, a: seq<T>, b: seq<T>)
    requires Total(less) && !LexLess(less, a, b) && !LexLess(less, b, a)
    ensures a == b
    decreases a
  {
    if a != [] && b != [] {
      LexConnected(less, a[1..], b[1..]);
      assert a == [a[0]] + a[1..] && b == [b[0]] + b[1..];
    }
  }

  lemma {:induction false} LexChains<T(!new)>(less: (T, T) -> bool, a: seq<T>, b: seq<T>, d: seq<T>)
    requires Total(less) && LexLess(less, a, b) && LexLess(less, b, d)
    ensures LexLess(less, a, d)
    decreases a
  {
    if a != [] && a[0] == b[0] && b[0] == d[0] {
      LexChains(less, a[1..], b[1..], d[1..]);
    }
  }

  predicate CharLess(a: char, b: char) {
    a < b
  }

  /** NULL first, then numbers, then texts. */
  predicate ValueLess(v: DfValue, w: DfValue) {
    match (v, w)
    case (Null, _) => w != Null
    case (Int(i), Int(j)) => i < j
    case (Int(_), Text(_)) => true
    case (Text(s), Text(t)) => LexLess(CharLess, s, t)
    case _ => false
  }

  lemma ValuesTotal()
    ensures Total(ValueLess)
  {
    assert Total(CharLess);
    forall v, w | ValueLess(v, w) ensures !ValueLess(w, v) {
      if v.Text? && w.Text? {
        LexAsymmetric(CharLess, v.s, w.s);
      }
    }
    forall v, w | !ValueLess(v, w) && !ValueLess(w, v) ensures v == w {
      if v.Text? && w.Text? {
        LexConnected(CharLess, v.s, w.s);
      }
    }
    forall v, w, u | ValueLess(v, w) && ValueLess(w, u) ensures ValueLess(v, u) {
      if v.Text? && w.Text? && u.Text? {
        LexChains(CharLess, v.s, w.s, u.s);
      }
    }
  }

  predicate KeyLess(k: Key, l: Key) {
    LexLess(ValueLess, k, l)
  }

  lemma KeysTotal()
    ensures StrictTotal(KeyLess)
  {
    ValuesTotal();
    forall k, l | KeyLess(k, l) ensures !KeyLess(l, k) {
      LexAsymmetric(ValueLess, k, l);
    }
    forall k, l | !KeyLess(k, l) && !KeyLess(l, k) ensures k == l {
      LexConnected(ValueLess, k, l);
    }
    forall k, l, m | KeyLess(k, l) && KeyLess(l, m) ensures KeyLess(k, m) {
      LexChains(ValueLess, k, l, m);
    }
  }

  // ---------------------------------------------------------------- an index, then a row

  /** The primary index, the secondary one, and the row that is written. */
  datatype Setting = Setting(schema: Schema, columns: seq<nat>, index: Index, row: Row)

  ghost predicate SettingOk(c: Codec, g: Setting) {
    CodecOk(c) && InBounds(g.columns, g.schema.width) && InBounds(g.index.columns, g.schema.width) &&
    |g.row| == g.schema.width && KeyFits(c, PrimaryIndex(g.schema, g.columns), g.row) &&
    KeyFits(c, PersistentIndex(g.schema, g.index), g.row)
  }

  ghost function PkOf(c: Codec, g: Setting): Bytes
    requires SettingOk(c, g)
  {
    OnePk(c, g.schema, g.columns, g.row)
  }

  ghost function EntryOf(c: Codec, g: Setting): Bytes
    requires SettingOk(c, g)
  {
    SecondaryKey(c, PersistentIndex(g.schema, g.index), g.row, PkOf(c, g))
  }

  ghost function Ops(c: Codec, g: Setting): seq<Op>
    requires SettingOk(c, g)
  {
    [AddSecondary(g.index, map[]), OneWrite(c, g.schema, g.columns, g.row)]
  }

  function Indexed(g: Setting): Store {
    Store([PrimaryIndex(g.schema, g.columns), PersistentIndex(g.schema, g.index)], Db(map[], [map[]]), 0, 0)
  }

  ghost function Written(c: Codec, g: Setting): Store
    requires SettingOk(c, g)
  {
    Indexed(g).(db := Db(map[PkOf(c, g) := g.row], [map[EntryOf(c, g) := PkOf(c, g)]]),
                seqNo := NextSeq(PrimaryIndex(g.schema, g.columns), g.row, 0))
  }

  lemma IndexAdded(c: Codec, g: Setting)
    requires SettingOk(c, g)
    ensures Inv(c, g.schema, Created(g.schema, g.columns), multiset{})
    ensures Enabled(c, g.schema, Created(g.schema, g.columns), multiset{}, Ops(c, g)[0])
    ensures Step(c, g.schema, Created(g.schema, g.columns), multiset{}, Ops(c, g)[0]) == Indexed(g)
    ensures Inv(c, g.schema, Indexed(g), multiset{})
  {
    CreatedInv(c, g.schema, g.columns);
    StepKeepsInv(c, g.schema, Created(g.schema, g.columns), multiset{}, Ops(c, g)[0]);
  }

  /** The batch with the one row may be written. */
  lemma RowAllowed(c: Codec, g: Setting)
    requires SettingOk(c, g)
    ensures Inv(c, g.schema, Indexed(g), multiset{})
    ensures Enabled(c, g.schema, Indexed(g), multiset{}, Ops(c, g)[1])
  {
    IndexAdded(c, g);
    var st, records, ws := Indexed(g), [Positive(g.row)], [Put(PkOf(c, g), g.row)];
    assert records[1..] == [] && ws[1..] == [];
    assert IsWriteOf(c, st.indices[0], map[], 0, 0, records[0], ws[0]);
    assert IsBatch(c, st.indices[0], g.schema.width, map[], 0, SeqAfter(st.indices[0], 0, records[0]), [], []);
    OneRowRespects(g.schema, g.row);
    assert BatchOk(g.schema, st.indices[0], multiset{}, multiset{} + multiset{g.row}, {}, []);
    forall i | 0 <= i < |st.indices| ensures KeyFits(c, st.indices[i], g.row) {
    }
  }

  lemma RowWritten(c: Codec, g: Setting)
    requires SettingOk(c, g)
    ensures Inv(c, g.schema, Indexed(g), multiset{}) && Enabled(c, g.schema, Indexed(g), multiset{}, Ops(c, g)[1])
    ensures Step(c, g.schema, Indexed(g), multiset{}, Ops(c, g)[1]) == Written(c, g)
  {
    RowAllowed(c, g);
    var st, w := Indexed(g), Put(PkOf(c, g), g.row);
    var secs := st.indices[1..];
    assert secs == [PersistentIndex(g.schema, g.index)];
    assert [w][1..] == [];
    assert Write(c, secs, st.db, w).secondary == [map[EntryOf(c, g) := PkOf(c, g)]];
    assert WriteAll(c, secs, st.db, [w]) == Write(c, secs, st.db, w);
    var ix, next := st.indices[0], NextSeq(st.indices[0], g.row, 0);
    assert [Positive(g.row)][1..] == [];
    assert SeqAfterAll(ix, g.schema.width, 0, [Positive(g.row)]) == SeqAfterAll(ix, g.schema.width, next, []);
  }

  /** The table is reached from a new one. */
  lemma TableIsReached(c: Codec, g: Setting)
    requires SettingOk(c, g)
    ensures RunsFromNew(c, g.schema, g.columns, Ops(c, g))
    ensures RunFromNew(c, g.schema, g.columns, Ops(c, g)) == Written(c, g)
    ensures RunTruth(multiset{}, Ops(c, g)) == multiset{g.row}
  {
    IndexAdded(c, g);
    RowWritten(c, g);
    var ops := Ops(c, g);
    assert ops[1..] == [ops[1]] && ops[1..][1..] == [];
    StepKeepsInv(c, g.schema, Indexed(g), multiset{}, ops[1]);
    assert Runs(c, g.schema, Indexed(g), multiset{}, ops[1..]);
    assert Run(c, g.schema, Indexed(g), multiset{}, ops[1..]) == Written(c, g);
    assert [Positive(g.row)][1..] == [];
    assert BatchTruth(multiset{}, [Positive(g.row)]) == BatchTruth(multiset{} + multiset{g.row}, []);
    assert RunTruth(multiset{}, ops[1..]) == multiset{g.row};
  }

  // ---------------------------------------------------------------- an exclusive lower end

  function AllNumbers(column: nat): ColumnType {
    Number
  }

  /** Column 0 identifies a row; an ordered index is on column 1. */
  const NUMBERS: Setting := Setting(Schema(2, [[0]]), [0], Index([1], BTreeMap), [Int(1), Int(5)])

  ghost function Walk(c: Codec): Cursor
    requires SettingOk(c, NUMBERS)
  {
    Cursor(c, KeyLess, SourceSplit(1), [EntryOf(c, NUMBERS)])
  }

  ghost function Rows(c: Codec): Scope
    requires SettingOk(c, NUMBERS)
  {
    Scope(2, PersistentIndex(NUMBERS.schema, NUMBERS.index), map[EntryOf(c, NUMBERS) := NUMBERS.row])
  }

  ghost function Entries(c: Codec): map<Bytes, Bytes>
    requires SettingOk(c, NUMBERS)
  {
    map[EntryOf(c, NUMBERS) := PkOf(c, NUMBERS)]
  }

  lemma NumbersFit(i: int)
    requires 0 <= i < 100
    ensures SourceCodec(AllNumbers).fits([Int(i)])
  {
    var k: Key := [Int(i)];
    assert AllSerializable(k) && PointKeyBytes(k) == ValueBytes(Int(i));
    assert |ValueBytes(Int(i))| == 2;
  }

  lemma Uniqueness()
    ensures PersistentIndex(NUMBERS.schema, Index([0], HashMap)) == PIndex(Index([0], HashMap), true)
    ensures PersistentIndex(NUMBERS.schema, Index([1], BTreeMap)) == PIndex(Index([1], BTreeMap), false)
  {
    assert NUMBERS.schema.uniqueKeys[0] == [0];
    assert 0 in NUMBERS.schema.uniqueKeys[0];
  }

  lemma RowKeys()
    ensures KeyOf([0], NUMBERS.row) == [Int(1)] && KeyOf([1], NUMBERS.row) == [Int(5)]
  {
  }

  lemma NumbersOk()
    ensures SettingOk(SourceCodec(AllNumbers), NUMBERS)
  {
    SourceCodecOk(AllNumbers);
    RowKeys();
    NumbersFit(1);
    NumbersFit(5);
  }

  lemma WalkIsWalk(c: Codec)
    requires c == SourceCodec(AllNumbers) && SettingOk(c, NUMBERS)
    ensures Walks(Walk(c), Rows(c)) && KeyAt(Walk(c), Rows(c), 0) == [Int(5)]
    ensures BoundFits(c, SourceSplit(1), Excluded([Int(5)]))
  {
    KeysTotal();
    RowKeys();
    Uniqueness();
    NumbersFit(5);
    ReadsBackIff(AllNumbers, [Int(5)]);
    assert ViewOk(c, 2, Rows(c).ix, Rows(c).view) by {
      EntryIsShaped(c);
    }
  }

  lemma EntryIsShaped(c: Codec)
    requires SettingOk(c, NUMBERS)
    ensures EntryShape(c, Rows(c).ix, NUMBERS.row, EntryOf(c, NUMBERS))
  {
    TableIsReached(c, NUMBERS);
    var st := Written(c, NUMBERS);
    EveryView(c, NUMBERS.schema, st, multiset{NUMBERS.row}, 1);
    assert View(c, st, 1)[EntryOf(c, NUMBERS)] == NUMBERS.row;
  }

  /** The primary key of the row is not the lower end, so its entry is not passed over. */
  lemma NothingIsSkipped(c: Codec)
    requires c == SourceCodec(AllNumbers) && SettingOk(c, NUMBERS)
    ensures !Skips(Walk(c), Entries(c), [Int(5)], 0)
  {
    RowKeys();
    Uniqueness();
    NumbersFit(1);
    NumbersFit(5);
    SourcePrefixIff(AllNumbers, [0], [Int(1)], [Int(5)]);
    assert PkOf(c, NUMBERS) == c.prefix([Int(1)]) + [];
  }

  lemma OnlyRow(rows: Bag, row: Row, columns: seq<nat>, wanted: Key -> bool)
    requires ExactlyWith(rows, multiset{row}, columns, wanted)
    requires InBounds(columns, |row|) && wanted(KeyOf(columns, row))
    ensures rows == multiset{row}
  {
    forall r: Row ensures rows[r] == multiset{row}[r] {
    }
  }

  /** What a range lookup through the ordered index of the table returns. */
  ghost predicate RangeReturns(c: Codec, lower: KeyBound, upper: KeyBound, rows: Bag) {
    SettingOk(c, NUMBERS) && Walks(Walk(c), Rows(c)) && Entries(c).Keys == Rows(c).view.Keys &&
    BoundFits(c, SourceSplit(1), lower) && BoundFits(c, SourceSplit(1), upper) &&
    RangeResult(Walk(c), Rows(c), Entries(c), multiset{NUMBERS.row}, lower, upper, rows)
  }

  lemma UnskippedRange(w: Cursor, s: Scope, cf: map<Bytes, Bytes>, truth: Bag, key: Key, upper: KeyBound, rows: Bag)
    requires Walks(w, s) && cf.Keys == s.view.Keys && |w.keys| == 1 && !Skips(w, cf, key, 0)
    requires RangeResult(w, s, cf, truth, Excluded(key), upper, rows)
    ensures ExactlyWith(rows, truth, s.ix.index.columns, Scans(w.less, Included(key), upper))
  {
  }

  lemma EndInScan(key: Key)
    ensures Scans(KeyLess, Included(key), Unbounded)(key)
    ensures !InKeyRange(KeyLess, Excluded(key), Unbounded, key)
  {
    KeysTotal();
  }

  lemma EndIsReturned(c: Codec, rows: Bag)
    requires c == SourceCodec(AllNumbers) && RangeReturns(c, Excluded([Int(5)]), Unbounded, rows)
    ensures rows == multiset{NUMBERS.row}
  {
    NothingIsSkipped(c);
    UnskippedRange(Walk(c), Rows(c), Entries(c), multiset{NUMBERS.row}, [Int(5)], Unbounded, rows);
    RowKeys();
    EndInScan([Int(5)]);
    OnlyRow(rows, NUMBERS.row, [1], Scans(KeyLess, Included([Int(5)]), Unbounded));
  }

  /** The condition for a right lookup fails. */
  ghost predicate EndNotRight(c: Codec) {
    SettingOk(c, NUMBERS) && Walks(Walk(c), Rows(c)) && Entries(c).Keys == Rows(c).view.Keys &&
    BoundFits(c, SourceSplit(1), Excluded([Int(5)])) &&
    !RangeRight(Walk(c), Rows(c), Entries(c), multiset{NUMBERS.row}, Excluded([Int(5)]), Unbounded)
  }

  lemma EndIsNotRight(c: Codec)
    requires c == SourceCodec(AllNumbers) && SettingOk(c, NUMBERS)
    ensures EndNotRight(c)
  {
    WalkIsWalk(c);
    NothingIsSkipped(c);
    ExclusiveReturnsBound(Walk(c), Rows(c), Entries(c), multiset{NUMBERS.row}, Excluded([Int(5)]), Unbounded, 0);
  }

  lemma ResultIsRow(w: Cursor, s: Scope, cf: map<Bytes, Bytes>, row: Row, key: Key)
    requires Walks(w, s) && cf.Keys == s.view.Keys && HasKey(s.ix.index.columns, row, key) && w.less == KeyLess
    requires !RangeRight(w, s, cf, multiset{row}, Excluded(key), Unbounded)
    ensures RangeResult(w, s, cf, multiset{row}, Excluded(key), Unbounded, multiset{row})
  {
    EndInScan(key);
    assert multiset{row}[row] == 1 && !Range(KeyLess, Excluded(key), Unbounded)(key);
  }

  /** The cursor and its rows are those of the ordered index of the table. */
  ghost predicate IsSecondIndex(c: Codec, st: Store)
    requires SettingOk(c, NUMBERS)
  {
    |st.indices| == 2 && SecondariesOk(c, st.indices[1..], st.db) && st.indices[1] == Rows(c).ix &&
    st.db.secondary == [Entries(c)] && View(c, st, 1) == Rows(c).view
  }

  lemma WrittenIndex(c: Codec)
    requires SettingOk(c, NUMBERS) && Inv(c, NUMBERS.schema, Written(c, NUMBERS), multiset{NUMBERS.row})
    ensures IsSecondIndex(c, Written(c, NUMBERS))
  {
    assert Written(c, NUMBERS).indices[1..][0] == Rows(c).ix;
  }

  /** The table is reached by a run, and an iterator over its ordered index can be put at the lower end. */
  ghost predicate NumbersReached(c: Codec) {
    SettingOk(c, NUMBERS) && RunsFromNew(c, NUMBERS.schema, NUMBERS.columns, Ops(c, NUMBERS)) &&
    RunTruth(multiset{}, Ops(c, NUMBERS)) == multiset{NUMBERS.row} &&
    IsSecondIndex(c, RunFromNew(c, NUMBERS.schema, NUMBERS.columns, Ops(c, NUMBERS)))
  }

  lemma NumbersAreReached()
    ensures NumbersReached(SourceCodec(AllNumbers))
  {
    var c := SourceCodec(AllNumbers);
    NumbersOk();
    TableIsReached(c, NUMBERS);
    WrittenIndex(c);
  }

  lemma RowComesBack(c: Codec)
    requires c == SourceCodec(AllNumbers) && EndNotRight(c)
    ensures RangeReturns(c, Excluded([Int(5)]), Unbounded, multiset{NUMBERS.row})
  {
    RowKeys();
    ResultIsRow(Walk(c), Rows(c), Entries(c), NUMBERS.row, [Int(5)]);
  }

  /** Rows with a second column above 5 are asked for; what is returned is the row with 5, since its primary
      key is 1. */
  lemma ExclusiveEndIsWrong(rows: Bag)
    ensures NumbersReached(SourceCodec(AllNumbers)) && EndNotRight(SourceCodec(AllNumbers))
    ensures RangeReturns(SourceCodec(AllNumbers), Excluded([Int(5)]), Unbounded, rows) <==>
            rows == multiset{NUMBERS.row}
    ensures !InKeyRange(KeyLess, Excluded([Int(5)]), Unbounded, KeyOf([1], NUMBERS.row))
  {
    NumbersAreReached();
    EndIsNotRight(SourceCodec(AllNumbers));
    if rows == multiset{NUMBERS.row} {
      RowComesBack(SourceCodec(AllNumbers));
    } else if RangeReturns(SourceCodec(AllNumbers), Excluded([Int(5)]), Unbounded, rows) {
      EndIsReturned(SourceCodec(AllNumbers), rows);
    }
    RowKeys();
    EndInScan([Int(5)]);
  }

  // ---------------------------------------------------------------- text in an ordered index

  /** No unique key; an ordered index is on a number and a text. */
  const WORDS: Setting := Setting(Schema(2, []), [0], Index([0, 1], BTreeMap), [Int(1), Text("abc")])

  lemma WordKeys()
    ensures KeyOf([0], WORDS.row) == [Int(1)] && KeyOf([0, 1], WORDS.row) == [Int(1), Text("abc")]
  {
  }

  lemma WordKeysFit()
    ensures SourceCodec(NumberThenText).fits([Int(1)]) && SourceCodec(NumberThenText).fits([Int(1), Text("abc")])
  {
    assert AllSerializable([Int(1)]) && AllSerializable([Int(1), Text("abc")]);
    TwoElements(Int(1), Text("abc"));
    assert |PointKeyBytes([Int(1)])| == 2 && |PointKeyBytes([Int(1), Text("abc")])| == 6;
  }

  lemma WordsOk()
    ensures SettingOk(SourceCodec(NumberThenText), WORDS)
  {
    SourceCodecOk(NumberThenText);
    WordKeys();
    WordKeysFit();
  }

  lemma WordEntry(c: Codec)
    requires SettingOk(c, WORDS)
    ensures EntryOf(c, WORDS) == c.prefix([Int(1), Text("abc")]) + PkOf(c, WORDS)
  {
    WordKeys();
  }

  /** The comparator of the index reads both entries, where it does not panic. */
  predicate CanCompare(arity: nat, a: Bytes, b: Bytes) {
    ParseEntry(arity, a) != Unreadable && ParseEntry(arity, b) != Unreadable
  }

  ghost predicate WordsReached(c: Codec) {
    SettingOk(c, WORDS) && RunsFromNew(c, WORDS.schema, WORDS.columns, Ops(c, WORDS)) &&
    RunFromNew(c, WORDS.schema, WORDS.columns, Ops(c, WORDS)).db.secondary ==
      [map[EntryOf(c, WORDS) := PkOf(c, WORDS)]]
  }

  lemma WordsAreReached()
    ensures WordsReached(SourceCodec(NumberThenText))
  {
    WordsOk();
    TableIsReached(SourceCodec(NumberThenText), WORDS);
  }

  /** A table is reached by a run; the only entry of its ordered index cannot be compared with anything, such
      as the end of a range. */
  lemma OrderedTextPanics(b: Bytes)
    ensures WordsReached(SourceCodec(NumberThenText))
    ensures var entry := EntryOf(SourceCodec(NumberThenText), WORDS);
            !CanCompare(2, entry, b) && !CanCompare(2, b, entry)
  {
    WordsAreReached();
    WordEntry(SourceCodec(NumberThenText));
    WordUnreadable(NumberThenText, PkOf(SourceCodec(NumberThenText), WORDS));
  }

  /** The comparator of an ordered index reads all keys of its column types back if and only if the index has
      one column or none with text. */
  lemma OrderedReadsIff(types: nat -> ColumnType, columns: seq<nat>, width: nat)
    requires InBounds(columns, width) && 0 < |columns| < 0x1_0000_0000
    ensures (forall k :: SourceCodec(types).fits(k) && TypedKey(types, columns, k) ==>
               ReadsBack(SourceCodec(types), SourceSplit(|columns|), k)) <==>
            |columns| == 1 || NoText(types, columns)
  {
    var c, l := SourceCodec(types), KeyOf(columns, Filled(types, width, Text("")));
    forall k | c.fits(k) && TypedKey(types, columns, k)
      ensures ReadsBack(c, SourceSplit(|columns|), k) <==> HasVariants(k)
    {
      ReadsBackIff(types, k);
    }
    if |columns| != 1 {
      FewColumnsFit(types, columns, width);
      FilledAlike(types, columns, width);
      if i :| 0 <= i < |columns| && types(columns[i]) != Number {
        assert l[i] == Text("");
      }
    }
  }
}

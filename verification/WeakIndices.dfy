/** Weak indices beside one partial strict index: they always find every materialised row, and hold
    nothing else unless copies of a row were evicted by key. */
module WeakIndices {
  import opened Options
  import opened StateTypes
  import opened MemoryModel
  import opened MemoryRuns

  /** How many copies of a row a keyed map holds under the row's own key. */
  function Copies(k: Keyed, columns: seq<nat>, r: Row): nat {
    if InBounds(columns, |r|) && KeyOf(columns, r) in k then k[KeyOf(columns, r)][r] else 0
  }

  /** Rows are stored under their own key only. */
  ghost predicate KeyedOk(k: Keyed, columns: seq<nat>) {
    forall key, r :: key in k && r in k[key] ==> HasKey(columns, r, key)
  }

  function One(r: Row, row: Row): nat {
    if r == row then 1 else 0
  }

  lemma KeyedInsertCopies(k: Keyed, columns: seq<nat>, row: Row)
    requires KeyedOk(k, columns) && InBounds(columns, |row|)
    ensures KeyedOk(KeyedInsert(k, columns, row, false).0, columns)
    ensures forall r :: Copies(KeyedInsert(k, columns, row, false).0, columns, r) ==
                        Copies(k, columns, r) + One(r, row)
  {
  }

  /** A row that is there loses one copy, even when the bag is emptied without a comparison. */
  lemma KeyedRemoveCopies(k: Keyed, columns: seq<nat>, row: Row)
    requires KeyedOk(k, columns) && InBounds(columns, |row|) && Copies(k, columns, row) >= 1
    ensures KeyedOk(KeyedRemove(k, columns, row).0, columns)
    ensures forall r :: Copies(KeyedRemove(k, columns, row).0, columns, r) ==
                        Copies(k, columns, r) - One(r, row)
  {
    TakeOneIsMinus(k[KeyOf(columns, row)], row);
  }

  /** How many copies of a row the strict index has materialised. */
  function Materialised(m: Memory, r: Row): nat
    requires |m.singles| == 1
  {
    Copies(m.singles[0].rows, m.singles[0].index.columns, r)
  }

  /** Every materialised row is found by every weak index. */
  ghost predicate WeakCovers(m: Memory) {
    |m.singles| == 1 && m.singles[0].partial &&
    forall c :: c in m.weak ==> KeyedOk(m.weak[c], c) && forall r :: Copies(m.weak[c], c, r) >= Materialised(m, r)
  }

  /** ... and nothing else is. */
  ghost predicate WeakEqual(m: Memory) {
    WeakCovers(m) &&
    forall c, r :: c in m.weak ==> Copies(m.weak[c], c, r) == Materialised(m, r)
  }

  // ---------------------------------------------------------------- writes

  lemma StrictGainsOne(s: Single, row: Row)
    requires InBounds(s.index.columns, |row|) && KeyOf(s.index.columns, row) in s.rows
    ensures forall r :: Copies(InsertRow(s, row).rows, s.index.columns, r) ==
                        Copies(s.rows, s.index.columns, r) + One(r, row)
  {
  }

  /** What an insert does to a state with one partial index. */
  lemma InsertSingle(m: Memory, row: Row, tag: Option<Tag>)
    requires WellFormed(m, |row|) && |m.singles| == 1 && m.singles[0].partial && (tag.Some? ==> tag.value in m.byTag)
    ensures Insert(m, row, tag).0 ==
            if KeyOf(m.singles[0].index.columns, row) in m.singles[0].rows
            then InsertWeak(m, row).(singles := [InsertRow(m.singles[0], row)])
            else m
  {
    var s := m.singles[0];
    assert m.singles == [s] && m.singles[0 := InsertRow(s, row)] == [InsertRow(s, row)];
    assert InsertSingles(m, row).singles == [InsertRow(s, row)];
    assert HitsSome(m, row) <==> Filled(s, KeyOf(s.index.columns, row));
  }

  lemma InsertWeakCopies(m: Memory, row: Row, tag: Option<Tag>)
    requires WellFormed(m, |row|) && WeakCovers(m) && (tag.Some? ==> tag.value in m.byTag)
    ensures WeakCovers(Insert(m, row, tag).0)
    ensures WeakEqual(m) ==> WeakEqual(Insert(m, row, tag).0)
  {
    var s := m.singles[0];
    InsertSingle(m, row, tag);
    if KeyOf(s.index.columns, row) in s.rows {
      StrictGainsOne(s, row);
      BothGainOne(m, Insert(m, row, tag).0, row);
    }
  }

  /** The strict index and every weak one gain the same row. */
  lemma BothGainOne(m: Memory, m': Memory, row: Row)
    requires WeakCovers(m) && (forall c :: c in m.weak ==> InBounds(c, |row|))
    requires |m'.singles| == 1 && m'.singles[0].partial && m'.weak == InsertWeak(m, row).weak
    requires forall r :: Materialised(m', r) == Materialised(m, r) + One(r, row)
    ensures WeakCovers(m') && (WeakEqual(m) ==> WeakEqual(m'))
  {
    forall c | c in m.weak
      ensures KeyedOk(m'.weak[c], c) && forall r :: Copies(m'.weak[c], c, r) == Copies(m.weak[c], c, r) + One(r, row)
    {
      KeyedInsertCopies(m.weak[c], c, row);
    }
  }

  lemma ExactIsKeyedOk(s: Single, truth: Bag)
    requires Exact(s, truth)
    ensures KeyedOk(s.rows, s.index.columns)
  {
    forall key, r | key in s.rows && r in s.rows[key] ensures HasKey(s.index.columns, r, key) {
      assert ExactlyMatching(s.rows[key], truth, s.index.columns, key);
    }
  }

  /** Taking one copy of a materialised row out of every weak index. */
  lemma RemoveWeakOnce(m: Memory, row: Row, width: nat)
    requires WellFormed(m, width) && |row| == width
    requires forall c :: c in m.weak ==> KeyedOk(m.weak[c], c) && Copies(m.weak[c], c, row) >= 1
    ensures RemoveWeak(m, row).weak.Keys == m.weak.Keys
    ensures forall c :: c in m.weak ==> KeyedOk(RemoveWeak(m, row).weak[c], c)
    ensures forall c, r :: c in m.weak ==>
              Copies(RemoveWeak(m, row).weak[c], c, r) == Copies(m.weak[c], c, r) - One(r, row)
  {
    forall c | c in m.weak
      ensures KeyedOk(RemoveWeak(m, row).weak[c], c) &&
              forall r :: Copies(RemoveWeak(m, row).weak[c], c, r) == Copies(m.weak[c], c, r) - One(r, row)
    {
      KeyedRemoveCopies(m.weak[c], c, row);
    }
  }

  /** Every count went down by one copy of `row`. */
  ghost predicate LostOne(m: Memory, m': Memory, row: Row)
    requires |m.singles| == 1 && |m'.singles| == 1
  {
    m'.weak.Keys == m.weak.Keys &&
    (forall r :: Materialised(m', r) == Materialised(m, r) - One(r, row)) &&
    (forall c, r :: c in m.weak ==> Copies(m'.weak[c], c, r) == Copies(m.weak[c], c, r) - One(r, row))
  }

  lemma LostOneCovers(m: Memory, m': Memory, row: Row)
    requires WeakCovers(m) && |m'.singles| == 1 && m'.singles[0].partial && LostOne(m, m', row)
    requires forall c :: c in m'.weak ==> KeyedOk(m'.weak[c], c)
    ensures WeakCovers(m')
    ensures WeakEqual(m) ==> WeakEqual(m')
  {
  }

  /** What a removal does to a state with one index. */
  lemma RemoveSingle(m: Memory, row: Row)
    requires WellFormed(m, |row|) && |m.singles| == 1
    ensures Remove(m, row).0 ==
            if KeyOf(m.singles[0].index.columns, row) in m.singles[0].rows
            then RemoveWeak(m, row).(singles := [RemoveRow(m.singles[0], row)])
            else m
  {
    assert RemoveSingles(m, row).singles == [RemoveRow(m.singles[0], row)];
    assert m.singles == [m.singles[0]];
  }

  lemma RemoveWeakCopies(m: Memory, truth: Bag, row: Row)
    requires Inv(m, truth, |row|) && WeakCovers(m) && row in truth
    ensures WeakCovers(Remove(m, row).0)
    ensures WeakEqual(m) ==> WeakEqual(Remove(m, row).0)
  {
    var s := m.singles[0];
    var key := KeyOf(s.index.columns, row);
    RemoveSingle(m, row);
    if key in s.rows {
      assert ExactlyMatching(s.rows[key], truth, s.index.columns, key);
      assert Materialised(m, row) >= 1;
      ExactIsKeyedOk(s, truth);
      KeyedRemoveCopies(s.rows, s.index.columns, row);
      RemoveWeakOnce(m, row, |row|);
      LostOneCovers(m, Remove(m, row).0, row);
    }
  }

  lemma {:induction false} WriteKeepsWeak(m: Memory, truth: Bag, records: seq<Record>, width: nat)
    requires Inv(m, truth, width) && RecordsFit(records, width) && BatchPossible(truth, records) && WeakCovers(m)
    ensures WeakCovers(Process(m, records, None, width).0)
    ensures WeakEqual(m) ==> WeakEqual(Process(m, records, None, width).0)
    decreases records
  {
    if records != [] {
      var rec := records[0];
      ApplyUntagged(m, truth, rec, width);
      match rec {
        case Positive(row) => InsertWeakCopies(m, row, None);
        case Negative(row) => RemoveWeakCopies(m, truth, row);
      }
      WriteKeepsWeak(Apply(m, rec, None).0, ApplyTruth(truth, rec), records[1..], width);
    }
  }

  lemma {:induction false} TaggedKeepsWeak(m: Memory, tag: Tag, rows: seq<Row>, width: nat)
    requires WellFormed(m, width) && tag in m.byTag && (forall r :: r in rows ==> |r| == width) && WeakCovers(m)
    ensures RecordsFit(Positives(rows), width)
    ensures WeakCovers(Process(m, Positives(rows), Some(tag), width).0)
    ensures WeakEqual(m) ==> WeakEqual(Process(m, Positives(rows), Some(tag), width).0)
    decreases rows
  {
    if rows != [] {
      InsertWeakCopies(m, rows[0], Some(tag));
      ApplyWellFormed(m, Positive(rows[0]), Some(tag));
      assert Positives(rows)[0] == Positive(rows[0]) && Positives(rows)[1..] == Positives(rows[1..]);
      TaggedKeepsWeak(Insert(m, rows[0], Some(tag)).0, tag, rows[1..], width);
    }
  }

  lemma FillKeepsWeak(m: Memory, tag: Tag, keys: seq<Key>)
    requires WeakCovers(m) && tag in m.byTag && m.byTag[tag] < |m.singles|
    requires forall k :: k in keys ==> k !in m.singles[m.byTag[tag]].rows
    ensures WeakCovers(Fill(m, tag, keys))
    ensures WeakEqual(m) ==> WeakEqual(Fill(m, tag, keys))
  {
    FillAllRows(m.singles[0], keys);
    assert forall r :: Materialised(Fill(m, tag, keys), r) == Materialised(m, r);
  }

  // ---------------------------------------------------------------- evictions

  /** The evicted rows leave each weak index, as many copies of each as are listed. */
  lemma {:induction false} RemoveWeakAllCopies(m: Memory, rows: seq<Row>, width: nat)
    requires WellFormed(m, width) && forall r :: r in rows ==> |r| == width
    requires forall c :: c in m.weak ==> KeyedOk(m.weak[c], c)
    requires forall c, r :: c in m.weak ==> Copies(m.weak[c], c, r) >= multiset(rows)[r]
    ensures RemoveWeakAll(m, rows, width).weak.Keys == m.weak.Keys
    ensures forall c :: c in m.weak ==> KeyedOk(RemoveWeakAll(m, rows, width).weak[c], c)
    ensures forall c, r :: c in m.weak ==>
              Copies(RemoveWeakAll(m, rows, width).weak[c], c, r) == Copies(m.weak[c], c, r) - multiset(rows)[r]
    decreases rows
  {
    if rows != [] {
      assert rows == [rows[0]] + rows[1..];
      assert forall r :: multiset(rows)[r] == One(r, rows[0]) + multiset(rows[1..])[r];
      assert forall r :: r in rows[1..] ==> r in rows;
      assert rows[0] in rows && multiset(rows)[rows[0]] >= 1;
      RemoveWeakOnce(m, rows[0], width);
      RemoveWeakAllCopies(RemoveWeak(m, rows[0]), rows[1..], width);
    }
  }

  lemma {:induction false} EvictAllSnoc(s: Single, keys: seq<Key>, key: Key)
    ensures EvictAll(s, keys + [key]) == Evict(EvictAll(s, keys), key)
    ensures key in EvictAll(s, keys).rows <==> key in s.rows && key !in keys
    ensures key in EvictAll(s, keys).rows ==> EvictAll(s, keys).rows[key] == s.rows[key]
    decreases keys
  {
    EvictAllRows(s, keys);
    if keys == [] {
      assert keys + [key] == [key];
      assert EvictAll(Evict(s, key), []) == Evict(s, key);
    } else {
      assert (keys + [key])[1..] == keys[1..] + [key];
      EvictAllSnoc(Evict(s, keys[0]), keys[1..], key);
    }
  }

  /** After rows were evicted from the strict index and the `order` rows left the weak ones: all
      remaining rows are still found, and the bags are equal exactly when as many copies left. */
  lemma {:induction false} AfterEviction(m: Memory, s: Single, order: seq<Row>, width: nat)
    requires WellFormed(m, width) && WeakCovers(m)
    requires s.partial && s.index == m.singles[0].index && forall r :: r in order ==> |r| == width
    requires forall r :: Copies(s.rows, s.index.columns, r) + multiset(order)[r] <= Materialised(m, r)
    ensures WeakCovers(EvictInto(m, 0, s, order, width))
    ensures WeakEqual(m) && m.weak != map[] ==>
              (WeakEqual(EvictInto(m, 0, s, order, width)) <==>
               forall r :: Copies(s.rows, s.index.columns, r) + multiset(order)[r] == Materialised(m, r))
  {
    var m1 := WithSingle(m, 0, s);
    var m2 := RemoveWeakAll(m1, order, width);
    RemoveWeakAllStrict(m1, order, width);
    RemoveWeakAllCopies(m1, order, width);
    if WeakEqual(m) && m.weak != map[] {
      var c :| c in m.weak;
      assert forall r :: Copies(m2.weak[c], c, r) == Materialised(m, r) - multiset(order)[r];
    }
  }

  lemma WithoutWeak(m: Memory)
    requires WeakCovers(m) && m.weak == map[]
    ensures WeakEqual(m)
  {
  }

  lemma EvictRandomCounts(s: Single, truth: Bag, key: Key, order: seq<Row>)
    requires Exact(s, truth) && key in s.rows && multiset(order) == s.rows[key]
    ensures forall r :: Copies(Evict(s, key).rows, s.index.columns, r) + multiset(order)[r] ==
                        Copies(s.rows, s.index.columns, r)
  {
    ExactIsKeyedOk(s, truth);
    forall r
      ensures Copies(Evict(s, key).rows, s.index.columns, r) + s.rows[key][r] == Copies(s.rows, s.index.columns, r)
    {
      assert s.rows[key][r] > 0 ==> r in s.rows[key];
    }
  }

  /** One round of `evict_bytes` takes out every copy of every evicted row. */
  lemma EvictRandomKeepsWeak(m: Memory, truth: Bag, width: nat, key: Key, order: seq<Row>)
    requires WellFormed(m, width) && WeakCovers(m) && Exact(m.singles[0], truth)
    requires key in m.singles[0].rows && multiset(order) == m.singles[0].rows[key]
    requires forall r :: r in order ==> |r| == width
    ensures WeakCovers(EvictInto(m, 0, Evict(m.singles[0], key), order, width))
    ensures WeakEqual(m) ==> WeakEqual(EvictInto(m, 0, Evict(m.singles[0], key), order, width))
  {
    var s := m.singles[0];
    EvictRandomCounts(s, truth, key, order);
    AfterEviction(m, Evict(s, key), order, width);
    if m.weak == map[] {
      RemoveWeakAllStrict(WithSingle(m, 0, Evict(s, key)), order, width);
      WithoutWeak(EvictInto(m, 0, Evict(s, key), order, width));
    }
  }

  lemma {:induction false} DistinctMultiplicity(order: seq<Row>, r: Row)
    requires Distinct(order)
    ensures multiset(order)[r] == if r in order then 1 else 0
  {
    if order != [] {
      assert order == [order[0]] + order[1..];
      DistinctMultiplicity(order[1..], r);
    }
  }

  /** Evicting by key takes out one copy of each evicted row. */
  lemma {:induction false} EvictKeysCounts(s: Single, truth: Bag, keys: seq<Key>, order: seq<Row>)
    requires Exact(s, truth) && ListsEvicted(order, s, keys)
    ensures EvictAll(s, keys).index == s.index && EvictAll(s, keys).partial == s.partial
    ensures forall r :: Copies(EvictAll(s, keys).rows, s.index.columns, r) + multiset(order)[r] <=
                        Copies(s.rows, s.index.columns, r)
    ensures (forall r :: Copies(EvictAll(s, keys).rows, s.index.columns, r) + multiset(order)[r] ==
                         Copies(s.rows, s.index.columns, r))
            <==> forall r :: r in order ==> Copies(s.rows, s.index.columns, r) == 1
  {
    EvictAllRows(s, keys);
    forall r
      ensures r in order ==>
                multiset(order)[r] == 1 && Copies(EvictAll(s, keys).rows, s.index.columns, r) == 0 &&
                Copies(s.rows, s.index.columns, r) >= 1
      ensures r !in order ==>
                multiset(order)[r] == 0 &&
                Copies(EvictAll(s, keys).rows, s.index.columns, r) == Copies(s.rows, s.index.columns, r)
    {
      DistinctMultiplicity(order, r);
    }
  }

  /** `evict_keys` keeps every remaining row found. It keeps the bags equal exactly when no evicted
      row had a second copy. */
  lemma {:induction false} EvictKeysKeepsWeak(m: Memory, truth: Bag, width: nat, keys: seq<Key>, order: seq<Row>)
    requires WellFormed(m, width) && WeakCovers(m) && Exact(m.singles[0], truth)
    requires ListsEvicted(order, m.singles[0], keys) && forall r :: r in order ==> |r| == width
    ensures WeakCovers(EvictInto(m, 0, EvictAll(m.singles[0], keys), order, width))
    ensures WeakEqual(m) && m.weak != map[] ==>
              (WeakEqual(EvictInto(m, 0, EvictAll(m.singles[0], keys), order, width)) <==>
               forall r :: r in order ==> Materialised(m, r) == 1)
  {
    EvictKeysCounts(m.singles[0], truth, keys, order);
    AfterEviction(m, EvictAll(m.singles[0], keys), order, width);
  }

  // ---------------------------------------------------------------- runs

  predicate WeakOp(op: Op) {
    op.Write? || op.Replay? || op.EvictKeys? || op.EvictRandom?
  }

  ghost predicate RowsDistinct(truth: Bag) {
    forall r :: truth[r] <= 1
  }

  lemma EvictedOnce(m: Memory, truth: Bag, keys: seq<Key>, order: seq<Row>)
    requires |m.singles| == 1 && Exact(m.singles[0], truth) && RowsDistinct(truth)
    requires ListsEvicted(order, m.singles[0], keys)
    ensures forall r :: r in order ==> Materialised(m, r) == 1
  {
    var s := m.singles[0];
    forall r | r in order ensures Materialised(m, r) == 1 {
      var k := KeyOf(s.index.columns, r);
      assert ExactlyMatching(s.rows[k], truth, s.index.columns, k);
      assert s.rows[k][r] > 0;
    }
  }

  lemma {:induction false} EvictKeysStep(m: Memory, truth: Bag, width: nat, keys: seq<Key>, order: seq<Row>)
    requires WellFormed(m, width) && WeakCovers(m) && Exact(m.singles[0], truth)
    requires ListsEvicted(order, m.singles[0], keys) && forall r :: r in order ==> |r| == width
    ensures WeakCovers(EvictInto(m, 0, EvictAll(m.singles[0], keys), order, width))
    ensures WeakEqual(m) && RowsDistinct(truth) ==>
              WeakEqual(EvictInto(m, 0, EvictAll(m.singles[0], keys), order, width))
  {
    EvictKeysKeepsWeak(m, truth, width, keys, order);
    if RowsDistinct(truth) {
      EvictedOnce(m, truth, keys, order);
    }
    if m.weak == map[] {
      RemoveWeakAllStrict(WithSingle(m, 0, EvictAll(m.singles[0], keys)), order, width);
      WithoutWeak(EvictInto(m, 0, EvictAll(m.singles[0], keys), order, width));
    }
  }

  lemma {:induction false} ReplayStep(m: Memory, truth: Bag, width: nat, tag: Tag, keys: seq<Key>, rows: seq<Row>)
    requires Inv(m, truth, width) && Enabled(m, truth, width, Replay(tag, keys, rows)) && WeakCovers(m)
    ensures WeakCovers(Step(m, truth, width, Replay(tag, keys, rows)))
    ensures WeakEqual(m) ==> WeakEqual(Step(m, truth, width, Replay(tag, keys, rows)))
  {
    ReplayKeepsInv(m, truth, width, tag, keys, rows);
    FillKeepsWeak(m, tag, keys);
    forall r | r in rows ensures |r| == width {
      assert multiset(rows)[r] > 0;
    }
    TaggedKeepsWeak(Fill(m, tag, keys), tag, rows, width);
  }

  lemma {:induction false} WeakStepEvictKeys(m: Memory, truth: Bag, width: nat, op: Op)
    requires Inv(m, truth, width) && op.EvictKeys? && Enabled(m, truth, width, op) && WeakCovers(m)
    ensures WeakCovers(Step(m, truth, width, op))
    ensures WeakEqual(m) && RowsDistinct(truth) ==> WeakEqual(Step(m, truth, width, op))
  {
    if op.tag in m.byTag {
      assert m.byTag[op.tag] == 0;
      var s := m.singles[0];
      EvictedFit(op.order, s, op.keys, truth, width);
      EvictKeysStep(m, truth, width, op.keys, op.order);
      assert Step(m, truth, width, op) == EvictInto(m, 0, EvictAll(s, op.keys), op.order, width);
    }
  }

  lemma {:induction false} WeakStepEvictRandom(m: Memory, truth: Bag, width: nat, op: Op)
    requires Inv(m, truth, width) && op.EvictRandom? && Enabled(m, truth, width, op) && WeakCovers(m)
    ensures WeakCovers(Step(m, truth, width, op))
    ensures WeakEqual(m) ==> WeakEqual(Step(m, truth, width, op))
  {
    assert op.position == 0;
    var s := m.singles[0];
    BagFits(op.order, s, op.key, truth, width);
    EvictRandomKeepsWeak(m, truth, width, op.key, op.order);
    assert Step(m, truth, width, op) == EvictInto(m, 0, Evict(s, op.key), op.order, width);
  }

  lemma {:induction false} WeakStep(m: Memory, truth: Bag, width: nat, op: Op)
    requires Inv(m, truth, width) && Enabled(m, truth, width, op) && WeakOp(op) && WeakCovers(m)
    ensures WeakCovers(Step(m, truth, width, op))
    ensures WeakEqual(m) && (op.EvictKeys? ==> RowsDistinct(truth)) ==> WeakEqual(Step(m, truth, width, op))
  {
    match op
    case Write(records) => WriteKeepsWeak(m, truth, records, width);
    case Replay(tag, keys, rows) => ReplayStep(m, truth, width, tag, keys, rows);
    case EvictKeys(_, _, _) => WeakStepEvictKeys(m, truth, width, op);
    case EvictRandom(_, _, _) => WeakStepEvictRandom(m, truth, width, op);
  }

  /** Wherever the run evicts by key, the existing rows are distinct. */
  ghost predicate KeyEvictionsDistinct(truth: Bag, ops: seq<Op>)
    decreases ops
  {
    ops != [] ==>
      (ops[0].EvictKeys? ==> RowsDistinct(truth)) &&
      KeyEvictionsDistinct(StepTruth(truth, ops[0]), ops[1..])
  }

  /** Over every run of writes, replays and evictions, every materialised row is found by each weak
      index; and nothing else is, if rows are distinct whenever keys are evicted by name. */
  lemma {:induction false} WeakRun(m: Memory, truth: Bag, width: nat, ops: seq<Op>, m': Memory, truth': Bag)
    requires Inv(m, truth, width) && WeakCovers(m) && (forall op :: op in ops ==> WeakOp(op))
    requires Reaches(m, truth, width, ops, m', truth')
    ensures WeakCovers(m')
    ensures WeakEqual(m) && KeyEvictionsDistinct(truth, ops) ==> WeakEqual(m')
    decreases ops
  {
    if ops != [] {
      assert ops[0] in ops;
      FirstStep(m, truth, width, ops, m', truth');
      StepKeepsInv(m, truth, width, ops[0]);
      WeakStep(m, truth, width, ops[0]);
      WeakRun(Step(m, truth, width, ops[0]), StepTruth(truth, ops[0]), width, ops[1..], m', truth');
    }
  }

  /** A run that never evicts by key never needs distinct rows. */
  lemma {:induction false} OnlyByteEvictions(truth: Bag, ops: seq<Op>)
    requires forall op :: op in ops ==> !op.EvictKeys?
    ensures KeyEvictionsDistinct(truth, ops)
    decreases ops
  {
    if ops != [] {
      assert ops[0] in ops;
      OnlyByteEvictions(StepTruth(truth, ops[0]), ops[1..]);
    }
  }

  /** A partial index and weak keys, before any row: where the runs start. */
  ghost predicate Fresh(m: Memory) {
    |m.singles| == 1 && m.singles[0].partial && m.singles[0].rows == map[] &&
    forall c :: c in m.weak ==> m.weak[c] == map[]
  }

  lemma FreshIsEqual(m: Memory)
    requires Fresh(m)
    ensures WeakEqual(m)
  {
  }

  /** Weak keys are added first; then the state is written, replayed to and evicted from. */
  lemma {:induction false} FreshRun(m: Memory, truth: Bag, width: nat, weaks: seq<Op>, ops: seq<Op>,
                                    m': Memory, truth': Bag)
    requires Inv(m, truth, width) && Fresh(m)
    requires (forall op :: op in weaks ==> op.AddWeak?) && (forall op :: op in ops ==> WeakOp(op))
    requires Reaches(m, truth, width, weaks + ops, m', truth')
    ensures WeakCovers(m')
    ensures KeyEvictionsDistinct(truth, ops) ==> WeakEqual(m')
    decreases weaks
  {
    if weaks == [] {
      assert weaks + ops == ops;
      FreshIsEqual(m);
      WeakRun(m, truth, width, ops, m', truth');
    } else {
      assert (weaks + ops)[0] == weaks[0] && (weaks + ops)[1..] == weaks[1..] + ops;
      assert weaks[0] in weaks;
      FirstStep(m, truth, width, weaks + ops, m', truth');
      StepKeepsInv(m, truth, width, weaks[0]);
      FreshRun(Step(m, truth, width, weaks[0]), truth, width, weaks[1..], ops, m', truth');
    }
  }

  /** From the empty state: a partial index, weak keys, then any writes, replays and evictions. */
  lemma {:induction false} WeakFromEmpty(width: nat, index: Index, tags: seq<Tag>, weaks: seq<Op>, ops: seq<Op>,
                                         m: Memory, truth: Bag)
    requires (forall op :: op in weaks ==> op.AddWeak?) && (forall op :: op in ops ==> WeakOp(op))
    requires Reaches(EMPTY, multiset{}, width, [AddIndex(index, Some(tags), [])] + (weaks + ops), m, truth)
    ensures WeakCovers(m)
    ensures KeyEvictionsDistinct(multiset{}, ops) ==> WeakEqual(m)
  {
    var add := AddIndex(index, Some(tags), []);
    assert ([add] + (weaks + ops))[1..] == weaks + ops;
    FirstStep(EMPTY, multiset{}, width, [add] + (weaks + ops), m, truth);
    StepKeepsInv(EMPTY, multiset{}, width, add);
    FreshRun(Step(EMPTY, multiset{}, width, add), multiset{}, width, weaks, ops, m, truth);
  }
}

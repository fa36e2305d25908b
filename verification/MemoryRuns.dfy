/** Runs of the partial in-memory state: whatever is written, replayed, evicted and re-indexed,
    every filled key of every index holds exactly the rows that exist. */
module MemoryRuns {
  import opened Options
  import opened StateTypes
  import opened MemoryModel
  import Traces

  // ---------------------------------------------------------------- batches of untagged writes

  /** The records of a batch that hit a filled key of some index, in their order. */
  ghost function KeepHits(m: Memory, records: seq<Record>, width: nat): seq<Record>
    requires WellFormed(m, width) && RecordsFit(records, width)
  {
    if records == [] then []
    else (if HitsSome(m, records[0].row) then [records[0]] else []) + KeepHits(m, records[1..], width)
  }

  lemma {:induction false} KeepHitsSameShape(m: Memory, n: Memory, records: seq<Record>, width: nat)
    requires WellFormed(m, width) && WellFormed(n, width) && RecordsFit(records, width) && SameShape(m, n)
    ensures KeepHits(m, records, width) == KeepHits(n, records, width)
  {
    if records != [] {
      var row := records[0].row;
      assert HitsSome(m, row) <==> HitsSome(n, row) by {
        forall i | 0 <= i < |m.singles|
          ensures Filled(m.singles[i], KeyOf(m.singles[i].index.columns, row)) <==>
                  Filled(n.singles[i], KeyOf(n.singles[i].index.columns, row))
        {
        }
      }
      KeepHitsSameShape(m, n, records[1..], width);
    }
  }

  /** An untagged batch of possible writes keeps the invariant. On partial state it keeps exactly
      the records that hit a filled key; on full state it keeps all of them. */
  lemma {:induction false} ProcessUntagged(m: Memory, truth: Bag, records: seq<Record>, width: nat)
    requires Inv(m, truth, width) && RecordsFit(records, width) && BatchPossible(truth, records)
    ensures Inv(Process(m, records, None, width).0, BatchTruth(truth, records), width)
    ensures SameShape(m, Process(m, records, None, width).0)
    ensures Process(m, records, None, width).1 ==
            if IsPartial(m) then KeepHits(m, records, width) else records
    decreases records
  {
    if records != [] {
      ApplyUntagged(m, truth, records[0], width);
      ApplyWellFormed(m, records[0], None);
      var m' := Apply(m, records[0], None).0;
      assert SameShape(m, m');
      ProcessUntagged(m', ApplyTruth(truth, records[0]), records[1..], width);
      KeepHitsSameShape(m, m', records[1..], width);
      SameShapePartial(m, m');
      assert records == [records[0]] + records[1..];
    }
  }

  /** On a state without holes tags make no difference. */
  ghost function TagFor(m: Memory, tag: Option<Tag>): Option<Tag> {
    if IsPartial(m) then tag else None
  }

  /** What stays of a record in its batch. */
  ghost function Kept(m: Memory, rec: Record, hit: bool): seq<Record> {
    if hit || !IsPartial(m) then [rec] else []
  }

  /** A batch is its first record and then the others. */
  lemma {:induction false} ProcessFirst(m: Memory, rec: Record, records: seq<Record>, tag: Option<Tag>, width: nat)
    requires WellFormed(m, width) && RecordsFit([rec] + records, width)
    ensures |rec.row| == width && RecordsFit(records, width)
    ensures var a := Apply(m, rec, TagFor(m, tag));
            WellFormed(a.0, width) && (IsPartial(a.0) <==> IsPartial(m)) &&
            var p := Process(a.0, records, tag, width);
            Process(m, [rec] + records, tag, width) == (p.0, Kept(m, rec, a.1) + p.1)
  {
    assert ([rec] + records)[0] == rec && ([rec] + records)[1..] == records;
    assert forall i :: 0 <= i < |records| ==> ([rec] + records)[i + 1] == records[i];
    ApplyWellFormed(m, rec, TagFor(m, tag));
    SameShapePartial(m, Apply(m, rec, TagFor(m, tag)).0);
  }

  /** Processing a batch and then one more record. */
  lemma {:induction false} ProcessSnoc(m: Memory, records: seq<Record>, rec: Record, tag: Option<Tag>, width: nat)
    requires WellFormed(m, width) && RecordsFit(records, width) && |rec.row| == width
    ensures RecordsFit(records + [rec], width)
    ensures var p := Process(m, records, tag, width);
            WellFormed(p.0, width) && (IsPartial(p.0) <==> IsPartial(m)) &&
            var a := Apply(p.0, rec, TagFor(m, tag));
            Process(m, records + [rec], tag, width) == (a.0, p.1 + Kept(m, rec, a.1))
    decreases records
  {
    if records == [] {
      ProcessFirst(m, rec, [], tag, width);
      assert records + [rec] == [rec] + [];
    } else {
      var first, rest := records[0], records[1..];
      assert records == [first] + rest && records + [rec] == [first] + (rest + [rec]);
      ProcessFirst(m, first, rest, tag, width);
      var a := Apply(m, first, TagFor(m, tag));
      ProcessSnoc(a.0, rest, rec, tag, width);
      ProcessFirst(m, first, rest + [rec], tag, width);
      var p := Process(a.0, rest, tag, width);
      InThree(Kept(m, first, a.1), p.1, Kept(m, rec, Apply(p.0, rec, TagFor(m, tag)).1));
    }
  }

  lemma InThree(a: seq<Record>, b: seq<Record>, c: seq<Record>)
    ensures (a + b) + c == a + (b + c)
  {
  }

  lemma SameShapePartial(m: Memory, n: Memory)
    requires SameShape(m, n)
    ensures IsPartial(n) <==> IsPartial(m)
  {
    forall i | 0 <= i < |m.singles| ensures n.singles[i].partial == m.singles[i].partial {
    }
  }

  // ---------------------------------------------------------------- fills and their replay

  function FillAll(s: Single, keys: seq<Key>): Single
    decreases keys
  {
    if keys == [] then s else FillAll(MarkFilled(s, keys[0]), keys[1..])
  }

  lemma {:induction false} FillAllRows(s: Single, keys: seq<Key>)
    ensures FillAll(s, keys).index == s.index && FillAll(s, keys).partial == s.partial
    ensures FillAll(s, keys).rows.Keys == s.rows.Keys + set k | k in keys
    ensures forall k :: k in FillAll(s, keys).rows ==>
              FillAll(s, keys).rows[k] == if k in keys then multiset{} else s.rows[k]
    decreases keys
  {
    if keys != [] {
      FillAllRows(MarkFilled(s, keys[0]), keys[1..]);
    }
  }

  function Positives(rows: seq<Row>): seq<Record> {
    seq(|rows|, i requires 0 <= i < |rows| => Positive(rows[i]))
  }

  function Fill(m: Memory, tag: Tag, keys: seq<Key>): Memory
    requires tag in m.byTag && m.byTag[tag] < |m.singles|
  {
    var i := m.byTag[tag];
    m.(singles := m.singles[i := FillAll(m.singles[i], keys)])
  }

  /** The filled keys are the same, and each has gained those of the `rows` that have it. */
  ghost predicate Gained(s: Single, s': Single, rows: Bag) {
    s'.index == s.index && s'.partial == s.partial && s'.rows.Keys == s.rows.Keys &&
    forall key, r :: key in s.rows ==>
      s'.rows[key][r] == s.rows[key][r] + if HasKey(s.index.columns, r, key) then rows[r] else 0
  }

  lemma GainedTrans(s: Single, s': Single, s'': Single, a: Bag, b: Bag)
    requires Gained(s, s', a) && Gained(s', s'', b)
    ensures Gained(s, s'', a + b)
  {
  }

  lemma InsertRowGains(s: Single, row: Row)
    requires InBounds(s.index.columns, |row|) && s.partial
    ensures Gained(s, InsertRow(s, row), multiset{row})
  {
  }

  /** Only index `i` differs, and it has gained `rows`. */
  ghost predicate OnlyGained(m: Memory, m': Memory, i: nat, rows: Bag) {
    i < |m.singles| && |m'.singles| == |m.singles| && m'.byTag == m.byTag &&
    (forall j :: 0 <= j < |m.singles| && j != i ==> m'.singles[j] == m.singles[j]) &&
    Gained(m.singles[i], m'.singles[i], rows)
  }

  lemma TaggedInsert(m: Memory, tag: Tag, row: Row)
    requires WellFormed(m, |row|) && tag in m.byTag && m.singles[m.byTag[tag]].partial
    ensures OnlyGained(m, Insert(m, row, Some(tag)).0, m.byTag[tag], multiset{row})
    ensures WellFormed(Insert(m, row, Some(tag)).0, |row|)
  {
    InsertRowGains(m.singles[m.byTag[tag]], row);
    ApplyWellFormed(m, Positive(row), Some(tag));
  }

  /** A tagged batch of insertions touches one index only and adds to its filled keys only. */
  lemma {:induction false} TaggedInserts(m: Memory, tag: Tag, rows: seq<Row>, width: nat)
    requires WellFormed(m, width) && tag in m.byTag && (forall r :: r in rows ==> |r| == width)
    requires m.singles[m.byTag[tag]].partial
    ensures RecordsFit(Positives(rows), width)
    ensures WellFormed(Process(m, Positives(rows), Some(tag), width).0, width)
    ensures OnlyGained(m, Process(m, Positives(rows), Some(tag), width).0, m.byTag[tag], multiset(rows))
    decreases rows
  {
    var i := m.byTag[tag];
    if rows != [] {
      TaggedInsert(m, tag, rows[0]);
      var m1 := Insert(m, rows[0], Some(tag)).0;
      TaggedInserts(m1, tag, rows[1..], width);
      assert Positives(rows)[0] == Positive(rows[0]) && Positives(rows)[1..] == Positives(rows[1..]);
      assert rows == [rows[0]] + rows[1..];
      var m' := Process(m1, Positives(rows[1..]), Some(tag), width).0;
      GainedTrans(m.singles[i], m1.singles[i], m'.singles[i], multiset{rows[0]}, multiset(rows[1..]));
      assert multiset(rows) == multiset{rows[0]} + multiset(rows[1..]);
    }
  }

  /** The rows that a replay of `keys` must bring: the existing rows with one of these keys. */
  ghost predicate IsReplayOf(rows: seq<Row>, truth: Bag, columns: seq<nat>, keys: seq<Key>) {
    forall r: Row :: multiset(rows)[r] ==
                     if InBounds(columns, |r|) && KeyOf(columns, r) in keys then truth[r] else 0
  }

  lemma ReplayExact(s: Single, s': Single, truth: Bag, keys: seq<Key>, rows: seq<Row>)
    requires Exact(s, truth) && s.partial
    requires forall k :: k in keys ==> k !in s.rows
    requires IsReplayOf(rows, truth, s.index.columns, keys)
    requires Gained(FillAll(s, keys), s', multiset(rows))
    ensures Exact(s', truth)
  {
    FillAllRows(s, keys);
    forall key | key in s'.rows ensures ExactlyMatching(s'.rows[key], truth, s'.index.columns, key) {
      forall r: Row ensures s'.rows[key][r] == if HasKey(s.index.columns, r, key) then truth[r] else 0 {
        assert key in FillAll(s, keys).rows;
        if key !in keys {
          assert ExactlyMatching(s.rows[key], truth, s.index.columns, key);
        }
      }
    }
  }

  /** A fill of holes is well-formed, and the replay of their rows adds to the filled index only. */
  lemma ReplayGains(m: Memory, truth: Bag, width: nat, tag: Tag, keys: seq<Key>, rows: seq<Row>)
    requires Inv(m, truth, width) && tag in m.byTag && m.singles[m.byTag[tag]].partial
    requires IsReplayOf(rows, truth, m.singles[m.byTag[tag]].index.columns, keys)
    ensures WellFormed(Fill(m, tag, keys), width) && RecordsFit(Positives(rows), width)
    ensures var m' := Process(Fill(m, tag, keys), Positives(rows), Some(tag), width).0;
            WellFormed(m', width) && OnlyGained(Fill(m, tag, keys), m', m.byTag[tag], multiset(rows))
  {
    FillAllRows(m.singles[m.byTag[tag]], keys);
    forall r | r in rows ensures |r| == width {
      assert multiset(rows)[r] > 0;
    }
    TaggedInserts(Fill(m, tag, keys), tag, rows, width);
  }

  /** A fill of holes followed by the tagged replay of their rows keeps the invariant. */
  lemma ReplayKeepsInv(m: Memory, truth: Bag, width: nat, tag: Tag, keys: seq<Key>, rows: seq<Row>)
    requires Inv(m, truth, width) && tag in m.byTag && m.singles[m.byTag[tag]].partial
    requires forall k :: k in keys ==> k !in m.singles[m.byTag[tag]].rows
    requires IsReplayOf(rows, truth, m.singles[m.byTag[tag]].index.columns, keys)
    ensures WellFormed(Fill(m, tag, keys), width) && RecordsFit(Positives(rows), width)
    ensures Inv(Process(Fill(m, tag, keys), Positives(rows), Some(tag), width).0, truth, width)
  {
    var i := m.byTag[tag];
    ReplayGains(m, truth, width, tag, keys, rows);
    var m' := Process(Fill(m, tag, keys), Positives(rows), Some(tag), width).0;
    ReplayExact(m.singles[i], m'.singles[i], truth, keys, rows);
  }

  lemma FillIndices(m: Memory, tag: Tag, keys: seq<Key>)
    requires tag in m.byTag && m.byTag[tag] < |m.singles|
    ensures Indices(Fill(m, tag, keys)) == Indices(m)
  {
    FillAllRows(m.singles[m.byTag[tag]], keys);
  }

  lemma ReplayIndices(m: Memory, truth: Bag, width: nat, tag: Tag, keys: seq<Key>, rows: seq<Row>)
    requires Inv(m, truth, width) && tag in m.byTag && m.singles[m.byTag[tag]].partial
    requires IsReplayOf(rows, truth, m.singles[m.byTag[tag]].index.columns, keys)
    ensures WellFormed(Fill(m, tag, keys), width) && RecordsFit(Positives(rows), width)
    ensures Indices(Process(Fill(m, tag, keys), Positives(rows), Some(tag), width).0) == Indices(m)
  {
    ReplayGains(m, truth, width, tag, keys, rows);
    FillIndices(m, tag, keys);
    OnlyGainedIndices(Fill(m, tag, keys), Process(Fill(m, tag, keys), Positives(rows), Some(tag), width).0,
                      m.byTag[tag], multiset(rows));
  }

  lemma OnlyGainedIndices(m: Memory, m': Memory, i: nat, rows: Bag)
    requires OnlyGained(m, m', i, rows)
    ensures Indices(m') == Indices(m)
  {
  }

  // ---------------------------------------------------------------- evictions and holes

  function EvictAll(s: Single, keys: seq<Key>): (r: Single)
    ensures r.index == s.index && r.partial == s.partial
    decreases keys
  {
    if keys == [] then s else EvictAll(Evict(s, keys[0]), keys[1..])
  }

  lemma {:induction false} EvictAllRows(s: Single, keys: seq<Key>)
    ensures EvictAll(s, keys) == s.(rows := s.rows - set k | k in keys)
    decreases keys
  {
    if keys == [] {
      assert s.rows - (set k | k in keys) == s.rows;
    } else {
      EvictAllRows(Evict(s, keys[0]), keys[1..]);
      assert s.rows - {keys[0]} - (set k | k in keys[1..]) == s.rows - set k | k in keys;
    }
  }

  /** What an eviction takes away is a hole afterwards, or there was no row. */
  predicate Harmless(s: Single, keys: seq<Key>) {
    s.partial || forall k :: k in keys && k in s.rows ==> s.rows[k] == multiset{}
  }

  lemma HarmlessStaysExact(s: Single, truth: Bag, keys: seq<Key>)
    requires Exact(s, truth) && Harmless(s, keys)
    ensures Exact(EvictAll(s, keys), truth)
  {
    EvictAllRows(s, keys);
    forall r | !s.partial && r in truth ensures KeyOf(s.index.columns, r) !in keys {
      var k := KeyOf(s.index.columns, r);
      assert ExactlyMatching(s.rows[k], truth, s.index.columns, k);
      assert s.rows[k][r] > 0;
    }
  }

  lemma HarmfulIsNotExact(s: Single, truth: Bag, keys: seq<Key>)
    requires Exact(s, truth) && !Harmless(s, keys)
    ensures !Exact(EvictAll(s, keys), truth)
  {
    EvictAllRows(s, keys);
    var k :| k in keys && k in s.rows && s.rows[k] != multiset{};
    var r :| r in s.rows[k];
    assert ExactlyMatching(s.rows[k], truth, s.index.columns, k);
    assert s.rows[k][r] > 0;
    assert r in truth && KeyOf(s.index.columns, r) == k;
  }

  /** An eviction leaves a partial index exact. A full index stays exact only if the evicted keys
      held no rows: a key that is gone from it reads as a key without rows. */
  lemma EvictAllExactIff(s: Single, truth: Bag, keys: seq<Key>)
    requires Exact(s, truth)
    ensures Exact(EvictAll(s, keys), truth) <==> Harmless(s, keys)
  {
    if Harmless(s, keys) {
      HarmlessStaysExact(s, truth, keys);
    } else {
      HarmfulIsNotExact(s, truth, keys);
    }
  }

  lemma EvictExactIff(s: Single, truth: Bag, key: Key)
    requires Exact(s, truth)
    ensures Exact(Evict(s, key), truth) <==> Harmless(s, [key])
  {
    EvictAllExactIff(s, truth, [key]);
    assert EvictAll(s, [key]) == Evict(s, key) by {
      assert [key][1..] == [];
    }
  }

  /** The evicted rows leave the weak indices one by one. */
  ghost function RemoveWeakAll(m: Memory, rows: seq<Row>, width: nat): Memory
    requires WellFormed(m, width) && forall r :: r in rows ==> |r| == width
    decreases rows
  {
    if rows == [] then m
    else
      assert forall r :: r in rows[1..] ==> r in rows;
      RemoveWeakAll(RemoveWeak(m, rows[0]), rows[1..], width)
  }

  lemma {:induction false} RemoveWeakAllStrict(m: Memory, rows: seq<Row>, width: nat)
    requires WellFormed(m, width) && forall r :: r in rows ==> |r| == width
    ensures RemoveWeakAll(m, rows, width).singles == m.singles
    ensures RemoveWeakAll(m, rows, width).byTag == m.byTag
    ensures RemoveWeakAll(m, rows, width).weak.Keys == m.weak.Keys
    decreases rows
  {
    if rows != [] {
      assert forall r :: r in rows[1..] ==> r in rows;
      RemoveWeakAllStrict(RemoveWeak(m, rows[0]), rows[1..], width);
    }
  }

  lemma {:induction false} RemoveWeakAllSnoc(m: Memory, rows: seq<Row>, row: Row, width: nat)
    requires WellFormed(m, width) && (forall r :: r in rows ==> |r| == width) && |row| == width
    ensures forall r :: r in rows + [row] ==> |r| == width
    ensures WellFormed(RemoveWeakAll(m, rows, width), width)
    ensures RemoveWeakAll(m, rows + [row], width) == RemoveWeak(RemoveWeakAll(m, rows, width), row)
    decreases rows
  {
    if rows == [] {
      assert rows + [row] == [row];
      assert [row][1..] == [];
    } else {
      assert forall r :: r in rows[1..] ==> r in rows;
      assert (rows + [row])[1..] == rows[1..] + [row];
      RemoveWeakAllSnoc(RemoveWeak(m, rows[0]), rows[1..], row, width);
    }
  }

  function WithSingle(m: Memory, i: nat, s: Single): Memory
    requires i < |m.singles|
  {
    m.(singles := m.singles[i := s])
  }

  ghost function EvictInto(m: Memory, i: nat, s: Single, order: seq<Row>, width: nat): Memory
    requires WellFormed(m, width) && i < |m.singles| && s.index == m.singles[i].index
    requires forall r :: r in order ==> |r| == width
  {
    RemoveWeakAll(WithSingle(m, i, s), order, width)
  }

  /** An eviction keeps the invariant exactly if it keeps the index exact. */
  lemma EvictIntoInv(m: Memory, truth: Bag, width: nat, i: nat, s: Single, order: seq<Row>)
    requires Inv(m, truth, width) && i < |m.singles| && s.index == m.singles[i].index
    requires forall r :: r in order ==> |r| == width
    ensures EvictInto(m, i, s, order, width).singles == m.singles[i := s]
    ensures EvictInto(m, i, s, order, width).byTag == m.byTag
    ensures Indices(EvictInto(m, i, s, order, width)) == Indices(m)
    ensures Inv(EvictInto(m, i, s, order, width), truth, width) <==> Exact(s, truth)
  {
    RemoveWeakAllStrict(WithSingle(m, i, s), order, width);
    var m' := EvictInto(m, i, s, order, width);
    assert m'.singles[i] == s;
  }

  /** Evicting `keys` brings out the row `r`. */
  ghost predicate Evicts(s: Single, keys: seq<Key>, r: Row) {
    InBounds(s.index.columns, |r|) && KeyOf(s.index.columns, r) in keys &&
    KeyOf(s.index.columns, r) in s.rows && r in s.rows[KeyOf(s.index.columns, r)]
  }

  /** The rows that evicting `keys` brings out, each of them once. */
  ghost predicate ListsEvicted(order: seq<Row>, s: Single, keys: seq<Key>) {
    Distinct(order) && forall r :: r in order <==> Evicts(s, keys, r)
  }

  lemma EvictedFit(order: seq<Row>, s: Single, keys: seq<Key>, truth: Bag, width: nat)
    requires Exact(s, truth) && RowsFit(truth, width) && ListsEvicted(order, s, keys)
    ensures forall r :: r in order ==> |r| == width
  {
    forall r | r in order ensures |r| == width {
      var k := KeyOf(s.index.columns, r);
      assert s.rows[k][r] > 0 && ExactlyMatching(s.rows[k], truth, s.index.columns, k);
    }
  }

  lemma BagFits(order: seq<Row>, s: Single, key: Key, truth: Bag, width: nat)
    requires Exact(s, truth) && RowsFit(truth, width) && key in s.rows && multiset(order) == s.rows[key]
    ensures forall r :: r in order ==> |r| == width
  {
    forall r | r in order ensures |r| == width {
      assert r in multiset(order);
      assert s.rows[key][r] > 0 && ExactlyMatching(s.rows[key], truth, s.index.columns, key);
    }
  }

  // ---------------------------------------------------------------- adding indices

  function StateFor(singles: seq<Single>, columns: seq<nat>, indexType: IndexType): (r: Option<nat>)
    ensures r.Some? ==> r.value < |singles| && singles[r.value].index == Index(columns, indexType)
    ensures r.None? ==> forall i :: 0 <= i < |singles| ==> singles[i].index != Index(columns, indexType)
    decreases |singles|
  {
    if singles == [] then None
    else if singles[0].index.columns == columns && singles[0].index.indexType == indexType then Some(0)
    else match StateFor(singles[1..], columns, indexType)
      case Some(i) => Some(i + 1)
      case None =>
        assert singles == [singles[0]] + singles[1..];
        None
  }

  function InsertAll(s: Single, rows: seq<Row>, width: nat): Single
    requires InBounds(s.index.columns, width) && forall r :: r in rows ==> |r| == width
    decreases rows
  {
    if rows == [] then s
    else
      assert forall r :: r in rows[1..] ==> r in rows;
      InsertAll(InsertRow(s, rows[0]), rows[1..], width)
  }

  lemma {:induction false} InsertAllExact(s: Single, truth: Bag, rows: seq<Row>, width: nat)
    requires InBounds(s.index.columns, width) && forall r :: r in rows ==> |r| == width
    requires Exact(s, truth)
    ensures Exact(InsertAll(s, rows, width), truth + multiset(rows))
    ensures InsertAll(s, rows, width).index == s.index
    decreases rows
  {
    if rows == [] {
      assert truth + multiset(rows) == truth;
    } else {
      InsertExact(s, truth, rows[0]);
      assert forall r :: r in rows[1..] ==> r in rows;
      InsertAllExact(InsertRow(s, rows[0]), truth + multiset{rows[0]}, rows[1..], width);
      FirstThenRest(truth, rows);
    }
  }

  lemma FirstThenRest(truth: Bag, rows: seq<Row>)
    requires rows != []
    ensures truth + multiset{rows[0]} + multiset(rows[1..]) == truth + multiset(rows)
  {
    assert rows == [rows[0]] + rows[1..];
  }

  /** `rows` lists what a keyed map holds, in some order. */
  ghost predicate Lists(rows: seq<Row>, s: Single) {
    forall r: Row :: multiset(rows)[r] ==
                     if InBounds(s.index.columns, |r|) && KeyOf(s.index.columns, r) in s.rows
                     then s.rows[KeyOf(s.index.columns, r)][r] else 0
  }

  lemma FullIndexListsTruth(s: Single, truth: Bag, rows: seq<Row>)
    requires Exact(s, truth) && !s.partial && Lists(rows, s)
    ensures multiset(rows) == truth
  {
    forall r: Row ensures multiset(rows)[r] == truth[r] {
      if InBounds(s.index.columns, |r|) && KeyOf(s.index.columns, r) in s.rows {
        assert ExactlyMatching(s.rows[KeyOf(s.index.columns, r)], truth, s.index.columns, KeyOf(s.index.columns, r));
      } else {
        assert r !in truth;
      }
    }
  }

  function AddTags(byTag: map<Tag, nat>, tags: Option<seq<Tag>>, i: nat): map<Tag, nat> {
    if tags.None? then byTag else byTag + map t | t in tags.value :: i
  }

  /** `MemoryState::add_key`; `order` is the order in which the rows of the first index come out when
      a new full index is built from it. */
  function AddKey(m: Memory, index: Index, tags: Option<seq<Tag>>, order: seq<Row>, width: nat): Memory
    requires InBounds(index.columns, width) && forall r :: r in order ==> |r| == width
  {
    match StateFor(m.singles, index.columns, index.indexType)
    case Some(i) => m.(byTag := AddTags(m.byTag, tags, i))
    case None =>
      var empty := Single(index, tags.Some?, map[]);
      var s := if tags.None? then InsertAll(empty, order, width) else empty;
      Memory(m.singles + [s], m.weak, AddTags(m.byTag, tags, |m.singles|))
  }

  /** The new tags lead to the index that was asked for; the others lead where they did. */
  ghost predicate TagsLead(m: Memory, m': Memory, index: Index, tags: Option<seq<Tag>>) {
    var added := if tags.Some? then set t | t in tags.value else {};
    m'.byTag.Keys == m.byTag.Keys + added &&
    (forall t :: t in added ==> m'.byTag[t] < |m'.singles| && m'.singles[m'.byTag[t]].index == index) &&
    (forall t :: t in m.byTag && t !in added ==> m'.byTag[t] == m.byTag[t]) &&
    (exists i :: 0 <= i < |m'.singles| && m'.singles[i].index == index)
  }

  /** An index that was not there is added at the end, partial exactly if it was given tags; nothing else
      changes but the tags. */
  ghost predicate IndexAdded(m: Memory, m': Memory, index: Index, tags: Option<seq<Tag>>) {
    m'.weak == m.weak &&
    if exists i :: 0 <= i < |m.singles| && m.singles[i].index == index then m'.singles == m.singles
    else |m'.singles| == |m.singles| + 1 && m.singles <= m'.singles &&
         m'.singles[|m.singles|].index == index && m'.singles[|m.singles|].partial == tags.Some? &&
         (tags.Some? ==> m'.singles[|m.singles|].rows == map[])
  }

  lemma AddKeyTags(m: Memory, index: Index, tags: Option<seq<Tag>>, order: seq<Row>, width: nat)
    requires InBounds(index.columns, width) && forall r :: r in order ==> |r| == width
    ensures TagsLead(m, AddKey(m, index, tags, order, width), index, tags)
    ensures m.singles <= AddKey(m, index, tags, order, width).singles
    ensures IndexAdded(m, AddKey(m, index, tags, order, width), index, tags)
  {
    var m' := AddKey(m, index, tags, order, width);
    match StateFor(m.singles, index.columns, index.indexType)
    case Some(i) =>
      assert m'.singles[i].index == index;
    case None =>
      InsertAllIndex(Single(index, tags.Some?, map[]), order, width);
      assert m'.singles[|m.singles|].index == index;
  }

  /** What a caller of `add_key` owes: a new full index is built from a full first index; on a state
      without indices there are no rows yet. */
  ghost predicate AddKeyEnabled(m: Memory, truth: Bag, index: Index, tags: Option<seq<Tag>>, order: seq<Row>,
                                width: nat) {
    InBounds(index.columns, width) && (forall r :: r in order ==> |r| == width) &&
    (tags.None? && StateFor(m.singles, index.columns, index.indexType).None? ==>
       if m.singles == [] then truth == multiset{} && order == []
       else !m.singles[0].partial && Lists(order, m.singles[0]))
  }

  lemma AddKeyIndices(m: Memory, index: Index, tags: Option<seq<Tag>>, order: seq<Row>, width: nat)
    requires InBounds(index.columns, width) && forall r :: r in order ==> |r| == width
    requires IndicesDistinct(Indices(m)) && Distinct(index.columns)
    ensures IndicesDistinct(Indices(AddKey(m, index, tags, order, width)))
  {
    var empty := Single(index, tags.Some?, map[]);
    if StateFor(m.singles, index.columns, index.indexType).None? {
      InsertAllIndex(empty, order, width);
      assert Indices(AddKey(m, index, tags, order, width)) == Indices(m) + [index];
    } else {
      assert Indices(AddKey(m, index, tags, order, width)) == Indices(m);
    }
  }

  lemma {:induction false} InsertAllIndex(s: Single, rows: seq<Row>, width: nat)
    requires InBounds(s.index.columns, width) && forall r :: r in rows ==> |r| == width
    ensures InsertAll(s, rows, width).index == s.index && InsertAll(s, rows, width).partial == s.partial
    decreases rows
  {
    if rows != [] {
      assert forall r :: r in rows[1..] ==> r in rows;
      InsertAllIndex(InsertRow(s, rows[0]), rows[1..], width);
    }
  }

  lemma AddKeyKeepsInv(m: Memory, truth: Bag, width: nat, index: Index, tags: Option<seq<Tag>>, order: seq<Row>)
    requires Inv(m, truth, width) && AddKeyEnabled(m, truth, index, tags, order, width)
    ensures Inv(AddKey(m, index, tags, order, width), truth, width)
  {
    match StateFor(m.singles, index.columns, index.indexType)
    case Some(i) =>
    case None =>
      var s := Single(index, tags.Some?, map[]);
      if tags.None? {
        if m.singles != [] {
          FullIndexListsTruth(m.singles[0], truth, order);
        }
        NewFullIndexExact(index, truth, order, width);
        s := InsertAll(s, order, width);
      }
      PushedKeepsInv(m, truth, width, s, AddTags(m.byTag, tags, |m.singles|));
  }

  /** An exact index added at the end. */
  lemma PushedKeepsInv(m: Memory, truth: Bag, width: nat, s: Single, byTag: map<Tag, nat>)
    requires Inv(m, truth, width) && Exact(s, truth) && InBounds(s.index.columns, width)
    requires forall t :: t in byTag ==> byTag[t] <= |m.singles|
    ensures Inv(Memory(m.singles + [s], m.weak, byTag), truth, width)
  {
  }

  /** A full index filled with all rows is exact. */
  lemma NewFullIndexExact(index: Index, truth: Bag, order: seq<Row>, width: nat)
    requires InBounds(index.columns, width) && (forall r :: r in order ==> |r| == width) && multiset(order) == truth
    ensures Exact(InsertAll(Single(index, false, map[]), order, width), truth)
    ensures InsertAll(Single(index, false, map[]), order, width).index == index
  {
    InsertAllExact(Single(index, false, map[]), multiset{}, order, width);
    assert multiset{} + multiset(order) == truth;
  }

  // ---------------------------------------------------------------- runs

  datatype Op =
    | AddIndex(index: Index, tags: Option<seq<Tag>>, order: seq<Row>)
    | Write(records: seq<Record>)
    | Replay(tag: Tag, keys: seq<Key>, rows: seq<Row>)
    | MarkHole(tag: Tag, key: Key)
    | EvictKeys(tag: Tag, keys: seq<Key>, order: seq<Row>)
    | EvictRandom(position: nat, key: Key, order: seq<Row>)
    | AddWeak(columns: seq<nat>)

  /** What the callers of the state guarantee: negative records are for existing rows; a replay fills
      holes of a partial index and brings exactly their rows; rows are evicted from partial indices. */
  ghost predicate Enabled(m: Memory, truth: Bag, width: nat, op: Op) {
    match op
    case AddIndex(index, tags, order) => AddKeyEnabled(m, truth, index, tags, order, width)
    case Write(records) => RecordsFit(records, width) && BatchPossible(truth, records)
    case Replay(tag, keys, rows) =>
      tag in m.byTag && m.byTag[tag] < |m.singles| && m.singles[m.byTag[tag]].partial &&
      (forall k :: k in keys ==> k !in m.singles[m.byTag[tag]].rows) &&
      IsReplayOf(rows, truth, m.singles[m.byTag[tag]].index.columns, keys)
    case MarkHole(tag, key) =>
      tag in m.byTag && m.byTag[tag] < |m.singles| && Harmless(m.singles[m.byTag[tag]], [key])
    case EvictKeys(tag, keys, order) =>
      tag in m.byTag ==>
        m.byTag[tag] < |m.singles| && Harmless(m.singles[m.byTag[tag]], keys) &&
        ListsEvicted(order, m.singles[m.byTag[tag]], keys)
    case EvictRandom(i, key, order) =>
      i < |m.singles| && Harmless(m.singles[i], [key]) && key in m.singles[i].rows &&
      multiset(order) == m.singles[i].rows[key]
    case AddWeak(columns) => InBounds(columns, width)
  }

  ghost function Step(m: Memory, truth: Bag, width: nat, op: Op): Memory
    requires Inv(m, truth, width) && Enabled(m, truth, width, op)
  {
    match op
    case AddIndex(index, tags, order) => AddKey(m, index, tags, order, width)
    case Write(records) => Process(m, records, None, width).0
    case Replay(tag, keys, rows) =>
      ReplayKeepsInv(m, truth, width, tag, keys, rows);
      Process(Fill(m, tag, keys), Positives(rows), Some(tag), width).0
    case MarkHole(tag, key) => WithSingle(m, m.byTag[tag], Evict(m.singles[m.byTag[tag]], key))
    case EvictKeys(tag, keys, order) =>
      if tag !in m.byTag then m
      else
        var s := m.singles[m.byTag[tag]];
        EvictedFit(order, s, keys, truth, width);
        EvictInto(m, m.byTag[tag], EvictAll(s, keys), order, width)
    case EvictRandom(i, key, order) =>
      BagFits(order, m.singles[i], key, truth, width);
      EvictInto(m, i, Evict(m.singles[i], key), order, width)
    case AddWeak(columns) => m.(weak := m.weak[columns := map[]])
  }

  function StepTruth(truth: Bag, op: Op): Bag {
    if op.Write? then BatchTruth(truth, op.records) else truth
  }

  lemma StepKeepsInv(m: Memory, truth: Bag, width: nat, op: Op)
    requires Inv(m, truth, width) && Enabled(m, truth, width, op)
    ensures Inv(Step(m, truth, width, op), StepTruth(truth, op), width)
  {
    match op
    case AddIndex(index, tags, order) => AddKeyKeepsInv(m, truth, width, index, tags, order);
    case Write(records) => ProcessUntagged(m, truth, records, width);
    case Replay(tag, keys, rows) => ReplayKeepsInv(m, truth, width, tag, keys, rows);
    case MarkHole(tag, key) => EvictExactIff(m.singles[m.byTag[tag]], truth, key);
    case EvictKeys(tag, keys, order) =>
      if tag in m.byTag {
        var s := m.singles[m.byTag[tag]];
        EvictAllExactIff(s, truth, keys);
        EvictedFit(order, s, keys, truth, width);
        EvictIntoInv(m, truth, width, m.byTag[tag], EvictAll(s, keys), order);
      }
    case EvictRandom(i, key, order) =>
      EvictExactIff(m.singles[i], truth, key);
      BagFits(order, m.singles[i], key, truth, width);
      EvictIntoInv(m, truth, width, i, Evict(m.singles[i], key), order);
    case AddWeak(columns) =>
  }

  /** An index that is added has no column twice. */
  predicate DistinctColumns(op: Op) {
    op.AddIndex? ==> Distinct(op.index.columns)
  }

  lemma StepKeepsIndices(m: Memory, truth: Bag, width: nat, op: Op)
    requires Inv(m, truth, width) && Enabled(m, truth, width, op) && DistinctColumns(op) && IndicesDistinct(Indices(m))
    ensures IndicesDistinct(Indices(Step(m, truth, width, op)))
  {
    if op.AddIndex? {
      AddKeyIndices(m, op.index, op.tags, op.order, width);
    } else {
      StepIndices(m, truth, width, op);
    }
  }

  lemma SameShapeIndices(m: Memory, m': Memory)
    requires SameShape(m, m')
    ensures Indices(m') == Indices(m)
  {
  }

  lemma EvictKeysIndices(m: Memory, truth: Bag, width: nat, op: Op)
    requires Inv(m, truth, width) && op.EvictKeys? && Enabled(m, truth, width, op)
    ensures Indices(Step(m, truth, width, op)) == Indices(m)
  {
    if op.tag in m.byTag {
      var i := m.byTag[op.tag];
      var s := m.singles[i];
      EvictedFit(op.order, s, op.keys, truth, width);
      EvictIntoInv(m, truth, width, i, EvictAll(s, op.keys), op.order);
    }
  }

  lemma EvictRandomIndices(m: Memory, truth: Bag, width: nat, op: Op)
    requires Inv(m, truth, width) && op.EvictRandom? && Enabled(m, truth, width, op)
    ensures Indices(Step(m, truth, width, op)) == Indices(m)
  {
    BagFits(op.order, m.singles[op.position], op.key, truth, width);
    EvictIntoInv(m, truth, width, op.position, Evict(m.singles[op.position], op.key), op.order);
  }

  lemma WithSingleIndices(m: Memory, i: nat, s: Single)
    requires i < |m.singles| && s.index == m.singles[i].index
    ensures Indices(WithSingle(m, i, s)) == Indices(m)
  {
  }

  lemma StepIndices(m: Memory, truth: Bag, width: nat, op: Op)
    requires Inv(m, truth, width) && Enabled(m, truth, width, op) && !op.AddIndex?
    ensures Indices(Step(m, truth, width, op)) == Indices(m)
  {
    match op
    case Write(records) =>
      ProcessUntagged(m, truth, records, width);
      SameShapeIndices(m, Process(m, records, None, width).0);
    case Replay(tag, keys, rows) => ReplayIndices(m, truth, width, tag, keys, rows);
    case MarkHole(tag, key) => WithSingleIndices(m, m.byTag[tag], Evict(m.singles[m.byTag[tag]], key));
    case EvictKeys(_, _, _) => EvictKeysIndices(m, truth, width, op);
    case EvictRandom(_, _, _) => EvictRandomIndices(m, truth, width, op);
    case AddWeak(columns) =>
  }

  /** A memory state and the rows that exist at that moment. */
  datatype Moment = Moment(m: Memory, truth: Bag)

  ghost function Next(width: nat): (Moment, Op, Moment) -> bool {
    (a: Moment, op: Op, b: Moment) =>
      Inv(a.m, a.truth, width) && Enabled(a.m, a.truth, width, op) &&
      b == Moment(Step(a.m, a.truth, width, op), StepTruth(a.truth, op))
  }

  /** `m'` and `truth'` are reached from `m` and `truth` by the operations `ops`. */
  ghost predicate Reaches(m: Memory, truth: Bag, width: nat, ops: seq<Op>, m': Memory, truth': Bag) {
    Traces.Reaches(Next(width), Moment(m, truth), ops, Moment(m', truth'))
  }

  /** The first operation of a run, and the run after it. */
  lemma {:induction false} FirstStep(m: Memory, truth: Bag, width: nat, ops: seq<Op>, m': Memory, truth': Bag)
    requires ops != [] && Reaches(m, truth, width, ops, m', truth')
    ensures Inv(m, truth, width) && Enabled(m, truth, width, ops[0])
    ensures Reaches(Step(m, truth, width, ops[0]), StepTruth(truth, ops[0]), width, ops[1..], m', truth')
  {
  }

  /** One more operation at the end of a run. */
  lemma ReachesCons(m: Memory, truth: Bag, width: nat, op: Op, ops: seq<Op>, m': Memory, truth': Bag)
    requires Inv(m, truth, width) && Enabled(m, truth, width, op)
    requires Reaches(Step(m, truth, width, op), StepTruth(truth, op), width, ops, m', truth')
    ensures Reaches(m, truth, width, [op] + ops, m', truth')
  {
    Traces.ReachesCons(Next(width), Moment(m, truth), op, Moment(Step(m, truth, width, op), StepTruth(truth, op)), ops,
                       Moment(m', truth'));
  }

  lemma ReachesSnoc(m: Memory, truth: Bag, width: nat, ops: seq<Op>, m': Memory, truth': Bag, op: Op)
    requires Reaches(m, truth, width, ops, m', truth') && Inv(m', truth', width) && Enabled(m', truth', width, op)
    ensures Reaches(m, truth, width, ops + [op], Step(m', truth', width, op), StepTruth(truth', op))
  {
    Traces.ReachesSnoc(Next(width), Moment(m, truth), ops, Moment(m', truth'), op,
                       Moment(Step(m', truth', width, op), StepTruth(truth', op)));
  }

  const EMPTY := Memory([], map[], map[])

  /** In every reachable state, every filled key of every index holds exactly the existing rows. */
  lemma {:induction false} ReachableIsExact(m: Memory, truth: Bag, width: nat, ops: seq<Op>, m': Memory, truth': Bag)
    requires Inv(m, truth, width) && Reaches(m, truth, width, ops, m', truth')
    ensures Inv(m', truth', width)
    ensures IndicesDistinct(Indices(m)) && (forall op :: op in ops ==> DistinctColumns(op)) ==>
              IndicesDistinct(Indices(m'))
    decreases ops
  {
    if ops != [] {
      FirstStep(m, truth, width, ops, m', truth');
      StepKeepsInv(m, truth, width, ops[0]);
      assert ops[0] in ops;
      if IndicesDistinct(Indices(m)) && DistinctColumns(ops[0]) {
        StepKeepsIndices(m, truth, width, ops[0]);
      }
      ReachableIsExact(Step(m, truth, width, ops[0]), StepTruth(truth, ops[0]), width, ops[1..], m', truth');
    }
  }

  /** Starting with no index and no row, every run ends in an exact state. */
  lemma RunFromEmpty(width: nat, ops: seq<Op>, m: Memory, truth: Bag)
    requires Reaches(EMPTY, multiset{}, width, ops, m, truth)
    ensures Inv(m, truth, width)
    ensures (forall op :: op in ops ==> DistinctColumns(op)) ==> IndicesDistinct(Indices(m))
  {
    ReachableIsExact(EMPTY, multiset{}, width, ops, m, truth);
  }
}

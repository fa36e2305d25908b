/** The partial in-memory state as a value: what each operation makes of it, and the invariant
    that ties every index to the rows that really exist. */
module MemoryModel {
  import opened Options
  import opened StateTypes

  type Keyed = map<Key, Bag>

  /** One index. A key that is present in `rows` is filled; a key that is absent is a hole when the
      index is partial, and has no rows when it is not. */
  datatype Single = Single(index: Index, partial: bool, rows: Keyed)

  datatype Memory = Memory(singles: seq<Single>, weak: map<seq<nat>, Keyed>, byTag: map<Tag, nat>)

  // ---------------------------------------------------------------- one keyed map

  /** `KeyedState::insert`: the new map and whether the row went in. */
  function KeyedInsert(m: Keyed, columns: seq<nat>, row: Row, partial: bool): (Keyed, bool)
    requires InBounds(columns, |row|)
  {
    var key := KeyOf(columns, row);
    if key in m then (m[key := m[key] + multiset{row}], true)
    else if partial then (m, false)
    else (m[key := multiset{row}], true)
  }

  /** What removing one copy of `row` leaves of a bag. A bag with a single row is emptied without
      a comparison. */
  function TakeOne(rows: Bag, row: Row): Bag {
    if |rows| == 1 then multiset{} else rows - multiset{row}
  }

  /** `KeyedState::remove`: the new map and whether the key was there. */
  function KeyedRemove(m: Keyed, columns: seq<nat>, row: Row): (Keyed, bool)
    requires InBounds(columns, |row|)
  {
    var key := KeyOf(columns, row);
    if key in m then (m[key := TakeOne(m[key], row)], true) else (m, false)
  }

  // ---------------------------------------------------------------- one index

  predicate Filled(s: Single, key: Key) {
    !s.partial || key in s.rows
  }

  function InsertRow(s: Single, row: Row): Single
    requires InBounds(s.index.columns, |row|)
  {
    s.(rows := KeyedInsert(s.rows, s.index.columns, row, s.partial).0)
  }

  function RemoveRow(s: Single, row: Row): Single
    requires InBounds(s.index.columns, |row|)
  {
    s.(rows := KeyedRemove(s.rows, s.index.columns, row).0)
  }

  function MarkFilled(s: Single, key: Key): Single {
    s.(rows := s.rows[key := multiset{}])
  }

  function Evict(s: Single, key: Key): Single {
    s.(rows := s.rows - {key})
  }

  // ---------------------------------------------------------------- the invariant

  /** Every filled key of the index holds exactly the existing rows with that key. */
  ghost predicate Exact(s: Single, truth: Bag) {
    (forall key :: key in s.rows ==> ExactlyMatching(s.rows[key], truth, s.index.columns, key)) &&
    (!s.partial ==> forall r :: r in truth ==> InBounds(s.index.columns, |r|) && KeyOf(s.index.columns, r) in s.rows)
  }

  ghost predicate RowsFit(truth: Bag, width: nat) {
    forall r :: r in truth ==> |r| == width
  }

  /** A full index without an entry for a key has no rows with it. */
  lemma NoRowsWithKey(s: Single, truth: Bag, key: Key)
    requires Exact(s, truth) && !s.partial && key !in s.rows
    ensures forall r: Row :: HasKey(s.index.columns, r, key) ==> truth[r] == 0
  {
    assert forall r :: r in truth ==> KeyOf(s.index.columns, r) in s.rows;
  }

  lemma InsertExact(s: Single, truth: Bag, row: Row)
    requires Exact(s, truth) && InBounds(s.index.columns, |row|)
    ensures Exact(InsertRow(s, row), truth + multiset{row})
  {
    var s' := InsertRow(s, row);
    var k := KeyOf(s.index.columns, row);
    forall key | key in s'.rows
      ensures ExactlyMatching(s'.rows[key], truth + multiset{row}, s.index.columns, key)
    {
      if key !in s.rows {
        NoRowsWithKey(s, truth, key);
      }
    }
  }

  lemma TakeOneIsMinus(rows: Bag, row: Row)
    requires row in rows
    ensures TakeOne(rows, row) == rows - multiset{row}
  {
    if |rows| == 1 {
      assert |rows - multiset{row}| == 0;
    }
  }

  lemma RemoveExact(s: Single, truth: Bag, row: Row)
    requires Exact(s, truth) && InBounds(s.index.columns, |row|) && row in truth
    ensures Exact(RemoveRow(s, row), truth - multiset{row})
  {
    var s' := RemoveRow(s, row);
    var k := KeyOf(s.index.columns, row);
    forall key | key in s'.rows
      ensures ExactlyMatching(s'.rows[key], truth - multiset{row}, s.index.columns, key)
    {
      assert ExactlyMatching(s.rows[key], truth, s.index.columns, key);
      if key == k {
        assert s.rows[k][row] == truth[row];
        TakeOneIsMinus(s.rows[k], row);
      }
    }
  }

  // ---------------------------------------------------------------- the whole state

  ghost predicate WellFormed(m: Memory, width: nat) {
    (forall i :: 0 <= i < |m.singles| ==> InBounds(m.singles[i].index.columns, width)) &&
    (forall c :: c in m.weak ==> InBounds(c, width)) &&
    (forall t :: t in m.byTag ==> m.byTag[t] < |m.singles|)
  }

  predicate IsPartial(m: Memory) {
    exists i :: 0 <= i < |m.singles| && m.singles[i].partial
  }

  /** One of the first `n` indices has this row's key filled. */
  predicate HitsFirst(m: Memory, row: Row, n: nat)
    requires n <= |m.singles|
    requires forall i :: 0 <= i < |m.singles| ==> InBounds(m.singles[i].index.columns, |row|)
  {
    exists i :: 0 <= i < n && Filled(m.singles[i], KeyOf(m.singles[i].index.columns, row))
  }

  /** Some index has this row's key filled. */
  predicate HitsSome(m: Memory, row: Row)
    requires forall i :: 0 <= i < |m.singles| ==> InBounds(m.singles[i].index.columns, |row|)
  {
    HitsFirst(m, row, |m.singles|)
  }

  function InsertWeak(m: Memory, row: Row): Memory
    requires forall c :: c in m.weak ==> InBounds(c, |row|)
  {
    m.(weak := map c | c in m.weak :: KeyedInsert(m.weak[c], c, row, false).0)
  }

  function RemoveWeak(m: Memory, row: Row): Memory
    requires forall c :: c in m.weak ==> InBounds(c, |row|)
  {
    m.(weak := map c | c in m.weak :: KeyedRemove(m.weak[c], c, row).0)
  }

  function InsertSingles(m: Memory, row: Row): Memory
    requires WellFormed(m, |row|)
  {
    m.(singles := seq(|m.singles|, i requires 0 <= i < |m.singles| => InsertRow(m.singles[i], row)))
  }

  function RemoveSingles(m: Memory, row: Row): Memory
    requires WellFormed(m, |row|)
  {
    m.(singles := seq(|m.singles|, i requires 0 <= i < |m.singles| => RemoveRow(m.singles[i], row)))
  }

  predicate KeyPresent(s: Single, row: Row)
    requires InBounds(s.index.columns, |row|)
  {
    KeyOf(s.index.columns, row) in s.rows
  }

  /** One of the first `n` indices has a bag under this row's key. */
  predicate KeyInFirst(m: Memory, row: Row, n: nat)
    requires n <= |m.singles|
    requires forall i :: 0 <= i < |m.singles| ==> InBounds(m.singles[i].index.columns, |row|)
  {
    exists i :: 0 <= i < n && KeyPresent(m.singles[i], row)
  }

  lemma OneMoreIndex(m: Memory, row: Row, n: nat)
    requires n < |m.singles|
    requires forall i :: 0 <= i < |m.singles| ==> InBounds(m.singles[i].index.columns, |row|)
    ensures HitsFirst(m, row, n + 1) <==>
            HitsFirst(m, row, n) || Filled(m.singles[n], KeyOf(m.singles[n].index.columns, row))
    ensures KeyInFirst(m, row, n + 1) <==> KeyInFirst(m, row, n) || KeyPresent(m.singles[n], row)
  {
  }

  /** The key is present in some index, so that a removal finds a bag to look in. */
  predicate KeyInSome(m: Memory, row: Row)
    requires forall i :: 0 <= i < |m.singles| ==> InBounds(m.singles[i].index.columns, |row|)
  {
    KeyInFirst(m, row, |m.singles|)
  }

  /** The row inserted into the first `n` indices. */
  function InsertUpTo(m: Memory, row: Row, n: nat): (r: Memory)
    requires WellFormed(m, |row|) && n <= |m.singles|
    ensures |r.singles| == |m.singles|
    ensures forall i :: n <= i < |m.singles| ==> r.singles[i] == m.singles[i]
    ensures forall i :: 0 <= i < n ==> r.singles[i] == InsertRow(m.singles[i], row)
  {
    if n == 0 then m
    else
      var r := InsertUpTo(m, row, n - 1);
      r.(singles := r.singles[n - 1 := InsertRow(m.singles[n - 1], row)])
  }

  /** The row removed from the first `n` indices. */
  function RemoveUpTo(m: Memory, row: Row, n: nat): (r: Memory)
    requires WellFormed(m, |row|) && n <= |m.singles|
    ensures |r.singles| == |m.singles|
    ensures forall i :: n <= i < |m.singles| ==> r.singles[i] == m.singles[i]
    ensures forall i :: 0 <= i < n ==> r.singles[i] == RemoveRow(m.singles[i], row)
  {
    if n == 0 then m
    else
      var r := RemoveUpTo(m, row, n - 1);
      r.(singles := r.singles[n - 1 := RemoveRow(m.singles[n - 1], row)])
  }

  lemma UpToAll(m: Memory, row: Row)
    requires WellFormed(m, |row|)
    ensures InsertUpTo(m, row, |m.singles|).singles == InsertSingles(m, row).singles
    ensures RemoveUpTo(m, row, |m.singles|).singles == RemoveSingles(m, row).singles
  {
  }

  /** `MemoryState::insert`: the new state and whether the record is kept. */
  function Insert(m: Memory, row: Row, tag: Option<Tag>): (Memory, bool)
    requires WellFormed(m, |row|)
  {
    match tag
    case Some(t) =>
      if t !in m.byTag then (m, true)
      else
        var i := m.byTag[t];
        var hit := Filled(m.singles[i], KeyOf(m.singles[i].index.columns, row));
        var m' := m.(singles := m.singles[i := InsertRow(m.singles[i], row)]);
        (if hit then InsertWeak(m', row) else m', hit)
    case None =>
      var hit := HitsSome(m, row);
      var m' := InsertSingles(m, row);
      (if hit then InsertWeak(m', row) else m', hit)
  }

  /** `MemoryState::remove`: the new state and whether the record is kept. */
  function Remove(m: Memory, row: Row): (Memory, bool)
    requires WellFormed(m, |row|)
  {
    var hit := KeyInSome(m, row);
    var m' := RemoveSingles(m, row);
    (if hit then RemoveWeak(m', row) else m', hit)
  }

  function Apply(m: Memory, rec: Record, tag: Option<Tag>): (Memory, bool)
    requires WellFormed(m, |rec.row|)
  {
    match rec
    case Positive(row) => Insert(m, row, tag)
    case Negative(row) => Remove(m, row)
  }

  /** Same indices, the same tags, and the same filled keys in the partial ones. */
  ghost predicate SameShape(m: Memory, n: Memory) {
    n.byTag == m.byTag && |n.singles| == |m.singles| && n.weak.Keys == m.weak.Keys &&
    forall i :: 0 <= i < |m.singles| ==>
      n.singles[i].index == m.singles[i].index && n.singles[i].partial == m.singles[i].partial &&
      (m.singles[i].partial ==> n.singles[i].rows.Keys == m.singles[i].rows.Keys)
  }

  lemma SameShapeWellFormed(m: Memory, n: Memory, width: nat)
    requires WellFormed(m, width) && SameShape(m, n)
    ensures WellFormed(n, width)
  {
  }

  lemma InsertSameShape(m: Memory, row: Row, tag: Option<Tag>)
    requires WellFormed(m, |row|)
    ensures SameShape(m, Insert(m, row, tag).0)
  {
  }

  lemma RemoveSameShape(m: Memory, row: Row)
    requires WellFormed(m, |row|)
    ensures SameShape(m, Remove(m, row).0)
  {
  }

  lemma ApplyWellFormed(m: Memory, rec: Record, tag: Option<Tag>)
    requires WellFormed(m, |rec.row|)
    ensures WellFormed(Apply(m, rec, tag).0, |rec.row|)
    ensures SameShape(m, Apply(m, rec, tag).0)
  {
    if rec.Positive? {
      InsertSameShape(m, rec.row, tag);
    } else {
      RemoveSameShape(m, rec.row);
    }
    SameShapeWellFormed(m, Apply(m, rec, tag).0, |rec.row|);
  }

  ghost predicate RecordsFit(records: seq<Record>, width: nat) {
    forall i :: 0 <= i < |records| ==> |records[i].row| == width
  }

  /** `MemoryState::process_records`: the new state and the records that are kept. */
  ghost function Process(m: Memory, records: seq<Record>, tag: Option<Tag>, width: nat): (Memory, seq<Record>)
    requires WellFormed(m, width) && RecordsFit(records, width)
    decreases records
  {
    if records == [] then (m, [])
    else
      ApplyWellFormed(m, records[0], if IsPartial(m) then tag else None);
      var (m', hit) := Apply(m, records[0], if IsPartial(m) then tag else None);
      var (m'', kept) := Process(m', records[1..], tag, width);
      (m'', (if hit || !IsPartial(m) then [records[0]] else []) + kept)
  }

  function Indices(m: Memory): seq<Index> {
    seq(|m.singles|, i requires 0 <= i < |m.singles| => m.singles[i].index)
  }

  /** No column twice in an index, and no index twice. */
  ghost predicate IndicesDistinct(indices: seq<Index>) {
    Distinct(indices) && forall x :: x in indices ==> Distinct(x.columns)
  }

  ghost predicate Inv(m: Memory, truth: Bag, width: nat) {
    WellFormed(m, width) && RowsFit(truth, width) &&
    forall i :: 0 <= i < |m.singles| ==> Exact(m.singles[i], truth)
  }

  // ---------------------------------------------------------------- untagged writes

  lemma ApplyUntagged(m: Memory, truth: Bag, rec: Record, width: nat)
    requires Inv(m, truth, width) && |rec.row| == width && Possible(truth, rec)
    ensures Inv(Apply(m, rec, None).0, ApplyTruth(truth, rec), width)
    ensures Apply(m, rec, None).1 <==> HitsSome(m, rec.row)
  {
    var m' := Apply(m, rec, None).0;
    ApplyWellFormed(m, rec, None);
    forall i | 0 <= i < |m'.singles| ensures Exact(m'.singles[i], ApplyTruth(truth, rec)) {
      match rec
      case Positive(row) => InsertExact(m.singles[i], truth, row);
      case Negative(row) => RemoveExact(m.singles[i], truth, row);
    }
  }
}

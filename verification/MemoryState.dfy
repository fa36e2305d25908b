/** The in-memory state as objects that are updated in place. Each method is tied to the value
    model: what it makes of the state is what the model's function says. */
module MemoryStates {
  import opened Options
  import opened StateTypes
  import opened MemoryModel
  import Runs = MemoryRuns
  import Traces
  import Replays = MemoryReplays
  import Weak = WeakIndices
  import MemoryLookup

  class SingleState {
    const index: Index
    const partial: bool
    var rows: Keyed

    function View(): Single
      reads this
    {
      Single(index, partial, rows)
    }

    constructor (index: Index, partial: bool)
      ensures View() == Single(index, partial, map[])
    {
      this.index, this.partial, rows := index, partial, map[];
    }

    /** A row goes in unless its key is a hole. */
    method InsertRow(row: Row) returns (added: bool)
      requires InBounds(index.columns, |row|)
      modifies this
      ensures View() == MemoryModel.InsertRow(old(View()), row)
      ensures added <==> Filled(old(View()), KeyOf(index.columns, row))
    {
      var key := KeyOf(index.columns, row);
      if key in rows {
        rows := rows[key := rows[key] + multiset{row}];
        return true;
      } else if partial {
        return false;
      }
      rows := rows[key := multiset{row}];
      added := true;
    }

    /** Removes one copy of the row; `hit` becomes true if the key is present. */
    method RemoveRow(row: Row, hit: bool) returns (hit': bool)
      requires InBounds(index.columns, |row|)
      modifies this
      ensures View() == MemoryModel.RemoveRow(old(View()), row)
      ensures hit' <==> hit || KeyPresent(old(View()), row)
    {
      hit' := hit;
      var key := KeyOf(index.columns, row);
      if key in rows {
        hit' := true;
        if |rows[key]| == 1 {
          rows := rows[key := multiset{}];
        } else if row in rows[key] {
          rows := rows[key := rows[key] - multiset{row}];
        } else {
          assert rows[key] - multiset{row} == rows[key];
          assert rows == rows[key := rows[key]];
        }
      }
    }

    /** The hole must be one: the entry that is put in may not replace another. */
    method MarkFilled(key: Key)
      requires key !in rows
      modifies this
      ensures View() == MemoryModel.MarkFilled(old(View()), key)
    {
      rows := rows[key := multiset{}];
    }

    method MarkHole(key: Key)
      modifies this
      ensures View() == Evict(old(View()), key)
    {
      rows := rows - {key};
    }

    /** Evicts the keys and returns the rows they held, each distinct row once. */
    method EvictKeys(keys: seq<Key>, ghost truth: Bag) returns (evicted: set<Row>)
      requires Exact(View(), truth)
      modifies this
      ensures View() == Runs.EvictAll(old(View()), keys)
      ensures forall r :: r in evicted <==> Runs.Evicts(old(View()), keys, r)
    {
      ghost var s := View();
      evicted := {};
      for i := 0 to |keys|
        invariant View() == Runs.EvictAll(s, keys[..i])
        invariant forall r :: r in evicted <==> Runs.Evicts(s, keys[..i], r)
      {
        assert keys[..i + 1] == keys[..i] + [keys[i]];
        EvictsOneMore(s, truth, keys[..i], keys[i]);
        Weak.EvictAllSnoc(s, keys[..i], keys[i]);
        var bag := if keys[i] in rows then rows[keys[i]] else multiset{};
        evicted := evicted + set r | r in bag;
        rows := rows - {keys[i]};
      }
      assert keys[..|keys|] == keys;
    }

    /** Evicts some key, if there is one. */
    method EvictRandom() returns (evicted: Option<(Key, Bag)>)
      modifies this
      ensures evicted.None? <==> old(rows) == map[]
      ensures evicted.None? ==> View() == old(View())
      ensures evicted.Some? ==>
                evicted.value.0 in old(rows) && evicted.value.1 == old(rows)[evicted.value.0] &&
                View() == Evict(old(View()), evicted.value.0)
    {
      if rows == map[] {
        return None;
      }
      var key :| key in rows;
      evicted := Some((key, rows[key]));
      rows := rows - {key};
    }
  }

  /** One more key brings out the rows under it, unless it was evicted before. */
  lemma EvictsOneMore(s: Single, truth: Bag, keys: seq<Key>, key: Key)
    requires Exact(s, truth)
    ensures forall r :: Runs.Evicts(s, keys + [key], r) <==>
                        Runs.Evicts(s, keys, r) || (key in s.rows && key !in keys && r in s.rows[key])
  {
    if key in s.rows {
      assert ExactlyMatching(s.rows[key], truth, s.index.columns, key);
      forall r | r in s.rows[key] ensures HasKey(s.index.columns, r, key) {
        assert s.rows[key][r] > 0;
      }
    }
  }

  /** Evicting a key and forgetting its rows is one step of a run, if it loses nothing. */
  /** From an exact state, this operation can be taken as a step of a run, and leads to `m'`. */
  ghost predicate StepsTo(m: Memory, truth: Bag, width: nat, op: Runs.Op, m': Memory) {
    Inv(m, truth, width) && Runs.Enabled(m, truth, width, op) && m' == Runs.Step(m, truth, width, op)
  }

  lemma WriteIsStep(m: Memory, truth: Bag, width: nat, records: seq<Record>)
    requires Inv(m, truth, width) && RecordsFit(records, width) && BatchPossible(truth, records)
    ensures StepsTo(m, truth, width, Runs.Write(records), Process(m, records, None, width).0)
  {
  }

  lemma HoleIsStep(m: Memory, truth: Bag, width: nat, tag: Tag, key: Key)
    requires Inv(m, truth, width) && tag in m.byTag && Runs.Harmless(m.singles[m.byTag[tag]], [key])
    ensures StepsTo(m, truth, width, Runs.MarkHole(tag, key),
                    Runs.WithSingle(m, m.byTag[tag], Evict(m.singles[m.byTag[tag]], key)))
  {
  }

  lemma EvictionIsStep(m: Memory, truth: Bag, width: nat, i: nat, key: Key, order: seq<Row>)
    requires Inv(m, truth, width) && i < |m.singles| && Runs.Harmless(m.singles[i], [key]) && key in m.singles[i].rows
    requires multiset(order) == m.singles[i].rows[key] && forall r :: r in order ==> |r| == width
    ensures Runs.Enabled(m, truth, width, Runs.EvictRandom(i, key, order))
    ensures Runs.Step(m, truth, width, Runs.EvictRandom(i, key, order)) ==
            Runs.EvictInto(m, i, Evict(m.singles[i], key), order, width)
  {
  }

  /** `keys` left index `i`, and their rows, each once, left the weak indices. The state is exact
      afterwards exactly if nothing was lost. */
  ghost predicate KeysEvicted(m: Memory, truth: Bag, width: nat, m': Memory, i: nat, keys: seq<Key>, order: seq<Row>) {
    WellFormed(m, width) && i < |m.singles| && Runs.ListsEvicted(order, m.singles[i], keys) &&
    (forall r :: r in order ==> |r| == width) &&
    m' == Runs.EvictInto(m, i, Runs.EvictAll(m.singles[i], keys), order, width) &&
    (Inv(m', truth, width) <==> Runs.Harmless(m.singles[i], keys))
  }

  lemma EvictKeysIsStep(m: Memory, truth: Bag, width: nat, m': Memory, tag: Tag, keys: seq<Key>, order: seq<Row>)
    requires Inv(m, truth, width)
    requires if tag in m.byTag then KeysEvicted(m, truth, width, m', m.byTag[tag], keys, order) else m' == m
    requires tag in m.byTag ==> Runs.Harmless(m.singles[m.byTag[tag]], keys)
    ensures StepsTo(m, truth, width, Runs.EvictKeys(tag, keys, order), m')
  {
  }

  lemma EvictsKeys(m: Memory, truth: Bag, width: nat, i: nat, keys: seq<Key>, order: seq<Row>)
    requires Inv(m, truth, width) && i < |m.singles| && Runs.ListsEvicted(order, m.singles[i], keys)
    requires forall r :: r in order ==> |r| == width
    ensures KeysEvicted(m, truth, width, Runs.EvictInto(m, i, Runs.EvictAll(m.singles[i], keys), order, width),
                        i, keys, order)
  {
    Runs.EvictAllExactIff(m.singles[i], truth, keys);
    Runs.EvictIntoInv(m, truth, width, i, Runs.EvictAll(m.singles[i], keys), order);
  }

  /** Evictions by bytes lead from `m` to the exact state `m'`. */
  ghost predicate IsEvictionRun(m: Memory, truth: Bag, width: nat, m': Memory, ops: seq<Runs.Op>) {
    Inv(m', truth, width) && Runs.Reaches(m, truth, width, ops, m', truth) && forall op :: op in ops ==> op.EvictRandom?
  }

  /** A key leaves index `i`, and its rows, as often as they were there, leave the weak indices. */
  ghost predicate IsEviction(m: Memory, i: nat, op: Runs.Op, width: nat, m': Memory) {
    op.EvictRandom? && op.position == i < |m.singles| && WellFormed(m, width) && op.key in m.singles[i].rows &&
    multiset(op.order) == m.singles[i].rows[op.key] && (forall r :: r in op.order ==> |r| == width) &&
    m' == Runs.EvictInto(m, i, Evict(m.singles[i], op.key), op.order, width)
  }

  ghost function Evicting(i: nat, width: nat): (Memory, Runs.Op, Memory) -> bool {
    (m: Memory, op: Runs.Op, m': Memory) => IsEviction(m, i, op, width, m')
  }

  /** One eviction after the other, also of rows that a full index loses. */
  ghost predicate Evictions(m: Memory, i: nat, ops: seq<Runs.Op>, width: nat, m': Memory) {
    Traces.Reaches(Evicting(i, width), m, ops, m')
  }

  ghost function KeysOf(ops: seq<Runs.Op>): seq<Key> {
    seq(|ops|, n requires 0 <= n < |ops| => if ops[n].EvictRandom? then ops[n].key else [])
  }

  /** Index `i` without these keys, and the other indices. */
  ghost predicate Without(m: Memory, i: nat, keys: seq<Key>, m': Memory) {
    i < |m.singles| && m'.singles == m.singles[i := Runs.EvictAll(m.singles[i], keys)]
  }

  lemma OneWithout(m: Memory, i: nat, op: Runs.Op, width: nat, m': Memory)
    requires IsEviction(m, i, op, width, m')
    ensures m'.singles == m.singles[i := Evict(m.singles[i], op.key)]
    ensures |m'.singles[i].rows| < |m.singles[i].rows|
  {
    Runs.RemoveWeakAllStrict(Runs.WithSingle(m, i, Evict(m.singles[i], op.key)), op.order, width);
    KeyGone(m.singles[i].rows, op.key);
  }

  lemma OneMoreEviction(m: Memory, i: nat, ops: seq<Runs.Op>, width: nat, mid: Memory, op: Runs.Op, m': Memory)
    requires Evictions(m, i, ops, width, mid) && IsEviction(mid, i, op, width, m')
    ensures Evictions(m, i, ops + [op], width, m') && KeysOf(ops + [op]) == KeysOf(ops) + [op.key]
  {
    Traces.ReachesSnoc(Evicting(i, width), m, ops, mid, op, m');
  }

  lemma {:induction false} EvictionsWithout(m: Memory, i: nat, ops: seq<Runs.Op>, width: nat, m': Memory)
    requires i < |m.singles| && Evictions(m, i, ops, width, m')
    ensures Without(m, i, KeysOf(ops), m')
    decreases ops
  {
    if ops == [] {
      assert m.singles[i := m.singles[i]] == m.singles;
    } else {
      var mid :| IsEviction(m, i, ops[0], width, mid) && Evictions(mid, i, ops[1..], width, m');
      OneWithout(m, i, ops[0], width, mid);
      EvictionsWithout(mid, i, ops[1..], width, m');
      assert KeysOf(ops)[1..] == KeysOf(ops[1..]);
    }
  }

  /** If nothing is lost, the evictions are a run. */
  lemma {:induction false} EvictionsRun(m: Memory, truth: Bag, width: nat, i: nat, ops: seq<Runs.Op>, m': Memory)
    requires Inv(m, truth, width) && i < |m.singles| && Evictions(m, i, ops, width, m')
    requires Runs.Harmless(m.singles[i], KeysOf(ops))
    ensures IsEvictionRun(m, truth, width, m', ops)
    decreases ops
  {
    if ops != [] {
      var mid :| IsEviction(m, i, ops[0], width, mid) && Evictions(mid, i, ops[1..], width, m');
      FirstIsStep(m, truth, width, i, ops, mid);
      EvictionsRun(mid, truth, width, i, ops[1..], m');
      RunStarts(m, truth, width, ops[0], ops[1..], m');
      assert ops == [ops[0]] + ops[1..];
    }
  }

  lemma RunStarts(m: Memory, truth: Bag, width: nat, op: Runs.Op, ops: seq<Runs.Op>, m': Memory)
    requires Inv(m, truth, width) && op.EvictRandom? && Runs.Enabled(m, truth, width, op)
    requires IsEvictionRun(Runs.Step(m, truth, width, op), truth, width, m', ops)
    ensures IsEvictionRun(m, truth, width, m', [op] + ops)
  {
    Runs.ReachesCons(m, truth, width, op, ops, m', truth);
  }

  lemma FirstIsStep(m: Memory, truth: Bag, width: nat, i: nat, ops: seq<Runs.Op>, mid: Memory)
    requires Inv(m, truth, width) && ops != [] && IsEviction(m, i, ops[0], width, mid)
    requires Runs.Harmless(m.singles[i], KeysOf(ops))
    ensures Runs.Enabled(m, truth, width, ops[0]) && mid == Runs.Step(m, truth, width, ops[0])
    ensures Inv(mid, truth, width) && i < |mid.singles| && Runs.Harmless(mid.singles[i], KeysOf(ops[1..]))
  {
    assert KeysOf(ops)[0] == ops[0].key && KeysOf(ops)[1..] == KeysOf(ops[1..]);
    EvictionIsStep(m, truth, width, i, ops[0].key, ops[0].order);
    Runs.StepKeepsInv(m, truth, width, ops[0]);
    OneWithout(m, i, ops[0], width, mid);
  }

  /** An index without these keys. */
  ghost function Except(s: Single, keys: set<Key>): Single {
    s.(rows := s.rows - keys)
  }

  lemma ExceptNothing(s: Single)
    ensures Except(s, {}) == s
  {
    assert s.rows - {} == s.rows;
  }

  /** Inserts a row into every weak index. */
  method InsertIntoEach(weak: map<seq<nat>, Keyed>, row: Row) returns (r: map<seq<nat>, Keyed>)
    requires forall c :: c in weak ==> InBounds(c, |row|)
    ensures r == map c | c in weak :: KeyedInsert(weak[c], c, row, false).0
  {
    r := weak;
    var rest := weak.Keys;
    while rest != {}
      invariant rest <= r.Keys == weak.Keys
      invariant forall c :: c in weak ==> r[c] == if c in rest then weak[c] else KeyedInsert(weak[c], c, row, false).0
      decreases rest
    {
      var c :| c in rest;
      var (k, _) := KeyedInsert(r[c], c, row, false);
      r := r[c := k];
      rest := rest - {c};
    }
  }

  /** Removes a row from every weak index. */
  method RemoveFromEach(weak: map<seq<nat>, Keyed>, row: Row) returns (r: map<seq<nat>, Keyed>)
    requires forall c :: c in weak ==> InBounds(c, |row|)
    ensures r == map c | c in weak :: KeyedRemove(weak[c], c, row).0
  {
    r := weak;
    var rest := weak.Keys;
    while rest != {}
      invariant rest <= r.Keys == weak.Keys
      invariant forall c :: c in weak ==> r[c] == if c in rest then weak[c] else KeyedRemove(weak[c], c, row).0
      decreases rest
    {
      var c :| c in rest;
      var (k, _) := KeyedRemove(r[c], c, row);
      r := r[c := k];
      rest := rest - {c};
    }
  }

  class MemoryState {
    var state: seq<SingleState>
    var weakIndices: map<seq<nat>, Keyed>
    var byTag: map<Tag, nat>
    ghost const width: nat

    function View(): Memory
      reads this, state
    {
      Memory(seq(|state|, i requires 0 <= i < |state| reads this, state => state[i].View()), weakIndices, byTag)
    }

    ghost predicate Valid()
      reads this, state
    {
      Distinct(state) && WellFormed(View(), width)
    }

    constructor (ghost width: nat)
      ensures Valid() && View() == Runs.EMPTY && this.width == width
    {
      this.width := width;
      state, weakIndices, byTag := [], map[], map[];
    }

    // -------------------------------------------------------------- weak indices

    method AddWeakKey(columns: seq<nat>, ghost truth: Bag)
      requires Valid() && InBounds(columns, width)
      modifies this`weakIndices
      ensures Valid() && View() == old(View()).(weak := old(weakIndices)[columns := map[]])
      ensures Inv(old(View()), truth, width) ==> StepsTo(old(View()), truth, width, Runs.AddWeak(columns), View())
    {
      ghost var m := View();
      weakIndices := weakIndices[columns := map[]];
      assert View().singles == m.singles;
    }

    method InsertWeakRow(row: Row)
      requires Valid() && |row| == width
      modifies this`weakIndices
      ensures Valid() && View() == InsertWeak(old(View()), row)
    {
      ghost var m := View();
      weakIndices := InsertIntoEach(weakIndices, row);
      assert View().singles == m.singles;
    }

    method RemoveWeakRow(row: Row)
      requires Valid() && |row| == width
      modifies this`weakIndices
      ensures Valid() && View() == RemoveWeak(old(View()), row)
    {
      ghost var m := View();
      weakIndices := RemoveFromEach(weakIndices, row);
      assert View().singles == m.singles;
    }

    // -------------------------------------------------------------- writes

    method InsertAt(i: nat, row: Row) returns (added: bool)
      requires Valid() && |row| == width && i < |state|
      modifies state[i]
      ensures Valid() && i < |View().singles| == |old(View()).singles|
      ensures View() == Runs.WithSingle(old(View()), i, MemoryModel.InsertRow(old(View()).singles[i], row))
      ensures added <==> Filled(old(View()).singles[i], KeyOf(old(View()).singles[i].index.columns, row))
    {
      ghost var m := View();
      assert state[i].View() == m.singles[i];
      added := state[i].InsertRow(row);
      assert View().singles == m.singles[i := MemoryModel.InsertRow(m.singles[i], row)];
    }

    method RemoveAt(i: nat, row: Row, hit: bool) returns (hit': bool)
      requires Valid() && |row| == width && i < |state|
      modifies state[i]
      ensures Valid() && i < |View().singles| == |old(View()).singles|
      ensures View() == Runs.WithSingle(old(View()), i, MemoryModel.RemoveRow(old(View()).singles[i], row))
      ensures hit' <==> hit || KeyPresent(old(View()).singles[i], row)
    {
      ghost var m := View();
      assert state[i].View() == m.singles[i];
      hit' := state[i].RemoveRow(row, hit);
      assert View().singles == m.singles[i := MemoryModel.RemoveRow(m.singles[i], row)];
    }

    method InsertEverywhere(row: Row) returns (hit: bool)
      requires Valid() && |row| == width
      modifies state
      ensures Valid() && View() == InsertSingles(old(View()), row)
      ensures hit <==> HitsSome(old(View()), row)
    {
      ghost var m := View();
      hit := false;
      for i := 0 to |state|
        invariant Valid() && View() == InsertUpTo(m, row, i)
        invariant hit <==> HitsFirst(m, row, i)
      {
        OneMoreIndex(m, row, i);
        var added := InsertAt(i, row);
        hit := hit || added;
      }
      UpToAll(m, row);
    }

    method RemoveEverywhere(row: Row) returns (hit: bool)
      requires Valid() && |row| == width
      modifies state
      ensures Valid() && View() == RemoveSingles(old(View()), row)
      ensures hit <==> KeyInSome(old(View()), row)
    {
      ghost var m := View();
      hit := false;
      for i := 0 to |state|
        invariant Valid() && View() == RemoveUpTo(m, row, i)
        invariant hit <==> KeyInFirst(m, row, i)
      {
        OneMoreIndex(m, row, i);
        hit := RemoveAt(i, row, hit);
      }
      UpToAll(m, row);
    }

    method Insert(row: Row, tag: Option<Tag>) returns (hit: bool)
      requires Valid() && |row| == width
      modifies this`weakIndices, state
      ensures Valid() && (View(), hit) == MemoryModel.Insert(old(View()), row, tag)
    {
      ghost var m := View();
      if tag.Some? {
        if tag.value !in byTag {
          return true;
        }
        var i := byTag[tag.value];
        assert state[i].View() == m.singles[i];
        hit := state[i].InsertRow(row);
        assert View().singles == m.singles[i := MemoryModel.InsertRow(m.singles[i], row)];
      } else {
        hit := InsertEverywhere(row);
      }
      if hit {
        InsertWeakRow(row);
      }
    }

    method Remove(row: Row) returns (hit: bool)
      requires Valid() && |row| == width
      modifies this`weakIndices, state
      ensures Valid() && (View(), hit) == MemoryModel.Remove(old(View()), row)
    {
      hit := RemoveEverywhere(row);
      if hit {
        RemoveWeakRow(row);
      }
    }

    method CheckPartial() returns (partial: bool)
      requires Valid()
      ensures partial <==> IsPartial(View())
    {
      partial := false;
      for i := 0 to |state|
        invariant partial <==> exists j :: 0 <= j < i && state[j].partial
      {
        partial := partial || state[i].partial;
      }
      assert forall j :: 0 <= j < |state| ==> View().singles[j].partial == state[j].partial;
    }

    /** Applies the records in order. On partial state the records that hit nothing are dropped: of a replay,
        insertions whose key is a hole of the tagged index. */
    method ProcessRecords(records: seq<Record>, tag: Option<Tag>, ghost truth: Bag) returns (kept: seq<Record>)
      requires Valid() && RecordsFit(records, width)
      modifies this`weakIndices, state
      ensures Valid() && (View(), kept) == Process(old(View()), records, tag, width)
      ensures !IsPartial(old(View())) ==> kept == records
      ensures tag.Some? && IsPartial(old(View())) ==>
                kept == Replays.Staying(old(View()), records, tag.value, width, |records|)
      ensures tag.None? && Inv(old(View()), truth, width) && BatchPossible(truth, records) ==>
                StepsTo(old(View()), truth, width, Runs.Write(records), View())
    {
      ghost var m := View();
      kept := ApplyEach(records, tag);
      if !IsPartial(m) {
        Replays.FullKeepsAll(m, records, tag, width);
      } else if tag.Some? {
        Replays.TaggedKeeps(m, records, tag.value, width);
      }
      if tag.None? && Inv(m, truth, width) && BatchPossible(truth, records) {
        WriteIsStep(m, truth, width, records);
      }
    }

    method ApplyEach(records: seq<Record>, tag: Option<Tag>) returns (kept: seq<Record>)
      requires Valid() && RecordsFit(records, width)
      modifies this`weakIndices, state
      ensures Valid() && (View(), kept) == Process(old(View()), records, tag, width)
    {
      ghost var m := View();
      var partial := CheckPartial();
      kept := [];
      assert records[..0] == [];
      for i := 0 to |records|
        invariant Valid() && RecordsFit(records[..i], width)
        invariant (View(), kept) == Process(m, records[..i], tag, width)
      {
        assert records[..i + 1] == records[..i] + [records[i]];
        Runs.ProcessSnoc(m, records[..i], records[i], tag, width);
        ApplyWellFormed(View(), records[i], if partial then tag else None);
        var hit;
        match records[i] {
          case Positive(row) => hit := Insert(row, if partial then tag else None);
          case Negative(row) => hit := Remove(row);
        }
        kept := kept + if hit || !partial then [records[i]] else [];
      }
      assert records[..|records|] == records;
    }

    // -------------------------------------------------------------- fills, holes and evictions

    method MarkFilled(key: Key, tag: Tag)
      requires Valid() && tag in byTag && key !in state[byTag[tag]].rows
      modifies state[byTag[tag]]
      ensures Valid() && View() == Runs.Fill(old(View()), tag, [key])
    {
      ghost var m := View();
      var i := byTag[tag];
      assert state[i].View() == m.singles[i];
      state[i].MarkFilled(key);
      assert Runs.FillAll(m.singles[i], [key]) == MemoryModel.MarkFilled(m.singles[i], key) by {
        assert [key][1..] == [];
      }
      assert View().singles == m.singles[i := MemoryModel.MarkFilled(m.singles[i], key)];
    }

    method MarkHole(key: Key, tag: Tag, ghost truth: Bag)
      requires Valid() && tag in byTag
      modifies state[byTag[tag]]
      ensures Valid() && byTag[tag] < |old(View()).singles|
      ensures View() == Runs.WithSingle(old(View()), byTag[tag], Evict(old(View()).singles[byTag[tag]], key))
      ensures Inv(old(View()), truth, width) && Runs.Harmless(old(View()).singles[byTag[tag]], [key]) ==>
                StepsTo(old(View()), truth, width, Runs.MarkHole(tag, key), View())
    {
      ghost var m := View();
      var i := byTag[tag];
      assert state[i].View() == m.singles[i];
      state[i].MarkHole(key);
      assert View().singles == m.singles[i := Evict(m.singles[i], key)];
      if Inv(m, truth, width) && Runs.Harmless(m.singles[i], [key]) {
        HoleIsStep(m, truth, width, tag, key);
      }
    }

    /** Takes a bag of evicted rows out of the weak indices, copy by copy. */
    method ForgetRows(rows: Bag) returns (ghost order: seq<Row>)
      requires Valid() && forall r :: r in rows ==> |r| == width
      modifies this`weakIndices
      ensures multiset(order) == rows && forall r :: r in order ==> |r| == width
      ensures Valid() && View() == Runs.RemoveWeakAll(old(View()), order, width)
    {
      ghost var m := View();
      order := [];
      var rest := rows;
      while rest != multiset{}
        invariant multiset(order) + rest == rows
        invariant forall r :: r in order ==> |r| == width
        invariant Valid() && View() == Runs.RemoveWeakAll(m, order, width)
        decreases |rest|
      {
        var r :| r in rest;
        assert r in rows;
        Runs.RemoveWeakAllSnoc(m, order, r, width);
        RemoveWeakRow(r);
        rest := rest - multiset{r};
        order := order + [r];
      }
    }

    /** `evict_keys`: an unknown tag evicts nothing. On a full index the eviction loses the rows. */
    method EvictKeys(tag: Tag, keys: seq<Key>, ghost truth: Bag) returns (ghost order: seq<Row>)
      requires Valid() && Inv(View(), truth, width)
      modifies this`weakIndices, state
      ensures Valid() && (tag !in byTag ==> View() == old(View()))
      ensures tag in byTag ==> KeysEvicted(old(View()), truth, width, View(), byTag[tag], keys, order)
      ensures (tag in byTag ==> Runs.Harmless(old(View()).singles[byTag[tag]], keys)) ==>
                StepsTo(old(View()), truth, width, Runs.EvictKeys(tag, keys, order), View())
    {
      order := [];
      ghost var m := View();
      if tag in byTag {
        order := EvictTagged(byTag[tag], keys, truth);
      }
      if tag in byTag ==> Runs.Harmless(m.singles[byTag[tag]], keys) {
        EvictKeysIsStep(m, truth, width, View(), tag, keys, order);
      }
    }

    method EvictTagged(i: nat, keys: seq<Key>, ghost truth: Bag) returns (ghost order: seq<Row>)
      requires Valid() && i < |state| && Inv(View(), truth, width)
      modifies this`weakIndices, state
      ensures Valid() && KeysEvicted(old(View()), truth, width, View(), i, keys, order)
    {
      ghost var m := View();
      var evicted := TakeKeys(i, keys, truth);
      order := ForgetRows(multiset(evicted));
      DistinctFromSet(order, evicted);
      EvictsKeys(m, truth, width, i, keys, order);
    }

    /** Takes the keys out of index `i`. */
    method TakeKeys(i: nat, keys: seq<Key>, ghost truth: Bag) returns (evicted: set<Row>)
      requires Valid() && i < |state| && Inv(View(), truth, width)
      modifies state
      ensures Valid() && i < |old(View()).singles|
      ensures View() == Runs.WithSingle(old(View()), i, Runs.EvictAll(old(View()).singles[i], keys))
      ensures forall r :: r in evicted <==> Runs.Evicts(old(View()).singles[i], keys, r)
      ensures forall r :: r in evicted ==> |r| == width
    {
      ghost var m := View();
      assert state[i].View() == m.singles[i];
      evicted := state[i].EvictKeys(keys, truth);
      assert View().singles == m.singles[i := Runs.EvictAll(m.singles[i], keys)];
      forall r | r in evicted ensures |r| == width {
        StoredFits(m.singles[i], truth, width, KeyOf(m.singles[i].index.columns, r), r);
      }
    }

    /** One round of `evict_bytes` on index `i`. */
    method EvictOne(i: nat) returns (key: Option<Key>, ghost order: seq<Row>)
      requires Valid() && i < |state| && RowsStored(View().singles[i], width)
      modifies this`weakIndices, state
      ensures Valid() && (key.None? <==> old(View()).singles[i].rows == map[])
      ensures key.None? ==> View() == old(View())
      ensures key.Some? ==>
                key.value in old(View()).singles[i].rows && multiset(order) == old(View()).singles[i].rows[key.value] &&
                (forall r :: r in order ==> |r| == width) &&
                View() == Runs.EvictInto(old(View()), i, Evict(old(View()).singles[i], key.value), order, width)
    {
      order := [];
      var evicted := TakeKey(i);
      if evicted.None? {
        return None, order;
      }
      var (k, rows) := evicted.value;
      order := ForgetRows(rows);
      key := Some(k);
    }

    /** Takes some key out of index `i`, if it has any. */
    method TakeKey(i: nat) returns (evicted: Option<(Key, Bag)>)
      requires Valid() && i < |state|
      modifies state
      ensures Valid() && (evicted.None? <==> old(View()).singles[i].rows == map[])
      ensures evicted.None? ==> View() == old(View())
      ensures evicted.Some? ==>
                evicted.value.0 in old(View()).singles[i].rows &&
                evicted.value.1 == old(View()).singles[i].rows[evicted.value.0] &&
                View() == Runs.WithSingle(old(View()), i, Evict(old(View()).singles[i], evicted.value.0))
    {
      ghost var m := View();
      assert state[i].View() == m.singles[i];
      evicted := state[i].EvictRandom();
      if evicted.None? {
        assert View().singles == m.singles;
      } else {
        assert View().singles == m.singles[i := Evict(m.singles[i], evicted.value.0)];
      }
    }

    /** Evicts keys of one index until enough bytes are freed or no key is left, and no longer. How many bytes
        a round frees is up to the allocator; the number of keys goes down every round. The rounds are
        a run, and leave an exact state, exactly if no row was lost from a full index. */
    method EvictBytes(bytes: nat, i: nat, ghost truth: Bag)
      returns (keysEvicted: seq<Key>, freed: nat, ghost sizes: seq<nat>, ghost ops: seq<Runs.Op>)
      requires Valid() && i < |state| && Inv(View(), truth, width)
      modifies this`weakIndices, state
      ensures Valid() && View().singles == old(View()).singles[i := Runs.EvictAll(old(View()).singles[i], keysEvicted)]
      ensures Runs.Harmless(old(View()).singles[i], keysEvicted) ==>
                Runs.Reaches(old(View()), truth, width, ops, View(), truth) &&
                forall op :: op in ops ==> op.EvictRandom?
      ensures Inv(View(), truth, width) <==> Runs.Harmless(old(View()).singles[i], keysEvicted)
      ensures Evictions(old(View()), i, ops, width, View()) && KeysOf(ops) == keysEvicted
      ensures freed == Sum(sizes) && EvictedInTurn(old(View()).singles[i], keysEvicted, sizes, bytes)
      ensures freed >= bytes || View().singles[i].rows == map[]
    {
      ghost var m := View();
      AllStored(m.singles[i], truth, width);
      keysEvicted, freed, sizes, ops := EvictRounds(bytes, i, m);
      EvictionsWithout(m, i, ops, width, View());
      if Runs.Harmless(m.singles[i], keysEvicted) {
        EvictionsRun(m, truth, width, i, ops, View());
      }
      Runs.EvictAllExactIff(m.singles[i], truth, keysEvicted);
      assert View().singles[i] == Runs.EvictAll(m.singles[i], keysEvicted);
    }

    /** The rounds of an eviction by bytes. */
    method EvictRounds(bytes: nat, i: nat, ghost m: Memory)
      returns (keysEvicted: seq<Key>, freed: nat, ghost sizes: seq<nat>, ghost ops: seq<Runs.Op>)
      requires Valid() && i < |state| && m == View() && RowsStored(m.singles[i], width)
      modifies this`weakIndices, state
      ensures Valid() && Evictions(m, i, ops, width, View())
      ensures keysEvicted == KeysOf(ops) && freed == Sum(sizes)
      ensures EvictedInTurn(m.singles[i], KeysOf(ops), sizes, bytes)
      ensures freed >= bytes || View().singles[i].rows == map[]
    {
      keysEvicted, freed, sizes, ops := [], 0, [], [];
      ghost var now, left := m, |m.singles[i].rows|;
      while freed < bytes
        invariant Valid() && now == View() && Evictions(m, i, ops, width, now)
        invariant EvictedInTurn(m.singles[i], KeysOf(ops), sizes, bytes)
        invariant keysEvicted == KeysOf(ops) && freed == Sum(sizes) && left == |now.singles[i].rows|
        decreases left
      {
        var key, size;
        key, size, sizes, ops := EvictRound(i, m, sizes, ops, bytes);
        now := View();
        left := |now.singles[i].rows|;
        if key.None? {
          break;
        }
        freed := freed + size;
        keysEvicted := keysEvicted + [key.value];
      }
    }

    method EvictRound(i: nat, ghost m: Memory, ghost sizes: seq<nat>, ghost ops: seq<Runs.Op>, ghost bytes: nat)
      returns (key: Option<Key>, size: nat, ghost sizes': seq<nat>, ghost ops': seq<Runs.Op>)
      requires Valid() && i < |state| && i < |m.singles| && RowsStored(m.singles[i], width)
      requires Evictions(m, i, ops, width, View())
      requires EvictedInTurn(m.singles[i], KeysOf(ops), sizes, bytes) && Sum(sizes) < bytes
      modifies this`weakIndices, state
      ensures Valid() && Evictions(m, i, ops', width, View())
      ensures EvictedInTurn(m.singles[i], KeysOf(ops'), sizes', bytes)
      ensures key.None? ==> sizes' == sizes && ops' == ops && View().singles[i].rows == map[]
      ensures key.Some? ==>
                KeysOf(ops') == KeysOf(ops) + [key.value] && Sum(sizes') == Sum(sizes) + size &&
                |View().singles[i].rows| < |old(View()).singles[i].rows|
    {
      ghost var before := View();
      EvictionsWithout(m, i, ops, width, before);
      StillStored(m.singles[i], width, KeysOf(ops));
      ghost var order;
      key, order := EvictOne(i);
      size, sizes', ops' := 0, sizes, ops;
      if key.Some? {
        size := *;
        ghost var op := Runs.EvictRandom(i, key.value, order);
        OneMoreEviction(m, i, ops, width, before, op, View());
        OneWithout(before, i, op, width, View());
        OneMoreEvicted(m.singles[i], KeysOf(ops), key.value, sizes, size, bytes);
        sizes', ops' := sizes + [size], ops + [op];
      }
    }

    // -------------------------------------------------------------- indices and lookups

    /** Inserts the rows of a bag into a new index, one by one. */
    method InsertBag(rows: Bag, added: SingleState, ghost empty: Single, ghost before: seq<Row>)
      returns (ghost order: seq<Row>)
      requires InBounds(empty.index.columns, width) && forall r :: r in rows ==> |r| == width
      requires forall r :: r in before ==> |r| == width
      requires added.View() == Runs.InsertAll(empty, before, width)
      modifies added
      ensures multiset(order) == multiset(before) + rows && forall r :: r in order ==> |r| == width
      ensures added.View() == Runs.InsertAll(empty, order, width)
    {
      order := before;
      var rest := rows;
      while rest != multiset{}
        invariant forall r :: r in order ==> |r| == width
        invariant multiset(order) + rest == multiset(before) + rows && rest <= rows
        invariant added.View() == Runs.InsertAll(empty, order, width)
        decreases |rest|
      {
        var r :| r in rest;
        assert r in rows;
        InsertOne(r, added, empty, order);
        rest := rest - multiset{r};
        order := order + [r];
      }
    }

    method InsertOne(r: Row, added: SingleState, ghost empty: Single, ghost before: seq<Row>)
      requires InBounds(empty.index.columns, width) && |r| == width && forall q :: q in before ==> |q| == width
      requires added.View() == Runs.InsertAll(empty, before, width)
      modifies added
      ensures (forall q :: q in before + [r] ==> |q| == width) &&
              multiset(before + [r]) == multiset(before) + multiset{r}
      ensures added.View() == Runs.InsertAll(empty, before + [r], width)
    {
      InsertAllSnoc(empty, before, r, width);
      var _ := added.InsertRow(r);
    }

    /** The rows of one key of a full index, into the new one. */
    method BuildKey(source: Single, added: SingleState, ghost truth: Bag, ghost empty: Single, ghost before: seq<Row>,
                    ghost keys: set<Key>, key: Key) returns (ghost order: seq<Row>)
      requires Exact(source, truth) && RowsFit(truth, width) && InBounds(empty.index.columns, width)
      requires key in keys && keys <= source.rows.Keys && forall r :: r in before ==> |r| == width
      requires Runs.Lists(before, Except(source, keys))
      requires added.View() == Runs.InsertAll(empty, before, width)
      modifies added
      ensures forall r :: r in order ==> |r| == width
      ensures Runs.Lists(order, Except(source, keys - {key}))
      ensures added.View() == Runs.InsertAll(empty, order, width)
    {
      forall r | r in source.rows[key] ensures |r| == width {
        StoredFits(source, truth, width, key, r);
      }
      order := InsertBag(source.rows[key], added, empty, before);
      ListsOneMore(source, truth, keys, key, before, order);
    }

    /** Lists the rows of a full index and inserts each into the new one. */
    method BuildIndex(source: Single, added: SingleState, ghost truth: Bag) returns (ghost order: seq<Row>)
      requires Exact(source, truth) && RowsFit(truth, width) && InBounds(added.index.columns, width)
      modifies added
      ensures Runs.Lists(order, source) && forall r :: r in order ==> |r| == width
      ensures added.View() == Runs.InsertAll(old(added.View()), order, width)
    {
      ghost var empty := added.View();
      order := [];
      var keys := source.rows.Keys;
      NothingListed(source);
      while keys != {}
        invariant keys <= source.rows.Keys
        invariant forall r :: r in order ==> |r| == width
        invariant Runs.Lists(order, Except(source, keys))
        invariant added.View() == Runs.InsertAll(empty, order, width)
        decreases keys
      {
        var key :| key in keys;
        order := BuildKey(source, added, truth, empty, order, keys, key);
        keys := keys - {key};
      }
      ExceptNothing(source);
    }

    /** A new index object; a full one is built from the first index. */
    method NewIndex(index: Index, partial: bool, ghost truth: Bag) returns (s: SingleState, ghost order: seq<Row>)
      requires Valid() && Inv(View(), truth, width) && InBounds(index.columns, width)
      requires !partial && state != [] ==> !state[0].partial
      ensures fresh(s) && forall r :: r in order ==> |r| == width
      ensures partial || state == [] ==> order == []
      ensures !partial && state != [] ==> Runs.Lists(order, View().singles[0])
      ensures s.View() == Runs.InsertAll(Single(index, partial, map[]), order, width)
    {
      order := [];
      s := new SingleState(index, partial);
      if !partial && state != [] {
        assert state[0].View() == View().singles[0];
        order := BuildIndex(state[0].View(), s, truth);
      }
    }

    method PushIndex(s: SingleState, tags: Option<seq<Tag>>)
      requires Valid() && s !in state && InBounds(s.index.columns, width)
      modifies this
      ensures Valid() && s.View() == old(s.View())
      ensures View() == Memory(old(View()).singles + [s.View()], old(weakIndices),
                               Runs.AddTags(old(byTag), tags, |old(state)|))
    {
      ghost var m := View();
      byTag := Runs.AddTags(byTag, tags, |state|);
      state := state + [s];
      assert View().singles == m.singles + [s.View()];
    }

    method TagIndex(i: nat, tags: Option<seq<Tag>>)
      requires Valid() && i < |state|
      modifies this`byTag
      ensures Valid() && View() == old(View()).(byTag := Runs.AddTags(old(byTag), tags, i))
    {
      ghost var m := View();
      byTag := Runs.AddTags(byTag, tags, i);
      assert View().singles == m.singles;
    }

    /** Adds an index, or only tags if it exists. A new full index is built from the first one. */
    method AddKey(index: Index, tags: Option<seq<Tag>>, ghost truth: Bag) returns (ghost order: seq<Row>)
      requires Valid() && Inv(View(), truth, width)
      requires InBounds(index.columns, width)
      requires tags.None? && Runs.StateFor(View().singles, index.columns, index.indexType).None? ==>
                 if state == [] then truth == multiset{} else !state[0].partial
      modifies this
      ensures Valid() && Runs.AddKeyEnabled(old(View()), truth, index, tags, order, width)
      ensures View() == Runs.AddKey(old(View()), index, tags, order, width)
      ensures Runs.TagsLead(old(View()), View(), index, tags) && Runs.IndexAdded(old(View()), View(), index, tags)
      ensures StepsTo(old(View()), truth, width, Runs.AddIndex(index, tags, order), View())
    {
      ghost var m := View();
      order := TagOrBuild(index, tags, truth);
      Runs.AddKeyTags(m, index, tags, order, width);
    }

    method TagOrBuild(index: Index, tags: Option<seq<Tag>>, ghost truth: Bag) returns (ghost order: seq<Row>)
      requires Valid() && Inv(View(), truth, width)
      requires InBounds(index.columns, width)
      requires tags.None? && Runs.StateFor(View().singles, index.columns, index.indexType).None? ==>
                 if state == [] then truth == multiset{} else !state[0].partial
      modifies this
      ensures Valid() && Runs.AddKeyEnabled(old(View()), truth, index, tags, order, width)
      ensures View() == Runs.AddKey(old(View()), index, tags, order, width)
    {
      ghost var m := View();
      var existing := Runs.StateFor(View().singles, index.columns, index.indexType);
      if existing.Some? {
        order := [];
        TagIndex(existing.value, tags);
      } else {
        var s;
        s, order := NewIndex(index, tags.Some?, truth);
        AddKeyNew(m, index, tags, order, width);
        PushIndex(s, tags);
      }
    }

    /** A lookup that does not miss returns exactly the existing rows with the key. */
    method Lookup(columns: seq<nat>, key: Key, ghost truth: Bag) returns (r: MemoryLookup.LookupResult)
      requires Valid() && Inv(View(), truth, width)
      requires |columns| == |key| && MemoryLookup.Indexed(View(), columns)
      ensures MemoryLookup.LookedUp(View(), columns, key, r)
      ensures MemoryLookup.AllRightlyAsked(Indices(View()), columns) && r.Found? ==>
                ExactlyMatching(r.rows, truth, columns, key)
      ensures IndicesDistinct(Indices(View())) ==>
                MemoryLookup.AllRightlyAsked(Indices(View()), columns) &&
                (r.Found? <==> exists i :: 0 <= i < |View().singles| &&
                                           MemoryLookup.CanServe(View().singles[i], columns, key))
    {
      r := MemoryLookup.Lookup(View(), columns, key, truth, width);
    }

    /** A weak lookup finds every materialised row with the key, and only rows with the key. */
    method LookupWeak(columns: seq<nat>, key: Key) returns (rows: Option<Bag>)
      requires Valid() && Weak.WeakCovers(View()) && columns in weakIndices
      ensures forall r :: HasKey(columns, r, key) ==>
                Weak.Materialised(View(), r) <= if rows.Some? then rows.value[r] else 0
      ensures rows.Some? <==> key in weakIndices[columns]
      ensures rows.Some? ==> forall r :: r in rows.value ==> HasKey(columns, r, key)
      ensures Weak.WeakEqual(View()) ==>
                forall r :: HasKey(columns, r, key) ==>
                  Weak.Materialised(View(), r) == if rows.Some? then rows.value[r] else 0
    {
      rows := if key in weakIndices[columns] then Some(weakIndices[columns][key]) else None;
      assert forall r :: HasKey(columns, r, key) ==>
               Weak.Copies(View().weak[columns], columns, r) == if rows.Some? then rows.value[r] else 0;
    }
  }

  lemma {:induction false} AddKeyNew(m: Memory, index: Index, tags: Option<seq<Tag>>, order: seq<Row>, width: nat)
    requires InBounds(index.columns, width) && (forall r :: r in order ==> |r| == width)
    requires Runs.StateFor(m.singles, index.columns, index.indexType).None?
    requires tags.Some? ==> order == []
    ensures var s := Runs.InsertAll(Single(index, tags.Some?, map[]), order, width);
            s.index == index &&
            Runs.AddKey(m, index, tags, order, width) ==
            Memory(m.singles + [s], m.weak, Runs.AddTags(m.byTag, tags, |m.singles|))
  {
    Runs.InsertAllIndex(Single(index, tags.Some?, map[]), order, width);
  }

  function Sum(sizes: seq<nat>): nat {
    if sizes == [] then 0 else Sum(sizes[..|sizes| - 1]) + sizes[|sizes| - 1]
  }

  /** Different keys of the index, each evicted while not enough bytes were freed. */
  ghost predicate EvictedInTurn(s: Single, keys: seq<Key>, sizes: seq<nat>, bytes: nat) {
    Distinct(keys) && (forall k :: k in keys ==> k in s.rows) && |sizes| == |keys| &&
    forall n :: 0 <= n < |sizes| ==> Sum(sizes[..n]) < bytes
  }

  lemma OneMoreEvicted(s: Single, keys: seq<Key>, key: Key, sizes: seq<nat>, size: nat, bytes: nat)
    requires EvictedInTurn(s, keys, sizes, bytes) && Sum(sizes) < bytes && key in Runs.EvictAll(s, keys).rows
    ensures EvictedInTurn(s, keys + [key], sizes + [size], bytes) && Sum(sizes + [size]) == Sum(sizes) + size
  {
    AnotherKey(s, keys, key);
    SumMore(sizes, size, bytes);
  }

  lemma SumMore(sizes: seq<nat>, size: nat, bytes: nat)
    requires Sum(sizes) < bytes && forall n :: 0 <= n < |sizes| ==> Sum(sizes[..n]) < bytes
    ensures Sum(sizes + [size]) == Sum(sizes) + size
    ensures forall n :: 0 <= n < |sizes| + 1 ==> Sum((sizes + [size])[..n]) < bytes
  {
    var more := sizes + [size];
    assert more[..|sizes|] == sizes;
    forall n | 0 <= n < |more| ensures Sum(more[..n]) < bytes {
      if n < |sizes| {
        assert more[..n] == sizes[..n];
      }
    }
  }

  lemma AnotherKey(s: Single, keys: seq<Key>, key: Key)
    requires Distinct(keys) && (forall k :: k in keys ==> k in s.rows) && key in Runs.EvictAll(s, keys).rows
    ensures Distinct(keys + [key]) && forall k :: k in keys + [key] ==> k in s.rows
  {
    Runs.EvictAllRows(s, keys);
  }

  lemma NothingListed(s: Single)
    ensures Runs.Lists([], s.(rows := s.rows - s.rows.Keys))
  {
    assert s.rows - s.rows.Keys == map[];
  }

  /** The rows of an index have the width of the table. */
  ghost predicate RowsStored(s: Single, width: nat) {
    forall key, r :: key in s.rows && r in s.rows[key] ==> |r| == width
  }

  lemma AllStored(s: Single, truth: Bag, width: nat)
    requires Exact(s, truth) && RowsFit(truth, width)
    ensures RowsStored(s, width)
  {
    forall key, r | key in s.rows && r in s.rows[key] ensures |r| == width {
      StoredFits(s, truth, width, key, r);
    }
  }

  lemma StillStored(s: Single, width: nat, keys: seq<Key>)
    requires RowsStored(s, width)
    ensures RowsStored(Runs.EvictAll(s, keys), width)
  {
    Runs.EvictAllRows(s, keys);
  }

  lemma KeyGone(rows: Keyed, key: Key)
    requires key in rows
    ensures |rows - {key}| < |rows|
  {
    assert (rows - {key}).Keys == rows.Keys - {key};
    assert |rows.Keys| == |(rows - {key}).Keys| + 1;
  }

  lemma StoredFits(s: Single, truth: Bag, width: nat, key: Key, r: Row)
    requires Exact(s, truth) && RowsFit(truth, width) && key in s.rows && r in s.rows[key]
    ensures |r| == width && HasKey(s.index.columns, r, key)
  {
    assert ExactlyMatching(s.rows[key], truth, s.index.columns, key);
    assert s.rows[key][r] > 0;
  }

  lemma {:induction false} InsertAllSnoc(s: Single, rows: seq<Row>, row: Row, width: nat)
    requires InBounds(s.index.columns, width) && (forall r :: r in rows ==> |r| == width) && |row| == width
    ensures forall r :: r in rows + [row] ==> |r| == width
    ensures Runs.InsertAll(s, rows, width).index == s.index
    ensures Runs.InsertAll(s, rows + [row], width) == InsertRow(Runs.InsertAll(s, rows, width), row)
    decreases rows
  {
    if rows == [] {
      assert rows + [row] == [row];
      assert [row][1..] == [];
    } else {
      assert (rows + [row])[1..] == rows[1..] + [row];
      InsertAllSnoc(InsertRow(s, rows[0]), rows[1..], row, width);
    }
  }

  /** With the rows under one more key, the listing covers one more key. */
  lemma ListsOneMore(s: Single, truth: Bag, keys: set<Key>, key: Key, before: seq<Row>, after: seq<Row>)
    requires Exact(s, truth) && key in keys && keys <= s.rows.Keys
    requires Runs.Lists(before, Except(s, keys))
    requires multiset(after) == multiset(before) + s.rows[key]
    ensures Runs.Lists(after, Except(s, keys - {key}))
  {
    Weak.ExactIsKeyedOk(s, truth);
    var done := Except(s, keys - {key});
    forall r: Row
      ensures multiset(after)[r] ==
              if InBounds(s.index.columns, |r|) && KeyOf(s.index.columns, r) in done.rows
              then done.rows[KeyOf(s.index.columns, r)][r] else 0
    {
      assert s.rows[key][r] > 0 ==> r in s.rows[key];
    }
  }

  lemma TwiceListed(order: seq<Row>, i: nat, j: nat)
    requires i < j < |order| && order[i] == order[j]
    ensures multiset(order)[order[i]] >= 2
  {
    assert order == order[..j] + [order[j]] + order[j + 1..];
    assert order[i] in order[..j];
  }

  /** A listing of a set repeats nothing. */
  lemma {:induction false} DistinctFromSet(order: seq<Row>, rows: set<Row>)
    requires multiset(order) == multiset(rows)
    ensures Distinct(order) && forall r :: r in order <==> r in rows
  {
    forall r ensures r in order <==> r in rows {
      assert r in order <==> r in multiset(order);
    }
    forall i, j | 0 <= i < j < |order| ensures order[i] != order[j] {
      if order[i] == order[j] {
        TwiceListed(order, i, j);
      }
    }
  }
}

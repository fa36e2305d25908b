/** What a tagged batch does to each index, and which of its records it keeps. */
module MemoryReplays {
  import opened Options
  import opened StateTypes
  import opened MemoryModel
  import opened MemoryRuns

  // ---------------------------------------------------------------- one index

  /** A record on one index: rows are taken from every index, and put into the tagged one only. */
  function OnIndex(s: Single, rec: Record, tagged: bool): Single
    requires InBounds(s.index.columns, |rec.row|)
  {
    match rec
    case Positive(row) => if tagged then InsertRow(s, row) else s
    case Negative(row) => RemoveRow(s, row)
  }

  function AllOnIndex(s: Single, records: seq<Record>, tagged: bool, width: nat): (r: Single)
    requires InBounds(s.index.columns, width) && RecordsFit(records, width)
    ensures r.index == s.index && r.partial == s.partial
  {
    if records == [] then s
    else
      var n := |records| - 1;
      OnIndex(AllOnIndex(s, records[..n], tagged, width), records[n], tagged)
  }

  function ShownOne(truth: Bag, rec: Record, tagged: bool): Bag {
    if rec.Positive? && !tagged then truth else ApplyTruth(truth, rec)
  }

  /** The table after the records that an index is shown. */
  function ShownTruth(truth: Bag, records: seq<Record>, tagged: bool): Bag {
    if records == [] then truth
    else
      var n := |records| - 1;
      ShownOne(ShownTruth(truth, records[..n], tagged), records[n], tagged)
  }

  ghost predicate ShownPossible(truth: Bag, records: seq<Record>, tagged: bool) {
    forall n :: 0 <= n < |records| && records[n].Negative? ==>
      records[n].row in ShownTruth(truth, records[..n], tagged)
  }

  lemma FrontPossible(truth: Bag, records: seq<Record>, tagged: bool)
    requires records != [] && ShownPossible(truth, records, tagged)
    ensures ShownPossible(truth, records[..|records| - 1], tagged)
  {
    var front := records[..|records| - 1];
    forall n | 0 <= n < |front| && front[n].Negative? ensures front[n].row in ShownTruth(truth, front[..n], tagged) {
      assert front[..n] == records[..n];
    }
  }

  lemma OneOnIndexExact(s: Single, truth: Bag, rec: Record, tagged: bool)
    requires InBounds(s.index.columns, |rec.row|) && Exact(s, truth) && (rec.Negative? ==> rec.row in truth)
    ensures Exact(OnIndex(s, rec, tagged), ShownOne(truth, rec, tagged))
  {
    match rec
    case Positive(row) => InsertExact(s, truth, row);
    case Negative(row) => RemoveExact(s, truth, row);
  }

  /** An exact index stays exact: the tagged one for all records, the others for those that take rows away. */
  lemma {:induction false} AllOnIndexExact(s: Single, truth: Bag, records: seq<Record>, tagged: bool, width: nat)
    requires InBounds(s.index.columns, width) && RecordsFit(records, width)
    requires Exact(s, truth) && ShownPossible(truth, records, tagged)
    ensures Exact(AllOnIndex(s, records, tagged, width), ShownTruth(truth, records, tagged))
  {
    if records != [] {
      var n := |records| - 1;
      var front := records[..n];
      FrontPossible(truth, records, tagged);
      AllOnIndexExact(s, truth, front, tagged, width);
      OneOnIndexExact(AllOnIndex(s, front, tagged, width), ShownTruth(truth, front, tagged), records[n], tagged);
    }
  }

  // ---------------------------------------------------------------- the whole state

  predicate IsTagged(m: Memory, tag: Tag, i: nat) {
    tag in m.byTag && i == m.byTag[tag]
  }

  /** Every index has seen the records, and indices, tags and weak keys are as before. */
  ghost predicate AllSeen(m: Memory, m': Memory, records: seq<Record>, tag: Tag, width: nat)
    requires WellFormed(m, width) && RecordsFit(records, width)
  {
    WellFormed(m', width) && m'.byTag == m.byTag && |m'.singles| == |m.singles| && m'.weak.Keys == m.weak.Keys &&
    forall i :: 0 <= i < |m.singles| ==>
      m'.singles[i] == AllOnIndex(m.singles[i], records, IsTagged(m, tag, i), width)
  }

  lemma OneSeen(m: Memory, rec: Record, tag: Tag)
    requires WellFormed(m, |rec.row|)
    ensures var m' := Apply(m, rec, Some(tag)).0;
            WellFormed(m', |rec.row|) && m'.byTag == m.byTag && |m'.singles| == |m.singles| &&
            m'.weak.Keys == m.weak.Keys &&
            forall i :: 0 <= i < |m.singles| ==> m'.singles[i] == OnIndex(m.singles[i], rec, IsTagged(m, tag, i))
  {
    ApplyWellFormed(m, rec, Some(tag));
  }

  lemma SeenMore(m: Memory, mid: Memory, records: seq<Record>, rec: Record, tag: Tag, width: nat)
    requires WellFormed(m, width) && RecordsFit(records, width) && |rec.row| == width
    requires AllSeen(m, mid, records, tag, width)
    ensures RecordsFit(records + [rec], width)
    ensures AllSeen(m, Apply(mid, rec, Some(tag)).0, records + [rec], tag, width)
  {
    OneSeen(mid, rec, tag);
    assert (records + [rec])[..|records|] == records;
  }

  /** On partial state, every index sees a tagged batch: the tagged one all of it, the others the rows that it
      takes away. With an unknown tag there is no tagged one. */
  lemma {:induction false} TaggedBatch(m: Memory, records: seq<Record>, tag: Tag, width: nat)
    requires WellFormed(m, width) && RecordsFit(records, width) && IsPartial(m)
    ensures AllSeen(m, Process(m, records, Some(tag), width).0, records, tag, width)
  {
    if records != [] {
      var n := |records| - 1;
      var front := records[..n];
      assert records == front + [records[n]];
      TaggedBatch(m, front, tag, width);
      ProcessSnoc(m, front, records[n], Some(tag), width);
      SeenMore(m, Process(m, front, Some(tag), width).0, front, records[n], tag, width);
    }
  }

  // ---------------------------------------------------------------- what is kept

  /** An insertion among the first `n` records has this key. */
  predicate Brought(columns: seq<nat>, records: seq<Record>, n: nat, key: Key)
    requires n <= |records|
  {
    exists j :: 0 <= j < n && records[j].Positive? && HasKey(columns, records[j].row, key)
  }

  /** Keys never leave an index, and only come to a full one that is tagged. */
  lemma {:induction false} KeysAfter(s: Single, records: seq<Record>, tagged: bool, width: nat, key: Key)
    requires InBounds(s.index.columns, width) && RecordsFit(records, width)
    ensures key in AllOnIndex(s, records, tagged, width).rows <==>
            key in s.rows || (tagged && !s.partial && Brought(s.index.columns, records, |records|, key))
  {
    if records != [] {
      var n := |records| - 1;
      var front := records[..n];
      KeysAfter(s, front, tagged, width, key);
      BroughtSnoc(s.index.columns, records, key);
    }
  }

  lemma BroughtSnoc(columns: seq<nat>, records: seq<Record>, key: Key)
    requires records != []
    ensures var n := |records| - 1;
            Brought(columns, records, |records|, key) <==>
            Brought(columns, records[..n], n, key) || (records[n].Positive? && HasKey(columns, records[n].row, key))
  {
    var n := |records| - 1;
    if j :| 0 <= j < n && records[j].Positive? && HasKey(columns, records[j].row, key) {
      assert records[..n][j] == records[j];
    }
    if j :| 0 <= j < n && records[..n][j].Positive? && HasKey(columns, records[..n][j].row, key) {
      assert records[..n][j] == records[j];
    }
  }

  /** The `n`-th record of a tagged batch stays in it. An insertion stays if its key is filled in the tagged
      index, or the tag is unknown. A removal stays if some index has its key, from before or, in a full
      tagged index, through an earlier insertion. */
  ghost predicate Stays(m: Memory, records: seq<Record>, tag: Tag, width: nat, n: nat)
    requires WellFormed(m, width) && RecordsFit(records, width) && n < |records|
  {
    match records[n]
    case Positive(row) =>
      tag in m.byTag ==> Filled(m.singles[m.byTag[tag]], KeyOf(m.singles[m.byTag[tag]].index.columns, row))
    case Negative(row) =>
      exists i :: 0 <= i < |m.singles| && HasKeyNow(m, records, tag, width, n, i)
  }

  /** Index `i` has the key of the `n`-th record when it is its turn. */
  ghost predicate HasKeyNow(m: Memory, records: seq<Record>, tag: Tag, width: nat, n: nat, i: nat)
    requires WellFormed(m, width) && RecordsFit(records, width) && n < |records| && i < |m.singles|
  {
    var s := m.singles[i];
    var key := KeyOf(s.index.columns, records[n].row);
    key in s.rows || (IsTagged(m, tag, i) && !s.partial && Brought(s.index.columns, records, n, key))
  }

  /** Those of the first `n` records that stay, in their order. */
  ghost function Staying(m: Memory, records: seq<Record>, tag: Tag, width: nat, n: nat): seq<Record>
    requires WellFormed(m, width) && RecordsFit(records, width) && n <= |records|
  {
    if n == 0 then []
    else Staying(m, records, tag, width, n - 1) + if Stays(m, records, tag, width, n - 1) then [records[n - 1]] else []
  }

  /** Whether a record stays is decided when it is its turn. */
  lemma StaysIffApplied(m: Memory, mid: Memory, records: seq<Record>, tag: Tag, width: nat, n: nat)
    requires WellFormed(m, width) && RecordsFit(records, width) && n < |records|
    requires RecordsFit(records[..n], width) && AllSeen(m, mid, records[..n], tag, width)
    ensures Apply(mid, records[n], Some(tag)).1 <==> Stays(m, records, tag, width, n)
  {
    forall i | 0 <= i < |m.singles|
      ensures KeyPresent(mid.singles[i], records[n].row) <==> HasKeyNow(m, records, tag, width, n, i)
    {
      var s := m.singles[i];
      var key := KeyOf(s.index.columns, records[n].row);
      KeysAfter(s, records[..n], IsTagged(m, tag, i), width, key);
      assert Brought(s.index.columns, records[..n], n, key) <==> Brought(s.index.columns, records, n, key) by {
        assert forall j :: 0 <= j < n ==> records[..n][j] == records[j];
      }
    }
  }

  lemma {:induction false} StayingUpTo(m: Memory, records: seq<Record>, tag: Tag, width: nat, n: nat)
    requires WellFormed(m, width) && RecordsFit(records, width) && IsPartial(m) && n <= |records|
    ensures RecordsFit(records[..n], width)
    ensures Process(m, records[..n], Some(tag), width).1 == Staying(m, records, tag, width, n)
  {
    if n > 0 {
      StayingUpTo(m, records, tag, width, n - 1);
      var front := records[..n - 1];
      assert records[..n] == front + [records[n - 1]];
      TaggedBatch(m, front, tag, width);
      ProcessSnoc(m, front, records[n - 1], Some(tag), width);
      StaysIffApplied(m, Process(m, front, Some(tag), width).0, records, tag, width, n - 1);
    }
  }

  /** On partial state a tagged batch keeps exactly these records. */
  lemma TaggedKeeps(m: Memory, records: seq<Record>, tag: Tag, width: nat)
    requires WellFormed(m, width) && RecordsFit(records, width) && IsPartial(m)
    ensures Process(m, records, Some(tag), width).1 == Staying(m, records, tag, width, |records|)
  {
    StayingUpTo(m, records, tag, width, |records|);
    assert records[..|records|] == records;
  }

  /** With an unknown tag a batch of insertions is kept whole and changes no index. */
  lemma {:induction false} UnknownTagKeepsAll(m: Memory, rows: seq<Row>, tag: Tag, width: nat)
    requires WellFormed(m, width) && RecordsFit(Positives(rows), width) && IsPartial(m) && tag !in m.byTag
    ensures Process(m, Positives(rows), Some(tag), width) == (m, Positives(rows))
    decreases rows
  {
    if rows != [] {
      assert Positives(rows)[0] == Positive(rows[0]) && Positives(rows)[1..] == Positives(rows[1..]);
      UnknownTagKeepsAll(m, rows[1..], tag, width);
      assert Positives(rows) == [Positive(rows[0])] + Positives(rows[1..]);
    }
  }

  lemma ReplayStays(m: Memory, truth: Bag, width: nat, tag: Tag, keys: seq<Key>, rows: seq<Row>)
    requires Inv(m, truth, width) && tag in m.byTag && m.singles[m.byTag[tag]].partial
    requires IsReplayOf(rows, truth, m.singles[m.byTag[tag]].index.columns, keys)
    requires WellFormed(Fill(m, tag, keys), width) && RecordsFit(Positives(rows), width)
    ensures forall n :: 0 <= n < |rows| ==> Stays(Fill(m, tag, keys), Positives(rows), tag, width, n)
  {
    FillAllRows(m.singles[m.byTag[tag]], keys);
    forall n | 0 <= n < |rows| ensures Stays(Fill(m, tag, keys), Positives(rows), tag, width, n) {
      assert multiset(rows)[rows[n]] > 0;
    }
  }

  /** A replay of keys that were just filled is kept whole. */
  lemma {:induction false} ReplayIsKept(m: Memory, truth: Bag, width: nat, tag: Tag, keys: seq<Key>, rows: seq<Row>)
    requires Inv(m, truth, width) && tag in m.byTag && m.singles[m.byTag[tag]].partial
    requires IsReplayOf(rows, truth, m.singles[m.byTag[tag]].index.columns, keys)
    ensures WellFormed(Fill(m, tag, keys), width) && RecordsFit(Positives(rows), width)
    ensures Process(Fill(m, tag, keys), Positives(rows), Some(tag), width).1 == Positives(rows)
  {
    ReplayGains(m, truth, width, tag, keys, rows);
    var filled := Fill(m, tag, keys);
    FillAllRows(m.singles[m.byTag[tag]], keys);
    assert filled.singles[m.byTag[tag]].partial;
    ReplayStays(m, truth, width, tag, keys, rows);
    TaggedKeeps(filled, Positives(rows), tag, width);
    AllStay(filled, Positives(rows), tag, width, |rows|);
    assert Positives(rows)[..|rows|] == Positives(rows);
  }

  lemma {:induction false} AllStay(m: Memory, records: seq<Record>, tag: Tag, width: nat, n: nat)
    requires WellFormed(m, width) && RecordsFit(records, width) && n <= |records|
    requires forall i :: 0 <= i < |records| ==> Stays(m, records, tag, width, i)
    ensures Staying(m, records, tag, width, n) == records[..n]
  {
    if n > 0 {
      AllStay(m, records, tag, width, n - 1);
    }
  }

  /** On full state every batch is kept whole, whatever its tag. */
  lemma {:induction false} FullKeepsAll(m: Memory, records: seq<Record>, tag: Option<Tag>, width: nat)
    requires WellFormed(m, width) && RecordsFit(records, width) && !IsPartial(m)
    ensures Process(m, records, tag, width).1 == records
    decreases records
  {
    if records != [] {
      assert records == [records[0]] + records[1..];
      ProcessFirst(m, records[0], records[1..], tag, width);
      FullKeepsAll(Apply(m, records[0], None).0, records[1..], tag, width);
    }
  }

  /** ... and the tag makes no difference. */
  lemma {:induction false} FullIgnoresTag(m: Memory, records: seq<Record>, tag: Option<Tag>, width: nat)
    requires WellFormed(m, width) && RecordsFit(records, width) && !IsPartial(m)
    ensures Process(m, records, tag, width) == Process(m, records, None, width)
    decreases records
  {
    if records != [] {
      assert records == [records[0]] + records[1..];
      ProcessFirst(m, records[0], records[1..], tag, width);
      ProcessFirst(m, records[0], records[1..], None, width);
      FullIgnoresTag(Apply(m, records[0], None).0, records[1..], tag, width);
    }
  }
}

/** Exactly which columns a lookup may name. A lookup on columns with a repetition can ask another index for
    a wrong key; the states here in which it does are reached by runs. */
module MemoryColumns {
  import opened Options
  import opened StateTypes
  import opened MemoryModel
  import opened LookupKeys
  import opened MemoryLookup
  import opened Runs = MemoryRuns

  // ---------------------------------------------------------------- the key that is asked

  /** The key with which a lookup asks an index on other columns, ties sorted in the order they came. */
  function AskedKey(columns: seq<nat>, key: Key, other: seq<nat>): Key
    requires |columns| == |key|
  {
    if |other| == |columns| && forall c :: c in columns ==> c in other then Shuffled(columns, key, other, |columns|)
    else Values(SortByPosition(Parts(columns, key, other)))
  }

  /** The row that holds the number of each column is not under the key that is wrongly asked. */
  lemma AskedWrongly(columns: seq<nat>, other: seq<nat>, width: nat)
    requires InBounds(columns, width) && InBounds(other, width) && !RightlyAsked(columns, other)
    ensures AskedKey(columns, KeyOf(columns, Numbered(width)), other) != KeyOf(other, Numbered(width))
  {
    var key := KeyOf(columns, Numbered(width));
    if |other| == |columns| {
      RepeatedLeavesNull(columns, other, width);
    } else {
      var order := SortByPosition(Parts(columns, key, other));
      if Values(order) == KeyOf(other, Numbered(width)) {
        PartMisses(columns, other, width, order);
      }
    }
  }

  /** An index that is wrongly asked, and has that key filled with nothing, answers with nothing. */
  lemma AnswersNothing(s: Single, columns: seq<nat>, key: Key, named: IndexType)
    requires |columns| == |key| && !RightlyAsked(columns, s.index.columns)
    requires AskedKey(columns, key, s.index.columns) in s.rows
    requires s.rows[AskedKey(columns, key, s.index.columns)] == multiset{}
    ensures Answers(s, columns, key, named, Found(multiset{}))
  {
    var other := s.index.columns;
    if |other| < |columns| {
      assert AnswersPart(s, columns, key, SortByPosition(Parts(columns, key, other)), Found(multiset{}));
    }
  }

  /** An index of holes misses. */
  lemma HolesMiss(s: Single, columns: seq<nat>, key: Key, named: IndexType)
    requires |columns| == |key| && s.partial && s.rows == map[]
    ensures Answers(s, columns, key, named, Missing)
  {
    var other := s.index.columns;
    if other != columns && |other| < |columns| {
      assert AnswersPart(s, columns, key, SortByPosition(Parts(columns, key, other)), Missing);
    }
  }

  // ---------------------------------------------------------------- the state

  /** Each position as the tag of itself. */
  function Tags(n: nat): (byTag: map<Tag, nat>)
    ensures forall t: nat :: t in byTag <==> t < n
    ensures forall t: nat :: t in byTag ==> byTag[t] == t
  {
    if n == 0 then map[] else Tags(n - 1)[n - 1 := n - 1]
  }

  /** Partial indices without a filled key, each with its position as its tag. */
  function Holes(indices: seq<Index>): Memory {
    Memory(seq(|indices|, i requires 0 <= i < |indices| => Single(indices[i], true, map[])), map[],
           Tags(|indices|))
  }

  /** The same, with one key of index `b` filled: there are no rows under it. */
  function OneFilled(indices: seq<Index>, b: nat, key: Key): Memory
    requires b < |indices|
  {
    var m := Holes(indices);
    m.(singles := m.singles[b := Single(indices[b], true, map[key := multiset{}])])
  }

  /** The search meets holes only, until the index that is wrongly asked. */
  lemma SearchEndsWrongly(singles: seq<Single>, b: nat, columns: seq<nat>, key: Key, named: IndexType)
    requires b < |singles| && |columns| == |key| && !RightlyAsked(columns, singles[b].index.columns)
    requires forall i :: 0 <= i < b ==> singles[i].partial && singles[i].rows == map[]
    requires singles[b].rows == map[AskedKey(columns, key, singles[b].index.columns) := multiset{}]
    ensures Searched(singles, columns, key, named, Found(multiset{}))
  {
    forall i | 0 <= i < b ensures Answers(singles[i], columns, key, named, Missing) {
      HolesMiss(singles[i], columns, key, named);
    }
    AnswersNothing(singles[b], columns, key, named);
    assert AnswersAt(singles, columns, key, named, b, Found(multiset{}));
  }

  lemma OneFilledIndices(indices: seq<Index>, b: nat, key: Key)
    requires b < |indices|
    ensures Indices(OneFilled(indices, b, key)) == indices
    ensures forall i :: 0 <= i < |indices| ==> OneFilled(indices, b, key).singles[i].index == indices[i]
    ensures forall i :: 0 <= i < |indices| && i != b ==>
              OneFilled(indices, b, key).singles[i] == Single(indices[i], true, map[])
  {
  }

  /** The wrong answer of a lookup in that state. */
  lemma WrongLookup(indices: seq<Index>, b: nat, columns: seq<nat>, key: Key)
    requires b < |indices| && |columns| == |key| && !RightlyAsked(columns, indices[b].columns)
    requires exists i :: 0 <= i < |indices| && indices[i].columns == columns
    ensures var m := OneFilled(indices, b, AskedKey(columns, key, indices[b].columns));
            Indexed(m, columns) && LookedUp(m, columns, key, Found(multiset{}))
  {
    var k := AskedKey(columns, key, indices[b].columns);
    var m := OneFilled(indices, b, k);
    OneFilledIndices(indices, b, k);
    var i :| 0 <= i < |indices| && indices[i].columns == columns;
    assert m.singles[i].index.columns == columns;
    var named := NamedIndex(m, columns);
    assert named != b;
    SearchEndsWrongly(m.singles, b, columns, key, m.singles[named].index.indexType);
  }

  // ---------------------------------------------------------------- reaching it

  ghost predicate Reachable(m: Memory, truth: Bag, width: nat) {
    exists ops :: Reaches(EMPTY, multiset{}, width, ops, m, truth)
  }

  lemma ReachableNext(m: Memory, truth: Bag, width: nat, op: Op)
    requires Reachable(m, truth, width) && Enabled(m, truth, width, op)
    ensures Inv(m, truth, width) && Reachable(Step(m, truth, width, op), StepTruth(truth, op), width)
  {
    var ops :| Reaches(EMPTY, multiset{}, width, ops, m, truth);
    RunFromEmpty(width, ops, m, truth);
    ReachesSnoc(EMPTY, multiset{}, width, ops, m, truth, op);
  }

  ghost predicate AllInBounds(indices: seq<Index>, width: nat) {
    forall i :: 0 <= i < |indices| ==> InBounds(indices[i].columns, width)
  }

  lemma OneMoreIndex(indices: seq<Index>, width: nat)
    requires indices != [] && Distinct(indices) && AllInBounds(indices, width)
    ensures var n := |indices| - 1;
            AddKey(Holes(indices[..n]), indices[n], Some([n]), [], width) == Holes(indices)
  {
    var n := |indices| - 1;
    var m := Holes(indices[..n]);
    assert forall i :: 0 <= i < n ==> m.singles[i].index == indices[i] && indices[i] != indices[n];
    assert indices[n] == Index(indices[n].columns, indices[n].indexType);
    assert StateFor(m.singles, indices[n].columns, indices[n].indexType).None?;
    assert m.singles + [Single(indices[n], true, map[])] == Holes(indices).singles;
    assert AddTags(m.byTag, Some([n]), n) == Holes(indices).byTag;
  }

  /** Any list of different indices can be added as partial ones. */
  lemma {:induction false} HolesReachable(indices: seq<Index>, width: nat)
    requires Distinct(indices) && AllInBounds(indices, width)
    ensures Reachable(Holes(indices), multiset{}, width)
    decreases indices
  {
    if indices == [] {
      assert Holes(indices) == EMPTY;
      assert Reaches(EMPTY, multiset{}, width, [], EMPTY, multiset{});
    } else {
      var n := |indices| - 1;
      HolesReachable(indices[..n], width);
      ReachableNext(Holes(indices[..n]), multiset{}, width, AddIndex(indices[n], Some([n]), []));
      OneMoreIndex(indices, width);
    }
  }

  /** A row that hits only holes is dropped. */
  lemma WriteIntoHoles(indices: seq<Index>, row: Row, width: nat)
    requires AllInBounds(indices, width) && |row| == width
    ensures WellFormed(Holes(indices), width) && RecordsFit([Positive(row)], width)
    ensures Process(Holes(indices), [Positive(row)], None, width).0 == Holes(indices)
  {
    var m := Holes(indices);
    assert [Positive(row)][1..] == [];
    assert InsertSingles(m, row).singles == m.singles;
    assert Apply(m, Positive(row), None).0 == m;
    assert Process(m, [], None, width).0 == m;
  }

  lemma RowReachable(indices: seq<Index>, row: Row, width: nat)
    requires Distinct(indices) && AllInBounds(indices, width) && |row| == width
    ensures Reachable(Holes(indices), multiset{row}, width)
  {
    var op := Write([Positive(row)]);
    HolesReachable(indices, width);
    WriteIntoHoles(indices, row, width);
    assert [Positive(row)][1..] == [];
    assert BatchTruth(multiset{}, [Positive(row)]) == multiset{row};
    assert BatchPossible(multiset{}, [Positive(row)]);
    ReachableNext(Holes(indices), multiset{}, width, op);
  }

  lemma FilledByReplay(indices: seq<Index>, b: nat, key: Key, width: nat)
    requires AllInBounds(indices, width) && b < |indices|
    ensures b in Holes(indices).byTag && WellFormed(Fill(Holes(indices), b, [key]), width)
    ensures Process(Fill(Holes(indices), b, [key]), Positives([]), Some(b), width).0 == OneFilled(indices, b, key)
  {
    assert [key][1..] == [];
    var s := Holes(indices).singles[b];
    assert FillAll(s, [key]) == Single(indices[b], true, map[key := multiset{}]);
    assert Fill(Holes(indices), b, [key]) == OneFilled(indices, b, key);
  }

  /** A replay of a key that no row has fills it with nothing. */
  lemma OneFilledReachable(indices: seq<Index>, b: nat, key: Key, row: Row, width: nat)
    requires Distinct(indices) && AllInBounds(indices, width) && |row| == width
    requires b < |indices| && key != KeyOf(indices[b].columns, row)
    ensures Reachable(OneFilled(indices, b, key), multiset{row}, width)
  {
    RowReachable(indices, row, width);
    FilledByReplay(indices, b, key, width);
    ReachableNext(Holes(indices), multiset{row}, width, Replay(b, [key], []));
  }

  // ---------------------------------------------------------------- the exact condition

  /** In every state with these indices that a run reaches, a lookup that does not miss is exact. */
  ghost predicate AlwaysRight(indices: seq<Index>, columns: seq<nat>, width: nat) {
    forall m, truth, key, r ::
      (Indices(m) == indices && Reachable(m, truth, width) && |key| == |columns| && Indexed(m, columns) &&
       LookedUp(m, columns, key, r) && r.Found?) ==> ExactlyMatching(r.rows, truth, columns, key)
  }

  lemma RightlyAskedIsRight(indices: seq<Index>, columns: seq<nat>, width: nat)
    requires AllRightlyAsked(indices, columns)
    ensures AlwaysRight(indices, columns, width)
  {
    forall m, truth, key, r | Indices(m) == indices && Reachable(m, truth, width) && |key| == |columns| &&
                              Indexed(m, columns) && LookedUp(m, columns, key, r) && r.Found?
      ensures ExactlyMatching(r.rows, truth, columns, key)
    {
      var ops :| Reaches(EMPTY, multiset{}, width, ops, m, truth);
      RunFromEmpty(width, ops, m, truth);
      LookupRight(m, truth, width, columns, key, r);
    }
  }

  lemma WronglyAskedIsWrong(indices: seq<Index>, b: nat, columns: seq<nat>, width: nat)
    requires Distinct(indices) && AllInBounds(indices, width)
    requires exists i :: 0 <= i < |indices| && indices[i].columns == columns
    requires b < |indices| && !RightlyAsked(columns, indices[b].columns)
    ensures !AlwaysRight(indices, columns, width)
  {
    var row := Numbered(width);
    var key := KeyOf(columns, row);
    OneFilledIndices(indices, b, AskedKey(columns, key, indices[b].columns));
    AskedWrongly(columns, indices[b].columns, width);
    OneFilledReachable(indices, b, AskedKey(columns, key, indices[b].columns), row, width);
    WrongLookup(indices, b, columns, key);
    assert HasKey(columns, row, key);
    assert !ExactlyMatching(multiset{}, multiset{row}, columns, key);
  }

  /** The exact condition on the columns under which lookups are right after every run that leads to
      these indices. */
  lemma LookupRightIff(indices: seq<Index>, columns: seq<nat>, width: nat)
    requires Distinct(indices) && AllInBounds(indices, width)
    requires exists i :: 0 <= i < |indices| && indices[i].columns == columns
    ensures AlwaysRight(indices, columns, width) <==> AllRightlyAsked(indices, columns)
  {
    if AllRightlyAsked(indices, columns) {
      RightlyAskedIsRight(indices, columns, width);
    } else {
      var b :| 0 <= b < |indices| && !RightlyAsked(columns, indices[b].columns);
      WronglyAskedIsWrong(indices, b, columns, width);
    }
  }

  /** A repeated column: the hash indices on columns 0, 0 and on 0, 1. */
  lemma RepeatedColumnIsWrong()
    ensures !AlwaysRight([Index([0, 0], HashMap), Index([0, 1], HashMap)], [0, 0], 2)
  {
    var indices := [Index([0, 0], HashMap), Index([0, 1], HashMap)];
    assert indices[0].columns == [0, 0] && indices[1].columns == [0, 1];
    var columns := [0, 0];
    assert columns[0] == columns[1] && !Distinct(columns);
    LookupRightIff(indices, [0, 0], 2);
  }
}

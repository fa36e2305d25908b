/** `MemoryState::lookup`: a miss in the named index may be answered by another one, of the other
    type, with its columns in another order, or with fewer columns and a filter. */
module MemoryLookup {
  import opened Options
  import opened StateTypes
  import opened MemoryModel
  import opened LookupKeys
  import Runs = MemoryRuns

  datatype LookupResult = Found(rows: Bag) | Missing

  /** `SingleState::lookup`. */
  function LookupSingle(s: Single, key: Key): LookupResult {
    if key in s.rows then Found(s.rows[key])
    else if s.partial then Missing
    else Found(multiset{})
  }

  lemma LookupSingleExact(s: Single, truth: Bag, key: Key)
    requires Exact(s, truth)
    ensures LookupSingle(s, key).Found? <==> Filled(s, key)
    ensures LookupSingle(s, key).Found? ==>
              ExactlyMatching(LookupSingle(s, key).rows, truth, s.index.columns, key)
  {
    if key !in s.rows && !s.partial {
      NoRowsWithKey(s, truth, key);
    }
  }

  // ---------------------------------------------------------------- filtering

  /** Of the rows, those with the whole key. */
  ghost predicate IsRetained(kept: Bag, rows: Bag, columns: seq<nat>, key: Key) {
    forall r: Row :: kept[r] == if HasKey(columns, r, key) then rows[r] else 0
  }

  /** `RecordResult::retain` with the test of the whole key. */
  method Retain(rows: Bag, columns: seq<nat>, key: Key) returns (kept: Bag)
    ensures IsRetained(kept, rows, columns, key)
  {
    kept := multiset{};
    var rest := rows;
    while rest != multiset{}
      invariant rest <= rows
      invariant forall r: Row :: kept[r] == if HasKey(columns, r, key) then rows[r] - rest[r] else 0
      decreases |rest|
    {
      var r :| r in rest;
      rest := rest - multiset{r};
      if HasKey(columns, r, key) {
        kept := kept + multiset{r};
      }
    }
  }

  /** Equally many columns: the rows under the projected key are the rows under the key. */
  lemma SameRows(bag: Bag, truth: Bag, columns: seq<nat>, key: Key, other: seq<nat>, k: Key)
    requires |columns| == |key| && Distinct(columns) && Projects(columns, key, other, k)
    requires forall c :: c in columns ==> c in other
    requires ExactlyMatching(bag, truth, other, k)
    ensures ExactlyMatching(bag, truth, columns, key)
  {
    ProjectsBack(columns, key, other, k);
    forall r: Row ensures HasKey(other, r, k) <==> HasKey(columns, r, key) {
      if HasKey(columns, r, key) {
        ProjectedKey(columns, key, other, k, r);
      }
      if HasKey(other, r, k) {
        ProjectedKey(other, k, columns, key, r);
      }
    }
  }

  /** Fewer columns: filtering the rows under the projected key gives the rows under the key. */
  lemma FilteredRows(bag: Bag, kept: Bag, truth: Bag, columns: seq<nat>, key: Key, other: seq<nat>, k: Key)
    requires |columns| == |key| && Projects(columns, key, other, k)
    requires ExactlyMatching(bag, truth, other, k)
    requires IsRetained(kept, bag, columns, key)
    ensures ExactlyMatching(kept, truth, columns, key)
  {
    forall r: Row | HasKey(columns, r, key) ensures HasKey(other, r, k) {
      ProjectedKey(columns, key, other, k, r);
    }
  }

  // ---------------------------------------------------------------- one round of the search

  /** The answer of an index with the same columns in another order. */
  ghost predicate AnswersShuffled(s: Single, columns: seq<nat>, key: Key, r: LookupResult)
    requires |columns| == |key| == |s.index.columns|
  {
    var other := s.index.columns;
    r == if forall c :: c in columns ==> c in other then LookupSingle(s, Shuffled(columns, key, other, |columns|))
         else Missing
  }

  /** The answer of an index with fewer columns, for one order of the values. */
  ghost predicate AnswersPart(s: Single, columns: seq<nat>, key: Key, order: seq<Positioned>, r: LookupResult)
    requires |columns| == |key|
  {
    IsOrder(order, Parts(columns, key, s.index.columns)) &&
    if |Shared(columns, s.index.columns)| != |s.index.columns| then r == Missing
    else
      match LookupSingle(s, Values(order))
      case Missing => r == Missing
      case Found(rows) => r.Found? && IsRetained(r.rows, rows, columns, key)
  }

  /** What one index answers after a miss in the index on `columns` of type `named`. */
  ghost predicate Answers(s: Single, columns: seq<nat>, key: Key, named: IndexType, r: LookupResult)
    requires |columns| == |key|
  {
    var other := s.index.columns;
    if other == columns then r == if s.index.indexType != named then LookupSingle(s, key) else Missing
    else if |other| == |columns| then AnswersShuffled(s, columns, key, r)
    else if |other| < |columns| then exists order :: AnswersPart(s, columns, key, order, r)
    else r == Missing
  }

  /** One round of the search through the other indices. */
  method TryIndex(s: Single, columns: seq<nat>, key: Key, named: IndexType) returns (r: LookupResult)
    requires |columns| == |key|
    ensures Answers(s, columns, key, named, r)
  {
    var other := s.index.columns;
    if other == columns && s.index.indexType != named {
      return LookupSingle(s, key);
    }
    if other != columns && |other| == |columns| {
      var k := ShuffleKey(columns, key, other);
      if k.Some? {
        return LookupSingle(s, k.value);
      }
    }
    if |other| < |columns| {
      var k, order := PartOfKey(columns, key, other);
      r := Missing;
      if k.Some? {
        var found := LookupSingle(s, k.value);
        if found.Found? {
          var kept := Retain(found.rows, columns, key);
          r := Found(kept);
        }
      }
      assert AnswersPart(s, columns, key, order, r);
      return;
    }
    r := Missing;
  }

  /** An index that is rightly asked answers with exactly the existing rows. */
  lemma AnswersRight(s: Single, truth: Bag, columns: seq<nat>, key: Key, named: IndexType, r: LookupResult)
    requires Exact(s, truth) && |columns| == |key| && RightlyAsked(columns, s.index.columns)
    requires Answers(s, columns, key, named, r) && r.Found?
    ensures ExactlyMatching(r.rows, truth, columns, key)
  {
    var other := s.index.columns;
    if other == columns {
      LookupSingleExact(s, truth, key);
    } else if |other| == |columns| {
      var k := Shuffled(columns, key, other, |columns|);
      ShuffledProjects(columns, key, other);
      LookupSingleExact(s, truth, k);
      SameRows(r.rows, truth, columns, key, other, k);
    } else {
      var order :| AnswersPart(s, columns, key, order, r);
      PartProjects(columns, key, other, order);
      LookupSingleExact(s, truth, Values(order));
      FilteredRows(LookupSingle(s, Values(order)).rows, r.rows, truth, columns, key, other, Values(order));
    }
  }

  /** The index can answer: it is over some of the columns, and has that part of the key filled. */
  ghost predicate CanServe(s: Single, columns: seq<nat>, key: Key)
    requires |columns| == |key|
  {
    exists k :: Projects(columns, key, s.index.columns, k) && Filled(s, k)
  }

  lemma CanServeWith(s: Single, columns: seq<nat>, key: Key, k: Key)
    requires |columns| == |key| && Distinct(columns) && Projects(columns, key, s.index.columns, k)
    ensures CanServe(s, columns, key) <==> Filled(s, k)
  {
    if CanServe(s, columns, key) {
      var l :| Projects(columns, key, s.index.columns, l) && Filled(s, l);
      ProjectsUnique(columns, key, s.index.columns, k, l);
    }
  }

  /** An index can only answer when it is over some of the columns. */
  lemma ServesWithin(s: Single, columns: seq<nat>, key: Key)
    requires |columns| == |key| && Distinct(columns) && Distinct(s.index.columns)
    requires CanServe(s, columns, key)
    ensures forall c :: c in s.index.columns ==> c in columns
    ensures |Shared(columns, s.index.columns)| == |s.index.columns| <= |columns|
  {
    var other := s.index.columns;
    var k :| Projects(columns, key, other, k) && Filled(s, k);
    forall c | c in other ensures c in columns {
      var j :| 0 <= j < |other| && other[j] == c;
      assert Says(columns, key, other[j], k[j]);
    }
    AllShared(columns, other);
    if |other| > |columns| {
      SameColumns(other, columns);
    }
  }

  /** With distinct columns an index answers exactly if it can. */
  lemma AnswersIff(s: Single, columns: seq<nat>, key: Key, named: IndexType, r: LookupResult)
    requires |columns| == |key| && Distinct(columns) && Distinct(s.index.columns)
    requires Answers(s, columns, key, named, r)
    ensures r.Found? <==> s.index != Index(columns, named) && CanServe(s, columns, key)
  {
    var other := s.index.columns;
    if other == columns {
      ProjectsItself(columns, key);
      CanServeWith(s, columns, key, key);
    } else if |other| == |columns| {
      ShuffledIff(s, columns, key, r);
    } else if |other| < |columns| {
      var order :| AnswersPart(s, columns, key, order, r);
      PartIff(s, columns, key, order, r);
    } else if CanServe(s, columns, key) {
      ServesWithin(s, columns, key);
    }
  }

  lemma PartIff(s: Single, columns: seq<nat>, key: Key, order: seq<Positioned>, r: LookupResult)
    requires |columns| == |key| && Distinct(columns) && Distinct(s.index.columns)
    requires AnswersPart(s, columns, key, order, r)
    ensures r.Found? <==> CanServe(s, columns, key)
  {
    var other := s.index.columns;
    if |Shared(columns, other)| == |other| {
      DistinctIsRight(columns, other);
      PartProjects(columns, key, other, order);
      CanServeWith(s, columns, key, Values(order));
    } else if CanServe(s, columns, key) {
      ServesWithin(s, columns, key);
    }
  }

  lemma ShuffledIff(s: Single, columns: seq<nat>, key: Key, r: LookupResult)
    requires |columns| == |key| == |s.index.columns| && Distinct(columns) && Distinct(s.index.columns)
    requires AnswersShuffled(s, columns, key, r)
    ensures r.Found? <==> CanServe(s, columns, key)
  {
    var other := s.index.columns;
    if forall c :: c in columns ==> c in other {
      ShuffledProjects(columns, key, other);
      CanServeWith(s, columns, key, Shuffled(columns, key, other, |columns|));
    } else if CanServe(s, columns, key) {
      ServesWithin(s, columns, key);
      SameColumns(other, columns);
    }
  }

  // ---------------------------------------------------------------- the lookup

  /** The state has an index on these columns. */
  ghost predicate Indexed(m: Memory, columns: seq<nat>) {
    exists i :: 0 <= i < |m.singles| && m.singles[i].index.columns == columns
  }

  /** The index that a lookup names: the hash index on these columns, or else the B-tree index. */
  function NamedIndex(m: Memory, columns: seq<nat>): (i: nat)
    requires Indexed(m, columns)
    ensures i < |m.singles| && m.singles[i].index.columns == columns
    ensures m.singles[i].index.indexType == BTreeMap ==>
              forall j :: 0 <= j < |m.singles| ==> m.singles[j].index != Index(columns, HashMap)
  {
    match Runs.StateFor(m.singles, columns, HashMap)
    case Some(i) => i
    case None =>
      assert exists j :: 0 <= j < |m.singles| && m.singles[j].index == Index(columns, BTreeMap) by {
        var j :| 0 <= j < |m.singles| && m.singles[j].index.columns == columns;
        assert m.singles[j].index == Index(columns, m.singles[j].index.indexType);
        assert m.singles[j].index.indexType != HashMap;
      }
      Runs.StateFor(m.singles, columns, BTreeMap).value
  }

  /** The first `n` indices miss; the next one, if there is one, answers. */
  ghost predicate AnswersAt(singles: seq<Single>, columns: seq<nat>, key: Key, named: IndexType, n: nat,
                            r: LookupResult)
    requires |columns| == |key|
  {
    n <= |singles| && (forall i :: 0 <= i < n ==> Answers(singles[i], columns, key, named, Missing)) &&
    if n == |singles| then r == Missing else r.Found? && Answers(singles[n], columns, key, named, r)
  }

  /** The indices are asked in turn until one answers. */
  ghost predicate Searched(singles: seq<Single>, columns: seq<nat>, key: Key, named: IndexType, r: LookupResult)
    requires |columns| == |key|
  {
    exists n :: AnswersAt(singles, columns, key, named, n, r)
  }

  /** What a lookup returns. */
  ghost predicate LookedUp(m: Memory, columns: seq<nat>, key: Key, r: LookupResult)
    requires |columns| == |key| && Indexed(m, columns)
  {
    var named := m.singles[NamedIndex(m, columns)];
    if Filled(named, key) then r == LookupSingle(named, key)
    else Searched(m.singles, columns, key, named.index.indexType, r)
  }

  /** The search through all indices after a miss in the named one. */
  method SearchOthers(singles: seq<Single>, columns: seq<nat>, key: Key, named: IndexType) returns (r: LookupResult)
    requires |columns| == |key|
    ensures Searched(singles, columns, key, named, r)
  {
    var i := 0;
    while i < |singles|
      invariant 0 <= i <= |singles|
      invariant forall j :: 0 <= j < i ==> Answers(singles[j], columns, key, named, Missing)
    {
      r := TryIndex(singles[i], columns, key, named);
      if r.Found? {
        assert AnswersAt(singles, columns, key, named, i, r);
        return;
      }
      i := i + 1;
    }
    r := Missing;
    assert AnswersAt(singles, columns, key, named, i, r);
  }

  /** All indices are over columns that the lookup rightly asks them for. */
  ghost predicate AllRightlyAsked(indices: seq<Index>, columns: seq<nat>) {
    forall i :: 0 <= i < |indices| ==> RightlyAsked(columns, indices[i].columns)
  }

  lemma LookupRight(m: Memory, truth: Bag, width: nat, columns: seq<nat>, key: Key, r: LookupResult)
    requires Inv(m, truth, width) && AllRightlyAsked(Indices(m), columns)
    requires |columns| == |key| && Indexed(m, columns) && LookedUp(m, columns, key, r) && r.Found?
    ensures ExactlyMatching(r.rows, truth, columns, key)
  {
    var named := NamedIndex(m, columns);
    if Filled(m.singles[named], key) {
      LookupSingleExact(m.singles[named], truth, key);
    } else {
      var n: nat :| AnswersAt(m.singles, columns, key, m.singles[named].index.indexType, n, r);
      assert RightlyAsked(columns, Indices(m)[n].columns);
      AnswersRight(m.singles[n], truth, columns, key, m.singles[named].index.indexType, r);
    }
  }

  /** With distinct columns everywhere, a lookup misses only when no index can answer. */
  lemma LookupFinds(m: Memory, columns: seq<nat>, key: Key, r: LookupResult)
    requires IndicesDistinct(Indices(m)) && |columns| == |key| && Indexed(m, columns) && LookedUp(m, columns, key, r)
    ensures AllRightlyAsked(Indices(m), columns)
    ensures r.Found? <==> exists i :: 0 <= i < |m.singles| && CanServe(m.singles[i], columns, key)
  {
    IndicesDistinctAt(m);
    var named := NamedIndex(m, columns);
    forall i | 0 <= i < |m.singles| ensures RightlyAsked(columns, m.singles[i].index.columns) {
      DistinctIsRight(columns, m.singles[i].index.columns);
    }
    ProjectsItself(columns, key);
    CanServeWith(m.singles[named], columns, key, key);
    if !Filled(m.singles[named], key) {
      SearchFinds(m, columns, key, named, r);
    }
  }

  lemma SearchFinds(m: Memory, columns: seq<nat>, key: Key, named: nat, r: LookupResult)
    requires |columns| == |key| && named < |m.singles| && m.singles[named].index.columns == columns
    requires forall i :: 0 <= i < |m.singles| ==> Distinct(m.singles[i].index.columns)
    requires forall i :: 0 <= i < |m.singles| && i != named ==> m.singles[i].index != m.singles[named].index
    requires !CanServe(m.singles[named], columns, key)
    requires Searched(m.singles, columns, key, m.singles[named].index.indexType, r)
    ensures r.Found? <==> exists i :: 0 <= i < |m.singles| && CanServe(m.singles[i], columns, key)
  {
    var t := m.singles[named].index.indexType;
    forall i | 0 <= i < |m.singles| && Answers(m.singles[i], columns, key, t, Missing)
      ensures !CanServe(m.singles[i], columns, key)
    {
      AnswersIff(m.singles[i], columns, key, t, Missing);
    }
    var n: nat :| AnswersAt(m.singles, columns, key, t, n, r);
    if r.Found? {
      AnswersIff(m.singles[n], columns, key, t, r);
    }
  }

  /** A lookup that does not miss returns exactly the existing rows with the key, if the indices are
      rightly asked, as they are if no index has a column twice. Then it misses only when no index
      over some of the columns has that part of the key filled. */
  method Lookup(m: Memory, columns: seq<nat>, key: Key, ghost truth: Bag, ghost width: nat) returns (r: LookupResult)
    requires Inv(m, truth, width) && |columns| == |key| && Indexed(m, columns)
    ensures LookedUp(m, columns, key, r)
    ensures AllRightlyAsked(Indices(m), columns) && r.Found? ==> ExactlyMatching(r.rows, truth, columns, key)
    ensures IndicesDistinct(Indices(m)) ==>
              AllRightlyAsked(Indices(m), columns) &&
              (r.Found? <==> exists i :: 0 <= i < |m.singles| && CanServe(m.singles[i], columns, key))
  {
    var index := NamedIndex(m, columns);
    LookupSingleExact(m.singles[index], truth, key);
    r := LookupSingle(m.singles[index], key);
    if r.Missing? {
      r := SearchOthers(m.singles, columns, key, m.singles[index].index.indexType);
    }
    if r.Found? && AllRightlyAsked(Indices(m), columns) {
      LookupRight(m, truth, width, columns, key, r);
    }
    if IndicesDistinct(Indices(m)) {
      LookupFinds(m, columns, key, r);
    }
  }

  /** From the empty state: after any run, a lookup that does not miss is exact, if the indices that
      were added have no column twice. */
  lemma LookupAfterRun(width: nat, ops: seq<Runs.Op>, m: Memory, truth: Bag, columns: seq<nat>, key: Key,
                       r: LookupResult)
    requires Runs.Reaches(Runs.EMPTY, multiset{}, width, ops, m, truth)
    requires forall op :: op in ops ==> Runs.DistinctColumns(op)
    requires |columns| == |key| && Indexed(m, columns) && LookedUp(m, columns, key, r)
    ensures r.Found? ==> ExactlyMatching(r.rows, truth, columns, key)
    ensures r.Found? <==> exists i :: 0 <= i < |m.singles| && CanServe(m.singles[i], columns, key)
  {
    Runs.RunFromEmpty(width, ops, m, truth);
    LookupFinds(m, columns, key, r);
    if r.Found? {
      LookupRight(m, truth, width, columns, key, r);
    }
  }

  lemma IndicesDistinctAt(m: Memory)
    requires IndicesDistinct(Indices(m))
    ensures forall i :: 0 <= i < |m.singles| ==> Distinct(m.singles[i].index.columns)
    ensures forall i, j :: 0 <= i < |m.singles| && 0 <= j < |m.singles| && i != j ==>
              m.singles[i].index != m.singles[j].index
  {
    forall i | 0 <= i < |m.singles| ensures Distinct(m.singles[i].index.columns) {
      assert m.singles[i].index == Indices(m)[i];
      assert Indices(m)[i] in Indices(m);
    }
    forall i, j | 0 <= i < |m.singles| && 0 <= j < |m.singles| && i != j
      ensures m.singles[i].index != m.singles[j].index
    {
      assert Indices(m)[i] != Indices(m)[j];
    }
  }
}

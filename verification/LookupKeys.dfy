/** The keys with which a lookup on some columns asks an index on other columns: the same columns in
    another order, or fewer of them. When the columns are distinct the asked key says what the key
    says; the lemmas here give the exact condition for columns that repeat. */
module LookupKeys {
  import opened Options
  import opened StateTypes

  /** `key` over `columns` gives the column `c` the value `v`. */
  ghost predicate Says(columns: seq<nat>, key: Key, c: nat, v: DfValue)
    requires |columns| == |key|
  {
    exists i :: 0 <= i < |columns| && columns[i] == c && key[i] == v
  }

  /** `k` is what `key` over `columns` says about the columns `other`. */
  ghost predicate Projects(columns: seq<nat>, key: Key, other: seq<nat>, k: Key)
    requires |columns| == |key|
  {
    |k| == |other| &&
    forall j :: 0 <= j < |other| ==> Says(columns, key, other[j], k[j])
  }

  lemma ProjectsUnique(columns: seq<nat>, key: Key, other: seq<nat>, k: Key, l: Key)
    requires |columns| == |key| && Distinct(columns)
    requires Projects(columns, key, other, k) && Projects(columns, key, other, l)
    ensures k == l
  {
    forall j | 0 <= j < |other| ensures k[j] == l[j] {
      var i :| 0 <= i < |columns| && columns[i] == other[j] && key[i] == k[j];
      var i' :| 0 <= i' < |columns| && columns[i'] == other[j] && key[i'] == l[j];
      assert i == i';
    }
  }

  /** A row with `key` over `columns` has the projected key over the other columns. */
  lemma ProjectedKey(columns: seq<nat>, key: Key, other: seq<nat>, k: Key, row: Row)
    requires |columns| == |key| && Projects(columns, key, other, k) && HasKey(columns, row, key)
    ensures HasKey(other, row, k)
  {
    forall j | 0 <= j < |other| ensures other[j] < |row| && row[other[j]] == k[j] {
      var i :| 0 <= i < |columns| && columns[i] == other[j] && key[i] == k[j];
      assert KeyOf(columns, row)[i] == key[i];
    }
    assert KeyOf(other, row) == k;
  }

  /** Projecting there and back. */
  lemma ProjectsBack(columns: seq<nat>, key: Key, other: seq<nat>, k: Key)
    requires |columns| == |key| && Projects(columns, key, other, k) && Distinct(columns)
    requires forall c :: c in columns ==> c in other
    ensures Projects(other, k, columns, key)
  {
    forall i | 0 <= i < |columns|
      ensures Says(other, k, columns[i], key[i])
    {
      assert columns[i] in columns;
      var j :| 0 <= j < |other| && other[j] == columns[i];
      assert Says(columns, key, other[j], k[j]);
      var i' :| 0 <= i' < |columns| && columns[i'] == other[j] && key[i'] == k[j];
      assert i' == i;
    }
  }

  lemma ProjectsItself(columns: seq<nat>, key: Key)
    requires |columns| == |key|
    ensures Projects(columns, key, columns, key)
  {
    forall j | 0 <= j < |columns| ensures Says(columns, key, columns[j], key[j]) {
    }
  }

  // ---------------------------------------------------------------- counting columns

  function Elements(s: seq<nat>): set<nat> {
    set x | x in s
  }

  lemma {:induction false} CountElements(s: seq<nat>)
    ensures |Elements(s)| <= |s|
    ensures |Elements(s)| == |s| <==> Distinct(s)
  {
    if s == [] {
      assert Elements(s) == {};
    } else {
      var last := s[|s| - 1];
      var rest := s[..|s| - 1];
      CountElements(rest);
      assert Elements(s) == Elements(rest) + {last};
      assert last in Elements(rest) <==> exists i :: 0 <= i < |rest| && s[i] == last;
    }
  }

  lemma SubsetOfSameSize(a: set<nat>, b: set<nat>)
    requires a <= b && |a| >= |b|
    ensures a == b
  {
    assert |b - a| == |b| - |a|;
    assert b == a + (b - a);
  }

  /** Distinct columns within as many columns are the same ones, and so those are distinct too. */
  lemma SameColumns(a: seq<nat>, b: seq<nat>)
    requires Distinct(a) && |a| >= |b| && forall x :: x in a ==> x in b
    ensures Distinct(b) && |a| == |b| && forall x :: x in b ==> x in a
  {
    CountElements(a);
    CountElements(b);
    SubsetOfSameSize(Elements(a), Elements(b));
    assert forall x :: x in b ==> x in Elements(b);
  }

  // ---------------------------------------------------------------- as many columns

  /** The last position of `c` in `s`. */
  function LastPosition(s: seq<nat>, c: nat): (p: nat)
    requires c in s
    ensures p < |s| && s[p] == c
  {
    if s[|s| - 1] == c then |s| - 1 else LastPosition(s[..|s| - 1], c)
  }

  /** The key after its first `n` values were put where the index has their columns. */
  function Shuffled(columns: seq<nat>, key: Key, other: seq<nat>, n: nat): (k: Key)
    requires n <= |columns| == |key| == |other| && forall c :: c in columns ==> c in other
    ensures |k| == |key|
  {
    if n == 0 then seq(|key|, _ => Null)
    else Shuffled(columns, key, other, n - 1)[LastPosition(other, columns[n - 1]) := key[n - 1]]
  }

  /** A map from each column of an index to its position. */
  method ColumnPositions(other: seq<nat>) returns (positions: map<nat, nat>)
    ensures forall c :: c in positions <==> c in other
    ensures forall c :: c in positions ==> positions[c] == LastPosition(other, c)
  {
    positions := map[];
    for idx := 0 to |other|
      invariant forall c :: c in positions <==> c in other[..idx]
      invariant forall c :: c in positions ==> positions[c] == LastPosition(other[..idx], c)
    {
      assert other[..idx + 1][..idx] == other[..idx];
      positions := positions[other[idx] := idx];
    }
    assert other[..|other|] == other;
  }

  /** The key for an index with the same columns in another order; none if a column differs. */
  method ShuffleKey(columns: seq<nat>, key: Key, other: seq<nat>) returns (k: Option<Key>)
    requires |columns| == |key| == |other|
    ensures k.Some? <==> forall c :: c in columns ==> c in other
    ensures k.Some? ==> k.value == Shuffled(columns, key, other, |columns|)
  {
    var positions := ColumnPositions(other);
    if c :| c in columns && c !in positions {
      return None;
    }
    var shuffled: Key := seq(|key|, _ => Null);
    for keyPos := 0 to |columns|
      invariant shuffled == Shuffled(columns, key, other, keyPos)
    {
      shuffled := shuffled[positions[columns[keyPos]] := key[keyPos]];
    }
    k := Some(shuffled);
  }

  lemma {:induction false} ShuffledAt(columns: seq<nat>, key: Key, other: seq<nat>, n: nat, i: nat, j: nat)
    requires n <= |columns| == |key| == |other| && forall c :: c in columns ==> c in other
    requires Distinct(columns) && Distinct(other)
    requires i < n && j < |other| && columns[i] == other[j]
    ensures Shuffled(columns, key, other, n)[j] == key[i]
  {
    if i < n - 1 {
      ShuffledAt(columns, key, other, n - 1, i, j);
    }
  }

  /** With distinct columns the shuffled key says the same as the key. */
  lemma {:induction false} ShuffledProjects(columns: seq<nat>, key: Key, other: seq<nat>)
    requires |columns| == |key| == |other| && forall c :: c in columns ==> c in other
    requires Distinct(columns)
    ensures Projects(columns, key, other, Shuffled(columns, key, other, |columns|))
  {
    SameColumns(columns, other);
    var k := Shuffled(columns, key, other, |columns|);
    forall j | 0 <= j < |other| ensures Says(columns, key, other[j], k[j]) {
      assert other[j] in columns;
      var i :| 0 <= i < |columns| && columns[i] == other[j];
      ShuffledAt(columns, key, other, |columns|, i, j);
    }
  }

  /** A row that holds the number of each column in it. */
  function Numbered(width: nat): (r: Row)
    ensures |r| == width
  {
    seq(width, c => Int(c))
  }

  /** A value of the shuffled key that is not NULL came from a column at its last position. */
  lemma {:induction false} ShuffledFrom(columns: seq<nat>, key: Key, other: seq<nat>, n: nat, j: nat)
    requires n <= |columns| == |key| == |other| && forall c :: c in columns ==> c in other
    requires j < |other| && Shuffled(columns, key, other, n)[j] != Null
    ensures other[j] in columns && LastPosition(other, other[j]) == j
  {
    if n > 0 && LastPosition(other, columns[n - 1]) != j {
      ShuffledFrom(columns, key, other, n - 1, j);
    }
  }

  /** With a repeated column the shuffled key leaves some position NULL. */
  lemma {:induction false} RepeatedLeavesNull(columns: seq<nat>, other: seq<nat>, width: nat)
    requires |columns| == |other| && (forall c :: c in columns ==> c in other) && !Distinct(columns)
    requires InBounds(columns, width) && InBounds(other, width)
    ensures Shuffled(columns, KeyOf(columns, Numbered(width)), other, |columns|) != KeyOf(other, Numbered(width))
  {
    var key := KeyOf(columns, Numbered(width));
    var k := Shuffled(columns, key, other, |columns|);
    if k == KeyOf(other, Numbered(width)) {
      forall j | 0 <= j < |other| ensures other[j] in columns && LastPosition(other, other[j]) == j {
        assert k[j] == Int(other[j]);
        ShuffledFrom(columns, key, other, |columns|, j);
      }
      SameColumns(other, columns);
    }
  }

  // ---------------------------------------------------------------- fewer columns

  /** The first position of `c` in `s`, if it is there. */
  function Position(s: seq<nat>, c: nat): (r: Option<nat>)
    ensures r.Some? <==> c in s
    ensures r.Some? ==> r.value < |s| && s[r.value] == c && forall i :: 0 <= i < r.value ==> s[i] != c
  {
    if s == [] then None
    else if s[0] == c then Some(0)
    else match Position(s[1..], c)
      case Some(i) => Some(i + 1)
      case None => None
  }

  type Positioned = (nat, DfValue)

  /** Each value of the key that belongs to a column of the index, with its position there. */
  function Parts(columns: seq<nat>, key: Key, other: seq<nat>): seq<Positioned>
    requires |columns| == |key|
  {
    if columns == [] then []
    else
      var n := |columns| - 1;
      var parts := Parts(columns[..n], key[..n], other);
      match Position(other, columns[n])
      case Some(pos) => parts + [(pos, key[n])]
      case None => parts
  }

  /** The columns that the index has, as often as they are named. */
  function Shared(columns: seq<nat>, other: seq<nat>): (r: seq<nat>)
    ensures forall c :: c in r <==> c in columns && c in other
  {
    if columns == [] then []
    else
      var n := |columns| - 1;
      assert columns == columns[..n] + [columns[n]];
      Shared(columns[..n], other) + if columns[n] in other then [columns[n]] else []
  }

  ghost predicate WithinIndex(parts: seq<Positioned>, other: seq<nat>) {
    forall q :: q in parts ==> q.0 < |other|
  }

  /** The columns of positioned values. */
  function Named(parts: seq<Positioned>, other: seq<nat>): seq<nat>
    requires WithinIndex(parts, other)
  {
    seq(|parts|, i requires 0 <= i < |parts| => assert parts[i] in parts; other[parts[i].0])
  }

  /** What every positioned value is. */
  ghost predicate PartOk(columns: seq<nat>, key: Key, other: seq<nat>, q: Positioned)
    requires |columns| == |key|
  {
    q.0 < |other| && Position(other, other[q.0]) == Some(q.0) && Says(columns, key, other[q.0], q.1)
  }

  lemma SaysLonger(columns: seq<nat>, key: Key, n: nat, c: nat, v: DfValue)
    requires |columns| == |key| && n <= |columns| && Says(columns[..n], key[..n], c, v)
    ensures Says(columns, key, c, v)
  {
    var i :| 0 <= i < n && columns[..n][i] == c && key[..n][i] == v;
    assert columns[i] == c && key[i] == v;
  }

  lemma {:induction false} PartsOk(columns: seq<nat>, key: Key, other: seq<nat>)
    requires |columns| == |key|
    ensures forall q :: q in Parts(columns, key, other) ==> PartOk(columns, key, other, q)
  {
    if columns != [] {
      var n := |columns| - 1;
      var rest := Parts(columns[..n], key[..n], other);
      PartsOk(columns[..n], key[..n], other);
      forall q | q in rest ensures PartOk(columns, key, other, q) {
        SaysLonger(columns, key, n, other[q.0], q.1);
      }
      assert Says(columns, key, columns[n], key[n]);
    }
  }

  lemma NamedSnoc(parts: seq<Positioned>, q: Positioned, other: seq<nat>)
    requires WithinIndex(parts, other) && q.0 < |other|
    ensures WithinIndex(parts + [q], other) && Named(parts + [q], other) == Named(parts, other) + [other[q.0]]
  {
  }

  lemma {:induction false} PartsAreShared(columns: seq<nat>, key: Key, other: seq<nat>)
    requires |columns| == |key|
    ensures WithinIndex(Parts(columns, key, other), other)
    ensures Named(Parts(columns, key, other), other) == Shared(columns, other)
  {
    PartsOk(columns, key, other);
    if columns != [] {
      var n := |columns| - 1;
      PartsAreShared(columns[..n], key[..n], other);
      if columns[n] in other {
        NamedSnoc(Parts(columns[..n], key[..n], other), (Position(other, columns[n]).value, key[n]), other);
      }
    }
  }

  ghost predicate NonDecreasing(s: seq<Positioned>) {
    forall i, j :: 0 <= i < j < |s| ==> s[i].0 <= s[j].0
  }

  /** Sorting by position leaves the order of equal positions open. */
  ghost predicate IsOrder(order: seq<Positioned>, parts: seq<Positioned>) {
    NonDecreasing(order) && multiset(order) == multiset(parts)
  }

  function Inserted(s: seq<Positioned>, q: Positioned): (r: seq<Positioned>)
    ensures multiset(r) == multiset(s) + multiset{q}
  {
    if s == [] || q.0 < s[0].0 then [q] + s
    else
      assert s == [s[0]] + s[1..];
      [s[0]] + Inserted(s[1..], q)
  }

  lemma {:induction false} InsertedInOrder(s: seq<Positioned>, q: Positioned)
    requires NonDecreasing(s)
    ensures NonDecreasing(Inserted(s, q))
  {
    if s != [] && s[0].0 <= q.0 {
      InsertedInOrder(s[1..], q);
      var r := Inserted(s[1..], q);
      forall i | 0 <= i < |r| ensures s[0].0 <= r[i].0 {
        assert r[i] in multiset(s[1..]) + multiset{q};
      }
    }
  }

  function SortByPosition(s: seq<Positioned>): (r: seq<Positioned>)
    ensures IsOrder(r, s)
  {
    if s == [] then []
    else
      var n := |s| - 1;
      assert s == s[..n] + [s[n]];
      InsertedInOrder(SortByPosition(s[..n]), s[n]);
      Inserted(SortByPosition(s[..n]), s[n])
  }

  function Values(order: seq<Positioned>): Key {
    seq(|order|, i requires 0 <= i < |order| => order[i].1)
  }

  /** The key for an index over some of the columns; none if their number is not the index's. */
  method PartOfKey(columns: seq<nat>, key: Key, other: seq<nat>) returns (k: Option<Key>, ghost order: seq<Positioned>)
    requires |columns| == |key|
    ensures IsOrder(order, Parts(columns, key, other))
    ensures k.Some? <==> |Shared(columns, other)| == |other|
    ensures k.Some? ==> k.value == Values(order)
  {
    var positions: seq<Positioned> := [];
    for i := 0 to |columns|
      invariant positions == Parts(columns[..i], key[..i], other)
    {
      assert columns[..i + 1][..i] == columns[..i] && key[..i + 1][..i] == key[..i];
      match Position(other, columns[i])
      case Some(pos) => positions := positions + [(pos, key[i])];
      case None =>
    }
    assert columns[..|columns|] == columns && key[..|columns|] == key;
    PartsAreShared(columns, key, other);
    var sorted := SortByPosition(positions);
    order := sorted;
    k := if |positions| != |other| then None else Some(Values(sorted));
  }

  // ---------------------------------------------------------------- when the part is right

  function Place(other: seq<nat>, c: nat): nat
    requires c in other
  {
    Position(other, c).value
  }

  ghost predicate InPlace(s: seq<nat>, other: seq<nat>) {
    (forall i :: 0 <= i < |s| ==> s[i] in other) &&
    forall i, j :: 0 <= i < j < |s| ==> Place(other, s[i]) <= Place(other, s[j])
  }

  /** The looked-up columns name each column of the index as often as the index does, and equal
      columns of the index stand together, so that the sorted values fall on their columns. */
  ghost predicate PartFits(columns: seq<nat>, other: seq<nat>) {
    InPlace(other, other) && multiset(Shared(columns, other)) == multiset(other)
  }

  /** The elements are in the order of a rank from which they can be told. */
  ghost predicate Ranked(s: seq<nat>, rank: nat -> nat, element: nat -> nat) {
    (forall i :: 0 <= i < |s| ==> element(rank(s[i])) == s[i]) &&
    (forall i, j :: 0 <= i < j < |s| ==> rank(s[i]) <= rank(s[j]))
  }

  lemma LastIsGreatest(a: seq<nat>, b: seq<nat>, rank: nat -> nat, element: nat -> nat)
    requires a != [] && multiset(a) == multiset(b) && Ranked(b, rank, element)
    ensures b != [] && rank(a[|a| - 1]) <= rank(b[|b| - 1])
  {
    assert a[|a| - 1] in multiset(b);
  }

  lemma WithoutLast(s: seq<nat>, rank: nat -> nat, element: nat -> nat)
    requires s != [] && Ranked(s, rank, element)
    ensures Ranked(s[..|s| - 1], rank, element)
    ensures multiset(s[..|s| - 1]) == multiset(s) - multiset{s[|s| - 1]}
    ensures s == s[..|s| - 1] + [s[|s| - 1]]
  {
    assert s == s[..|s| - 1] + [s[|s| - 1]];
  }

  lemma LastsAgree(a: seq<nat>, b: seq<nat>, rank: nat -> nat, element: nat -> nat)
    requires a != [] && multiset(a) == multiset(b) && Ranked(a, rank, element) && Ranked(b, rank, element)
    ensures b != [] && a[|a| - 1] == b[|b| - 1]
  {
    LastIsGreatest(a, b, rank, element);
    LastIsGreatest(b, a, rank, element);
    assert a[|a| - 1] == element(rank(a[|a| - 1]));
  }

  /** Sequences in one order with equal elements are equal. */
  lemma {:induction false} SameOrder(a: seq<nat>, b: seq<nat>, rank: nat -> nat, element: nat -> nat)
    requires multiset(a) == multiset(b) && Ranked(a, rank, element) && Ranked(b, rank, element)
    ensures a == b
  {
    if a == [] {
      assert |multiset(b)| == 0;
    } else {
      LastsAgree(a, b, rank, element);
      WithoutLast(a, rank, element);
      WithoutLast(b, rank, element);
      SameOrder(a[..|a| - 1], b[..|b| - 1], rank, element);
    }
  }

  /** Columns in the order of the index, equally often, are the same sequence. */
  lemma InPlaceSame(a: seq<nat>, b: seq<nat>, other: seq<nat>)
    requires InPlace(a, other) && InPlace(b, other) && multiset(a) == multiset(b)
    ensures a == b
  {
    SameOrder(a, b, (c: nat) => if c in other then Place(other, c) else 0,
              (p: nat) => if p < |other| then other[p] else 0);
  }

  function Without(s: seq<Positioned>, i: nat): seq<Positioned>
    requires i < |s|
  {
    s[..i] + s[i + 1..]
  }

  lemma WithoutOne(s: seq<Positioned>, i: nat)
    requires i < |s|
    ensures multiset(Without(s, i)) == multiset(s) - multiset{s[i]}
  {
    assert s == s[..i] + [s[i]] + s[i + 1..];
  }

  lemma NamedAt(s: seq<Positioned>, i: nat, other: seq<nat>)
    requires i < |s| && WithinIndex(s, other)
    ensures s[i] in s && WithinIndex(Without(s, i), other)
    ensures multiset(Named(s, other)) == multiset(Named(Without(s, i), other)) + multiset{other[s[i].0]}
  {
    var names := Named(s, other);
    assert Named(Without(s, i), other) == names[..i] + names[i + 1..];
    assert names == names[..i] + [names[i]] + names[i + 1..];
  }

  lemma SameWithoutOne(a: seq<Positioned>, b: seq<Positioned>, i: nat)
    requires a != [] && i < |b| && b[i] == a[0] && multiset(a) == multiset(b)
    ensures multiset(Without(a, 0)) == multiset(Without(b, i))
  {
    WithoutOne(a, 0);
    WithoutOne(b, i);
  }

  lemma {:induction false} NamedPermuted(a: seq<Positioned>, b: seq<Positioned>, other: seq<nat>)
    requires WithinIndex(a, other) && WithinIndex(b, other) && multiset(a) == multiset(b)
    ensures multiset(Named(a, other)) == multiset(Named(b, other))
  {
    if a == [] {
      assert |multiset(b)| == 0;
    } else {
      assert a[0] in multiset(a);
      var i :| 0 <= i < |b| && b[i] == a[0];
      SameWithoutOne(a, b, i);
      NamedAt(a, 0, other);
      NamedAt(b, i, other);
      NamedPermuted(Without(a, 0), Without(b, i), other);
    }
  }

  lemma {:induction false} OrderOk(columns: seq<nat>, key: Key, other: seq<nat>, order: seq<Positioned>)
    requires |columns| == |key| && IsOrder(order, Parts(columns, key, other))
    ensures forall i :: 0 <= i < |order| ==> PartOk(columns, key, other, order[i])
    ensures WithinIndex(order, other)
  {
    var parts := Parts(columns, key, other);
    PartsOk(columns, key, other);
    forall q | q in order ensures q in parts {
      assert q in multiset(order);
    }
    forall i | 0 <= i < |order| ensures PartOk(columns, key, other, order[i]) {
      assert order[i] in order;
    }
  }

  /** Values in the order of their positions have their columns in place. */
  lemma OrderedInPlace(columns: seq<nat>, key: Key, other: seq<nat>, order: seq<Positioned>)
    requires |columns| == |key| && NonDecreasing(order) && WithinIndex(order, other)
    requires forall i :: 0 <= i < |order| ==> PartOk(columns, key, other, order[i])
    ensures InPlace(Named(order, other), other)
    ensures forall i :: 0 <= i < |order| ==> Says(columns, key, Named(order, other)[i], order[i].1)
  {
    var named := Named(order, other);
    forall i | 0 <= i < |order|
      ensures named[i] in other && Place(other, named[i]) == order[i].0 && Says(columns, key, named[i], order[i].1)
    {
      assert PartOk(columns, key, other, order[i]);
    }
  }

  /** What the sorted values of a key are about. */
  lemma {:induction false} OrderNames(columns: seq<nat>, key: Key, other: seq<nat>, order: seq<Positioned>)
    requires |columns| == |key| && IsOrder(order, Parts(columns, key, other))
    ensures WithinIndex(order, other) && InPlace(Named(order, other), other)
    ensures multiset(Named(order, other)) == multiset(Shared(columns, other))
    ensures forall i :: 0 <= i < |order| ==> Says(columns, key, Named(order, other)[i], order[i].1)
  {
    OrderOk(columns, key, other, order);
    OrderedInPlace(columns, key, other, order);
    PartsAreShared(columns, key, other);
    NamedPermuted(order, Parts(columns, key, other), other);
  }

  lemma {:induction false} SortedOnColumnsIff(columns: seq<nat>, key: Key, other: seq<nat>, order: seq<Positioned>)
    requires |columns| == |key| && IsOrder(order, Parts(columns, key, other)) && WithinIndex(order, other)
    ensures Named(order, other) == other <==> PartFits(columns, other)
  {
    OrderNames(columns, key, other, order);
    if PartFits(columns, other) {
      InPlaceSame(Named(order, other), other, other);
    }
  }

  lemma {:induction false} PartProjects(columns: seq<nat>, key: Key, other: seq<nat>, order: seq<Positioned>)
    requires |columns| == |key| && IsOrder(order, Parts(columns, key, other)) && PartFits(columns, other)
    ensures Projects(columns, key, other, Values(order))
  {
    OrderNames(columns, key, other, order);
    SortedOnColumnsIff(columns, key, other, order);
  }

  /** A key that names the columns themselves tells when some value lands on another column. */
  lemma {:induction false} PartMisses(columns: seq<nat>, other: seq<nat>, width: nat, order: seq<Positioned>)
    requires InBounds(columns, width) && InBounds(other, width)
    requires IsOrder(order, Parts(columns, KeyOf(columns, Numbered(width)), other))
    requires Values(order) == KeyOf(other, Numbered(width))
    ensures PartFits(columns, other)
  {
    var key := KeyOf(columns, Numbered(width));
    OrderNames(columns, key, other, order);
    SortedOnColumnsIff(columns, key, other, order);
    forall j | 0 <= j < |other| ensures Named(order, other)[j] == other[j] {
      assert Says(columns, key, Named(order, other)[j], order[j].1);
      assert Values(order)[j] == Int(other[j]);
    }
    assert Named(order, other) == other;
  }

  // ---------------------------------------------------------------- the condition

  /** What a lookup on `columns` may ask an index on `other`. For distinct columns it always may. */
  ghost predicate RightlyAsked(columns: seq<nat>, other: seq<nat>) {
    (|other| == |columns| && other != columns && (forall c :: c in columns ==> c in other) ==> Distinct(columns)) &&
    (|other| < |columns| && |Shared(columns, other)| == |other| ==> PartFits(columns, other))
  }

  lemma {:induction false} SharedDistinct(columns: seq<nat>, other: seq<nat>)
    requires Distinct(columns)
    ensures Distinct(Shared(columns, other))
  {
    if columns != [] {
      var n := |columns| - 1;
      SharedDistinct(columns[..n], other);
      assert columns[n] !in columns[..n];
    }
  }

  lemma {:induction false} DistinctOnce(s: seq<nat>, c: nat)
    requires Distinct(s)
    ensures multiset(s)[c] == if c in s then 1 else 0
  {
    if s != [] {
      var n := |s| - 1;
      assert s == s[..n] + [s[n]];
      DistinctOnce(s[..n], c);
    }
  }

  lemma {:induction false} DistinctIsRight(columns: seq<nat>, other: seq<nat>)
    requires Distinct(columns)
    ensures RightlyAsked(columns, other)
    ensures |Shared(columns, other)| == |other| ==> PartFits(columns, other) && forall c :: c in other ==> c in columns
  {
    var shared := Shared(columns, other);
    if |shared| == |other| {
      SharedDistinct(columns, other);
      SameColumns(shared, other);
      var a, b: multiset<nat> := multiset(shared), multiset(other);
      forall c ensures a[c] == b[c] {
        DistinctOnce(shared, c);
        DistinctOnce(other, c);
      }
      assert a == b;
    }
  }

  /** Distinct columns of an index are shared exactly if all of them are looked up. */
  lemma {:induction false} AllShared(columns: seq<nat>, other: seq<nat>)
    requires Distinct(columns) && Distinct(other) && forall c :: c in other ==> c in columns
    ensures |Shared(columns, other)| == |other|
  {
    SharedDistinct(columns, other);
    CountElements(other);
    CountElements(Shared(columns, other));
    assert Elements(other) == Elements(Shared(columns, other));
  }
}

/** Range lookups through an ordered index of the persistent state. Such an index is never the
    primary one: its entries lead to primary keys. */
module PersistentRange {
  import opened Options
  import opened ByteStrings
  import opened StateTypes
  import opened KeyEncoding
  import opened PersistentModel
  import opened PersistentTable
  import opened PersistentLookup

  datatype KeyBound = Included(key: Key) | Excluded(key: Key) | Unbounded

  const LOOKUP_BATCH_SIZE: nat := 128

  // ---------------------------------------------------------------- the order of an ordered index

  /** The order of key values. */
  type KeyOrder = (Key, Key) -> bool

  ghost predicate StrictTotal(less: KeyOrder) {
    (forall a, b :: less(a, b) ==> !less(b, a)) &&
    (forall a, b :: !less(a, b) && !less(b, a) ==> a == b) &&
    (forall a, b, d :: less(a, b) && less(b, d) ==> less(a, d))
  }

  /** Reading an entry back: its key and what follows. */
  type Splitter = Bytes -> (Key, Bytes)

  /** Every entry under this key is read back. */
  ghost predicate ReadsBack(c: Codec, split: Splitter, k: Key) {
    forall x :: split(c.prefix(k) + x) == (k, x)
  }

  lemma ReadApart(c: Codec, split: Splitter, k: Key, l: Key)
    requires ReadsBack(c, split, k) && ReadsBack(c, split, l) && c.prefix(k) == c.prefix(l)
    ensures k == l
  {
    assert split(c.prefix(k) + []) == (k, []) && split(c.prefix(l) + []) == (l, []);
  }

  /** The keys of all rows behind an index are read back from their entries. */
  ghost predicate AllReadBack(c: Codec, split: Splitter, columns: seq<nat>, view: map<Bytes, Row>) {
    forall k :: k in view ==> InBounds(columns, |view[k]|) && ReadsBack(c, split, KeyOf(columns, view[k]))
  }

  /** `compare_keys`: by key, then by what follows it. */
  predicate EntryBefore(less: KeyOrder, split: Splitter, a: Bytes, b: Bytes) {
    var (k, x) := split(a);
    var (l, y) := split(b);
    less(k, l) || (k == l && x != y && LexLeq(x, y))
  }

  lemma {:induction false} CommonPrefixCancels(a: Bytes, x: Bytes, y: Bytes)
    ensures LexLeq(a + x, a + y) <==> LexLeq(x, y)
  {
    if a == [] {
      assert a + x == x && a + y == y;
    } else {
      assert (a + x)[1..] == a[1..] + x && (a + y)[1..] == a[1..] + y;
      CommonPrefixCancels(a[1..], x, y);
    }
  }

  /** The comparator cuts both entries at the size of the key, which is too early by the bytes of the
      size itself. For equal keys this makes no difference: what follows decides. */
  lemma EarlyCutIsHarmless(key: Bytes, x: Bytes, y: Bytes)
    requires |key| < U64
    ensures |key| <= |StoredKey(key, x)| && |key| <= |StoredKey(key, y)|
    ensures LexLeq(StoredKey(key, x)[|key|..], StoredKey(key, y)[|key|..]) <==> LexLeq(x, y)
  {
    StoredIsPrefixed(key, x);
    StoredIsPrefixed(key, y);
    var rest := KeyPrefix(key)[|key|..];
    assert StoredKey(key, x)[|key|..] == rest + x && StoredKey(key, y)[|key|..] == rest + y;
    CommonPrefixCancels(rest, x, y);
  }

  // ---------------------------------------------------------------- walking through an index

  /** An iterator over an ordered index: the order of its entries, and the entries in that order. */
  datatype Cursor = Cursor(c: Codec, less: KeyOrder, split: Splitter, keys: seq<Bytes>)

  /** The rows to which the entries lead. */
  datatype Scope = Scope(width: nat, ix: PIndex, view: map<Bytes, Row>)

  /** What an iterator over an ordered index walks through, if its comparator reads all entries back. */
  ghost predicate Walks(w: Cursor, s: Scope) {
    CodecOk(w.c) && InBounds(s.ix.index.columns, s.width) && StrictTotal(w.less) &&
    ViewOk(w.c, s.width, s.ix, s.view) && AllReadBack(w.c, w.split, s.ix.index.columns, s.view) &&
    Distinct(w.keys) && PartOf(s.view, w.keys) && (forall k :: k in s.view ==> k in w.keys) &&
    forall i, j :: 0 <= i < j < |w.keys| ==> EntryBefore(w.less, w.split, w.keys[i], w.keys[j])
  }

  /** The key of the row behind the `n`-th entry. */
  ghost function KeyAt(w: Cursor, s: Scope, n: nat): Key
    requires Walks(w, s) && n < |w.keys|
  {
    KeyOf(s.ix.index.columns, s.view[w.keys[n]])
  }

  lemma EntrySplits(w: Cursor, s: Scope, n: nat)
    requires Walks(w, s) && n < |w.keys|
    ensures w.split(w.keys[n]).0 == KeyAt(w, s, n)
  {
    var key := KeyAt(w, s, n);
    assert EntryShape(w.c, s.ix, s.view[w.keys[n]], w.keys[n]);
    var extra :| IsStoredUnder(w.c, key, w.keys[n], extra);
    assert w.split(w.c.prefix(key) + extra) == (key, extra);
  }

  /** An entry sorts before a bare key exactly if its own key does. */
  lemma BeforeBound(w: Cursor, s: Scope, n: nat, key: Key)
    requires Walks(w, s) && n < |w.keys| && ReadsBack(w.c, w.split, key)
    ensures EntryBefore(w.less, w.split, w.keys[n], w.c.prefix(key)) <==> w.less(KeyAt(w, s, n), key)
  {
    EntrySplits(w, s, n);
    assert w.c.prefix(key) + [] == w.c.prefix(key);
    assert w.split(w.c.prefix(key)) == (key, []);
  }

  lemma KeysAscend(w: Cursor, s: Scope, i: nat, j: nat)
    requires Walks(w, s) && i <= j < |w.keys|
    ensures !w.less(KeyAt(w, s, j), KeyAt(w, s, i))
  {
    EntrySplits(w, s, i);
    EntrySplits(w, s, j);
    if i < j {
      assert EntryBefore(w.less, w.split, w.keys[i], w.keys[j]);
    }
  }

  // ---------------------------------------------------------------- ranges

  predicate FromBound(less: KeyOrder, lower: KeyBound, key: Key) {
    match lower
    case Included(k) => !less(key, k)
    case Excluded(k) => less(k, key)
    case Unbounded => true
  }

  predicate ToBound(less: KeyOrder, upper: KeyBound, key: Key) {
    match upper
    case Included(k) => !less(k, key)
    case Excluded(k) => less(key, k)
    case Unbounded => true
  }

  predicate InKeyRange(less: KeyOrder, lower: KeyBound, upper: KeyBound, key: Key) {
    FromBound(less, lower, key) && ToBound(less, upper, key)
  }

  /** Not before the lower bound, where an iterator is put at first. */
  predicate NotBefore(less: KeyOrder, lower: KeyBound, key: Key) {
    lower.Unbounded? || !less(key, lower.key)
  }

  /** Before the upper bound, which the iterator itself never includes. */
  predicate BelowBound(less: KeyOrder, upper: KeyBound, key: Key) {
    upper.Unbounded? || less(key, upper.key)
  }

  /** What the scan and the second scan of an included upper bound are to return. */
  predicate Returned(less: KeyOrder, lower: KeyBound, upper: KeyBound, key: Key) {
    (FromBound(less, lower, key) && BelowBound(less, upper, key)) || (upper.Included? && key == upper.key)
  }

  /** The included upper bound lies below the range. */
  predicate Inverted(less: KeyOrder, lower: KeyBound, upper: KeyBound) {
    upper.Included? && !FromBound(less, lower, upper.key)
  }

  /** For all but inverted ranges the two scans together return the range; for an inverted one, which
      is empty, they return the upper bound. */
  lemma ReturnedIsRange(less: KeyOrder, lower: KeyBound, upper: KeyBound, key: Key)
    requires StrictTotal(less)
    ensures !Inverted(less, lower, upper) ==>
              (Returned(less, lower, upper, key) <==> InKeyRange(less, lower, upper, key))
    ensures Inverted(less, lower, upper) ==> !InKeyRange(less, lower, upper, key)
    ensures Inverted(less, lower, upper) ==> (Returned(less, lower, upper, key) <==> key == upper.key)
  {
  }

  function Range(less: KeyOrder, lower: KeyBound, upper: KeyBound): Key -> bool {
    key => InKeyRange(less, lower, upper, key)
  }

  function Scans(less: KeyOrder, lower: KeyBound, upper: KeyBound): Key -> bool {
    key => Returned(less, lower, upper, key)
  }

  /** The rows of a table with wanted keys, with their multiplicity. */
  ghost predicate ExactlyWith(rows: Bag, truth: Bag, columns: seq<nat>, wanted: Key -> bool) {
    forall r: Row :: rows[r] == if InBounds(columns, |r|) && wanted(KeyOf(columns, r)) then truth[r] else 0
  }

  // ---------------------------------------------------------------- what is found

  /** The stretches of entries that the two scans walk through. */
  datatype Found = Found(lo: nat, hi: nat, endLo: nat, endHi: nat)

  /** From `lo` on below the upper bound, and at the upper bound if it is included. */
  ghost predicate FoundOk(w: Cursor, s: Scope, lower: KeyBound, upper: KeyBound, f: Found)
    requires Walks(w, s)
  {
    f.lo <= f.hi <= |w.keys| && f.endLo <= f.endHi <= |w.keys| &&
    (forall n :: f.lo <= n < |w.keys| ==> NotBefore(w.less, lower, KeyAt(w, s, n))) &&
    (forall n :: f.lo <= n < |w.keys| ==> (n < f.hi <==> BelowBound(w.less, upper, KeyAt(w, s, n)))) &&
    (forall n :: 0 <= n < |w.keys| ==>
       (f.endLo <= n < f.endHi <==> upper.Included? && KeyAt(w, s, n) == upper.key))
  }

  predicate InFound(f: Found, n: nat) {
    f.lo <= n < f.hi || f.endLo <= n < f.endHi
  }

  ghost function FoundKeys(w: Cursor, f: Found): seq<Bytes>
    requires f.lo <= f.hi <= |w.keys| && f.endLo <= f.endHi <= |w.keys|
  {
    w.keys[f.lo..f.hi] + w.keys[f.endLo..f.endHi]
  }

  /** Which entry stands at each place of what was found. */
  ghost function Place(f: Found, i: nat): int {
    if i < f.hi - f.lo then f.lo + i else f.endLo + (i - (f.hi - f.lo))
  }

  lemma FoundPlaces(w: Cursor, f: Found, i: nat)
    requires f.lo <= f.hi <= |w.keys| && f.endLo <= f.endHi <= |w.keys| && i < |FoundKeys(w, f)|
    ensures 0 <= Place(f, i) < |w.keys| && FoundKeys(w, f)[i] == w.keys[Place(f, i)] && InFound(f, Place(f, i))
  {
  }

  /** Both stretches follow each other in key order, and share no entry. */
  lemma FoundAscends(w: Cursor, s: Scope, lower: KeyBound, upper: KeyBound, f: Found, i: nat, j: nat)
    requires Walks(w, s) && FoundOk(w, s, lower, upper, f) && i < j < |FoundKeys(w, f)|
    ensures 0 <= Place(f, i) < |w.keys| && 0 <= Place(f, j) < |w.keys| && Place(f, i) != Place(f, j)
    ensures !w.less(KeyAt(w, s, Place(f, j)), KeyAt(w, s, Place(f, i)))
  {
    FoundPlaces(w, f, i);
    FoundPlaces(w, f, j);
    if j < f.hi - f.lo || i >= f.hi - f.lo {
      KeysAscend(w, s, Place(f, i), Place(f, j));
    } else {
      assert w.less(KeyAt(w, s, Place(f, i)), KeyAt(w, s, Place(f, j)));
    }
  }

  lemma FoundDistinct(w: Cursor, s: Scope, lower: KeyBound, upper: KeyBound, f: Found)
    requires Walks(w, s) && FoundOk(w, s, lower, upper, f)
    ensures Distinct(FoundKeys(w, f)) && PartOf(s.view, FoundKeys(w, f))
  {
    var found := FoundKeys(w, f);
    forall i, j | 0 <= i < j < |found| ensures found[i] != found[j] {
      FoundAscends(w, s, lower, upper, f, i, j);
      FoundPlaces(w, f, i);
      FoundPlaces(w, f, j);
    }
    forall i | 0 <= i < |found| ensures found[i] in s.view {
      FoundPlaces(w, f, i);
    }
  }

  lemma FoundMember(w: Cursor, f: Found, n: nat)
    requires f.lo <= f.hi <= |w.keys| && f.endLo <= f.endHi <= |w.keys| && n < |w.keys| && Distinct(w.keys)
    ensures w.keys[n] in FoundKeys(w, f) <==> InFound(f, n)
  {
    var found := FoundKeys(w, f);
    if f.lo <= n < f.hi {
      assert found[n - f.lo] == w.keys[n];
    }
    if f.endLo <= n < f.endHi {
      assert found[f.hi - f.lo + (n - f.endLo)] == w.keys[n];
    }
    if w.keys[n] in found {
      var i :| 0 <= i < |found| && found[i] == w.keys[n];
      FoundPlaces(w, f, i);
    }
  }

  ghost predicate InKeyOrder(less: KeyOrder, columns: seq<nat>, rows: seq<Row>) {
    (forall i :: 0 <= i < |rows| ==> InBounds(columns, |rows[i]|)) &&
    forall i, j :: 0 <= i < j < |rows| ==> !less(KeyOf(columns, rows[j]), KeyOf(columns, rows[i]))
  }

  lemma FoundInOrder(w: Cursor, s: Scope, lower: KeyBound, upper: KeyBound, f: Found)
    requires Walks(w, s) && FoundOk(w, s, lower, upper, f) && PartOf(s.view, FoundKeys(w, f))
    ensures InKeyOrder(w.less, s.ix.index.columns, RowsUnder(s.view, FoundKeys(w, f)))
  {
    var columns := s.ix.index.columns;
    var rows := RowsUnder(s.view, FoundKeys(w, f));
    forall i | 0 <= i < |rows| ensures InBounds(columns, |rows[i]|) {
      FoundPlaces(w, f, i);
    }
    forall i, j | 0 <= i < j < |rows| ensures !w.less(KeyOf(columns, rows[j]), KeyOf(columns, rows[i])) {
      FoundAscends(w, s, lower, upper, f, i, j);
      FoundPlaces(w, f, i);
      FoundPlaces(w, f, j);
    }
  }

  // ---------------------------------------------------------------- rows and entries

  lemma AllOrNoneAmong(view: map<Bytes, Row>, found: seq<Bytes>, r: Row, all: bool)
    requires forall k :: k in view && view[k] == r ==> (k in found <==> all)
    ensures PksOf(Among(view, found), r) == if all then PksOf(view, r) else {}
  {
  }

  lemma OneMissing(a: set<Bytes>, b: set<Bytes>, k: Bytes)
    requires a <= b && k in b && k !in a
    ensures |a| < |b|
  {
    assert b == a + (b - a);
    assert k in b - a;
  }

  /** The entries found are the wanted ones. */
  ghost predicate FindsWanted(w: Cursor, s: Scope, f: Found, wanted: Key -> bool)
    requires Walks(w, s)
  {
    forall n :: 0 <= n < |w.keys| ==> (InFound(f, n) <==> wanted(KeyAt(w, s, n)))
  }

  /** The wanted entries have the wanted rows. */
  lemma WantedRows(w: Cursor, s: Scope, f: Found, found: seq<Bytes>, truth: Bag, wanted: Key -> bool)
    requires Walks(w, s) && Represents(s.view, truth) && Distinct(found) && PartOf(s.view, found)
    requires forall n :: 0 <= n < |w.keys| ==> (w.keys[n] in found <==> InFound(f, n))
    requires FindsWanted(w, s, f, wanted)
    ensures ExactlyWith(multiset(RowsUnder(s.view, found)), truth, s.ix.index.columns, wanted)
  {
    RowsUnderRepresent(s.view, found);
    forall r: Row
      ensures multiset(RowsUnder(s.view, found))[r] ==
              if InBounds(s.ix.index.columns, |r|) && wanted(KeyOf(s.ix.index.columns, r)) then truth[r] else 0
    {
      var all := InBounds(s.ix.index.columns, |r|) && wanted(KeyOf(s.ix.index.columns, r));
      forall k | k in s.view && s.view[k] == r ensures k in found <==> all {
        assert k in w.keys;
        var n :| 0 <= n < |w.keys| && w.keys[n] == k;
        assert KeyAt(w, s, n) == KeyOf(s.ix.index.columns, r);
      }
      AllOrNoneAmong(s.view, found, r, all);
    }
  }

  /** An entry too many or too few is a row too many or too few. */
  lemma UnwantedRow(w: Cursor, s: Scope, f: Found, found: seq<Bytes>, truth: Bag, wanted: Key -> bool, n: nat)
    requires Walks(w, s) && Represents(s.view, truth) && Distinct(found) && PartOf(s.view, found)
    requires n < |w.keys| && (w.keys[n] in found <==> InFound(f, n))
    requires InFound(f, n) <==> !wanted(KeyAt(w, s, n))
    ensures !ExactlyWith(multiset(RowsUnder(s.view, found)), truth, s.ix.index.columns, wanted)
  {
    RowsUnderRepresent(s.view, found);
    var k := w.keys[n];
    var r := s.view[k];
    var among := Among(s.view, found);
    assert multiset(RowsUnder(s.view, found))[r] == |PksOf(among, r)|;
    assert k in PksOf(among, r) <==> InFound(f, n);
    if InFound(f, n) {
      OneMissing({}, PksOf(among, r), k);
    } else {
      OneMissing(PksOf(among, r), PksOf(s.view, r), k);
    }
  }

  /** The rows are right exactly if the entries are. */
  lemma RowsRightIff(w: Cursor, s: Scope, lower: KeyBound, upper: KeyBound, f: Found, truth: Bag, wanted: Key -> bool)
    requires Walks(w, s) && FoundOk(w, s, lower, upper, f) && Represents(s.view, truth)
    requires PartOf(s.view, FoundKeys(w, f))
    ensures ExactlyWith(multiset(RowsUnder(s.view, FoundKeys(w, f))), truth, s.ix.index.columns, wanted) <==>
            FindsWanted(w, s, f, wanted)
  {
    FoundDistinct(w, s, lower, upper, f);
    var found := FoundKeys(w, f);
    forall n | 0 <= n < |w.keys| ensures w.keys[n] in found <==> InFound(f, n) {
      FoundMember(w, f, n);
    }
    if FindsWanted(w, s, f, wanted) {
      WantedRows(w, s, f, found, truth, wanted);
    } else {
      var n :| 0 <= n < |w.keys| && !(InFound(f, n) <==> wanted(KeyAt(w, s, n)));
      UnwantedRow(w, s, f, found, truth, wanted, n);
    }
  }

  // ---------------------------------------------------------------- when a lookup is right

  /** No row has the upper bound as its key. */
  ghost predicate NothingAt(truth: Bag, columns: seq<nat>, key: Key) {
    forall r :: r in truth ==> !HasKey(columns, r, key)
  }

  lemma NothingAtIff(w: Cursor, s: Scope, truth: Bag, key: Key)
    requires Walks(w, s) && Represents(s.view, truth)
    ensures NothingAt(truth, s.ix.index.columns, key) <==> forall n :: 0 <= n < |w.keys| ==> KeyAt(w, s, n) != key
  {
    if n :| 0 <= n < |w.keys| && KeyAt(w, s, n) == key {
      RepresentedRow(s.view, truth, w.keys[n]);
    }
    if r :| r in truth && HasKey(s.ix.index.columns, r, key) {
      assert |PksOf(s.view, r)| > 0;
      var k :| k in PksOf(s.view, r);
      assert k in w.keys;
      var n :| 0 <= n < |w.keys| && w.keys[n] == k;
      assert KeyAt(w, s, n) == key;
    }
  }

  /** The skip loop of an excluded lower bound passes over an entry if its primary key has the bytes of
      the bound: it looks at the value of the entry where the key of the entry is meant. */
  predicate Skips(w: Cursor, cf: map<Bytes, Bytes>, bound: Key, n: nat)
    requires n < |w.keys| && w.keys[n] in cf
  {
    w.c.transform(cf[w.keys[n]]) == Some(w.c.prefix(bound))
  }

  /** The primary key of the row decides whether its entry is passed over. */
  lemma SkipsByPrimaryKey(w: Cursor, cf: map<Bytes, Bytes>, bound: Key, n: nat, primary: PIndex, row: Row)
    requires CodecOk(w.c) && n < |w.keys| && w.keys[n] in cf && InBounds(primary.index.columns, |row|)
    requires EntryShape(w.c, primary, row, cf[w.keys[n]])
    ensures Skips(w, cf, bound, n) <==> w.c.prefix(KeyOf(primary.index.columns, row)) == w.c.prefix(bound)
  {
    var own := KeyOf(primary.index.columns, row);
    var extra :| IsStoredUnder(w.c, own, cf[w.keys[n]], extra);
    assert w.c.transform(w.c.prefix(own) + extra) == Some(w.c.prefix(own));
  }

  /** The entries at the bound, and the first one after it, below the upper bound. */
  ghost predicate AtOrJustAfter(w: Cursor, s: Scope, bound: Key, upper: KeyBound, n: nat)
    requires Walks(w, s) && n < |w.keys|
  {
    !w.less(KeyAt(w, s, n), bound) && BelowBound(w.less, upper, KeyAt(w, s, n)) &&
    (n == 0 || !w.less(bound, KeyAt(w, s, n - 1)))
  }

  /** The skip loop passes over the entries at the bound, and over no other. */
  ghost predicate SkipsRight(w: Cursor, s: Scope, cf: map<Bytes, Bytes>, bound: Key, upper: KeyBound)
    requires Walks(w, s) && cf.Keys == s.view.Keys
  {
    forall n :: 0 <= n < |w.keys| && AtOrJustAfter(w, s, bound, upper, n) ==>
      (Skips(w, cf, bound, n) <==> KeyAt(w, s, n) == bound)
  }

  /** When a range lookup is right. */
  ghost predicate RangeRight(w: Cursor, s: Scope, cf: map<Bytes, Bytes>, truth: Bag, lower: KeyBound, upper: KeyBound)
    requires Walks(w, s) && cf.Keys == s.view.Keys
  {
    (Inverted(w.less, lower, upper) ==> NothingAt(truth, s.ix.index.columns, upper.key)) &&
    (lower.Excluded? ==> SkipsRight(w, s, cf, lower.key, upper))
  }

  /** A row at an excluded lower bound comes back if its primary key is another one. */
  lemma ExclusiveReturnsBound(w: Cursor, s: Scope, cf: map<Bytes, Bytes>, truth: Bag, lower: KeyBound, upper: KeyBound,
                              n: nat)
    requires Walks(w, s) && cf.Keys == s.view.Keys && lower.Excluded? && n < |w.keys|
    requires KeyAt(w, s, n) == lower.key && BelowBound(w.less, upper, lower.key) && !Skips(w, cf, lower.key, n)
    ensures !RangeRight(w, s, cf, truth, lower, upper)
  {
    if n > 0 {
      KeysAscend(w, s, n - 1, n);
    }
    assert AtOrJustAfter(w, s, lower.key, upper, n);
  }

  /** Where the scan starts: at the lower bound, or after the entries that the skip loop passes over. */
  ghost predicate StartsAt(w: Cursor, s: Scope, cf: map<Bytes, Bytes>, lower: KeyBound, upper: KeyBound, from: nat,
                           lo: nat)
    requires Walks(w, s) && cf.Keys == s.view.Keys
  {
    from <= lo <= |w.keys| &&
    (forall n :: 0 <= n < |w.keys| ==> (from <= n <==> NotBefore(w.less, lower, KeyAt(w, s, n)))) &&
    if lower.Excluded? then
      (forall n :: from <= n < lo ==> Skips(w, cf, lower.key, n) && BelowBound(w.less, upper, KeyAt(w, s, n))) &&
      (lo < |w.keys| ==> !Skips(w, cf, lower.key, lo) || !BelowBound(w.less, upper, KeyAt(w, s, lo)))
    else lo == from
  }

  /** If the skip loop is right, the scan finds what it is to return. */
  lemma RightSkipFinds(w: Cursor, s: Scope, cf: map<Bytes, Bytes>, lower: KeyBound, upper: KeyBound, from: nat,
                       f: Found)
    requires Walks(w, s) && cf.Keys == s.view.Keys && lower.Excluded? && SkipsRight(w, s, cf, lower.key, upper)
    requires FoundOk(w, s, lower, upper, f) && StartsAt(w, s, cf, lower, upper, from, f.lo)
    ensures FindsWanted(w, s, f, Scans(w.less, lower, upper))
  {
    forall n | 0 <= n < |w.keys| ensures f.lo <= n < f.hi <==>
        FromBound(w.less, lower, KeyAt(w, s, n)) && BelowBound(w.less, upper, KeyAt(w, s, n))
    {
      if from <= n < f.lo {
        SkippedAreAt(w, s, cf, lower, upper, from, f.lo, n);
      } else if f.lo <= n < f.hi {
        StartIsAfter(w, s, cf, lower, upper, from, f);
        KeysAscend(w, s, f.lo, n);
      }
    }
  }

  /** The scan starts after the bound. */
  lemma StartIsAfter(w: Cursor, s: Scope, cf: map<Bytes, Bytes>, lower: KeyBound, upper: KeyBound, from: nat, f: Found)
    requires Walks(w, s) && cf.Keys == s.view.Keys && lower.Excluded? && SkipsRight(w, s, cf, lower.key, upper)
    requires FoundOk(w, s, lower, upper, f) && StartsAt(w, s, cf, lower, upper, from, f.lo) && f.lo < f.hi
    ensures w.less(lower.key, KeyAt(w, s, f.lo))
  {
    if f.lo > 0 {
      KeysAscend(w, s, f.lo - 1, f.lo);
    }
    assert KeyAt(w, s, f.lo) == lower.key ==> AtOrJustAfter(w, s, lower.key, upper, f.lo);
  }

  /** The entries passed over are at the bound. */
  lemma {:induction false} SkippedAreAt(w: Cursor, s: Scope, cf: map<Bytes, Bytes>, lower: KeyBound, upper: KeyBound,
                                        from: nat, lo: nat, n: nat)
    requires Walks(w, s) && cf.Keys == s.view.Keys && lower.Excluded? && SkipsRight(w, s, cf, lower.key, upper)
    requires StartsAt(w, s, cf, lower, upper, from, lo) && from <= n < lo
    ensures KeyAt(w, s, n) == lower.key
    decreases n
  {
    if from < n {
      SkippedAreAt(w, s, cf, lower, upper, from, lo, n - 1);
    }
    assert AtOrJustAfter(w, s, lower.key, upper, n);
  }

  /** If it is not, some entry is found that should not be, or the other way round. */
  lemma WrongSkipFinds(w: Cursor, s: Scope, cf: map<Bytes, Bytes>, lower: KeyBound, upper: KeyBound, from: nat,
                       f: Found)
    requires Walks(w, s) && cf.Keys == s.view.Keys && lower.Excluded? && FoundOk(w, s, lower, upper, f)
    requires StartsAt(w, s, cf, lower, upper, from, f.lo) && !Inverted(w.less, lower, upper)
    requires FindsWanted(w, s, f, Range(w.less, lower, upper))
    ensures SkipsRight(w, s, cf, lower.key, upper)
  {
    var b := lower.key;
    forall n | 0 <= n < |w.keys| && AtOrJustAfter(w, s, b, upper, n)
      ensures Skips(w, cf, b, n) <==> KeyAt(w, s, n) == b
    {
      assert InFound(f, n) <==> InKeyRange(w.less, lower, upper, KeyAt(w, s, n));
      assert from <= n;
      if KeyAt(w, s, n) != b {
        JustAfterIsNext(w, s, cf, lower, upper, from, f, n);
      }
    }
  }

  /** The first entry after the bound is found only if the skip loop stops there. */
  lemma JustAfterIsNext(w: Cursor, s: Scope, cf: map<Bytes, Bytes>, lower: KeyBound, upper: KeyBound, from: nat,
                        f: Found,
                        n: nat)
    requires Walks(w, s) && cf.Keys == s.view.Keys && lower.Excluded? && FoundOk(w, s, lower, upper, f)
    requires StartsAt(w, s, cf, lower, upper, from, f.lo) && FindsWanted(w, s, f, Range(w.less, lower, upper))
    requires n < |w.keys| && AtOrJustAfter(w, s, lower.key, upper, n) && KeyAt(w, s, n) != lower.key
    ensures !Skips(w, cf, lower.key, n)
  {
    assert f.lo <= n < f.hi;
    assert n > 0 ==> !InKeyRange(w.less, lower, upper, KeyAt(w, s, n - 1));
    assert f.lo == n;
  }

  // ---------------------------------------------------------------- the loops

  /** The first entry that does not sort before a bound. */
  method SeekEntry(w: Cursor, bound: Bytes) returns (lo: nat)
    ensures lo <= |w.keys|
    ensures forall n :: 0 <= n < lo ==> EntryBefore(w.less, w.split, w.keys[n], bound)
    ensures lo < |w.keys| ==> !EntryBefore(w.less, w.split, w.keys[lo], bound)
  {
    lo := 0;
    while lo < |w.keys| && EntryBefore(w.less, w.split, w.keys[lo], bound)
      invariant lo <= |w.keys|
      invariant forall n :: 0 <= n < lo ==> EntryBefore(w.less, w.split, w.keys[n], bound)
    {
      lo := lo + 1;
    }
  }

  /** `batched_multi_get_cf`: the rows under these primary keys. */
  function MultiGet(p: map<Bytes, Row>, pks: seq<Bytes>): seq<Row>
    requires forall i :: 0 <= i < |pks| ==> pks[i] in p
  {
    seq(|pks|, i requires 0 <= i < |pks| => p[pks[i]])
  }

  /** Rows already read, and primary keys whose rows are still to be read. */
  datatype Reading = Reading(rows: seq<Row>, pending: seq<Bytes>)

  ghost predicate ReadingOk(p: map<Bytes, Row>, r: Reading) {
    forall i :: 0 <= i < |r.pending| ==> r.pending[i] in p
  }

  ghost function AllRead(p: map<Bytes, Row>, r: Reading): seq<Row>
    requires ReadingOk(p, r)
  {
    r.rows + MultiGet(p, r.pending)
  }

  /** Takes the primary key of one more entry, and reads the rows of a full batch of those. */
  method Take(p: map<Bytes, Row>, cf: map<Bytes, Bytes>, k: Bytes, flush: bool, r: Reading,
              ghost view: map<Bytes, Row>) returns (r': Reading)
    requires Shows(p, Some(cf), view) && k in view && ReadingOk(p, r)
    ensures ReadingOk(p, r') && AllRead(p, r') == AllRead(p, r) + [view[k]]
  {
    var pending := r.pending + [cf[k]];
    if flush && |pending| == LOOKUP_BATCH_SIZE {
      r' := Reading(r.rows + MultiGet(p, pending), []);
    } else {
      r' := Reading(r.rows, pending);
    }
  }

  predicate IteratorValid(w: Cursor, upper: Option<Bytes>, i: nat) {
    i < |w.keys| && (upper.None? || EntryBefore(w.less, w.split, w.keys[i], upper.value))
  }

  /** Walks from an entry up to the upper bound of the iterator. */
  method ScanBelow(w: Cursor, p: map<Bytes, Row>, cf: map<Bytes, Bytes>, lo: nat, upper: Option<Bytes>,
                   ghost view: map<Bytes, Row>) returns (r: Reading, ghost hi: nat)
    requires Shows(p, Some(cf), view) && PartOf(view, w.keys) && lo <= |w.keys|
    ensures lo <= hi <= |w.keys| && PartOf(view, w.keys[lo..hi])
    ensures ReadingOk(p, r) && AllRead(p, r) == RowsUnder(view, w.keys[lo..hi])
    ensures forall n :: lo <= n < hi ==> IteratorValid(w, upper, n)
    ensures !IteratorValid(w, upper, hi)
  {
    var i := lo;
    r := Reading([], []);
    while IteratorValid(w, upper, i)
      invariant lo <= i <= |w.keys| && ReadingOk(p, r)
      invariant AllRead(p, r) == RowsUnder(view, w.keys[lo..i])
      invariant forall n :: lo <= n < i ==> IteratorValid(w, upper, n)
      decreases |w.keys| - i
    {
      r := Take(p, cf, w.keys[i], true, r, view);
      RowsUnderNext(view, w.keys, lo, i);
      i := i + 1;
    }
    hi := i;
  }

  lemma RowsUnderNext(view: map<Bytes, Row>, keys: seq<Bytes>, lo: nat, i: nat)
    requires PartOf(view, keys) && lo <= i < |keys|
    ensures RowsUnder(view, keys[lo..i + 1]) == RowsUnder(view, keys[lo..i]) + [view[keys[i]]]
  {
  }

  /** Walks through the entries under one key. */
  method ScanEnd(w: Cursor, p: map<Bytes, Row>, cf: map<Bytes, Bytes>, from: nat, endKey: Bytes, r: Reading,
                 ghost view: map<Bytes, Row>) returns (r': Reading, ghost to: nat)
    requires Shows(p, Some(cf), view) && PartOf(view, w.keys) && from <= |w.keys| && ReadingOk(p, r)
    ensures from <= to <= |w.keys| && PartOf(view, w.keys[from..to])
    ensures ReadingOk(p, r') && AllRead(p, r') == AllRead(p, r) + RowsUnder(view, w.keys[from..to])
    ensures forall n :: from <= n < to ==> w.c.transform(w.keys[n]) == Some(endKey)
    ensures to < |w.keys| ==> w.c.transform(w.keys[to]) != Some(endKey)
  {
    var i := from;
    r' := r;
    assert w.keys[from..from] == [];
    while i < |w.keys| && w.c.transform(w.keys[i]) == Some(endKey)
      invariant from <= i <= |w.keys| && ReadingOk(p, r')
      invariant AllRead(p, r') == AllRead(p, r) + RowsUnder(view, w.keys[from..i])
      invariant forall n :: from <= n < i ==> w.c.transform(w.keys[n]) == Some(endKey)
    {
      r' := Take(p, cf, w.keys[i], false, r', view);
      RowsUnderNext(view, w.keys, from, i);
      i := i + 1;
    }
    to := i;
  }

  /** Where a walk meets the first entry that is not before a bound, the keys before the bound end. */
  lemma CutAt(w: Cursor, s: Scope, key: Key, from: nat, cut: nat)
    requires Walks(w, s) && ReadsBack(w.c, w.split, key) && from <= cut <= |w.keys|
    requires forall n :: from <= n < cut ==> EntryBefore(w.less, w.split, w.keys[n], w.c.prefix(key))
    requires cut < |w.keys| ==> !EntryBefore(w.less, w.split, w.keys[cut], w.c.prefix(key))
    ensures forall n :: from <= n < |w.keys| ==> (n < cut <==> w.less(KeyAt(w, s, n), key))
  {
    forall n | from <= n < |w.keys| ensures n < cut <==> w.less(KeyAt(w, s, n), key) {
      BeforeBound(w, s, n, key);
      if cut <= n {
        BeforeBound(w, s, cut, key);
        KeysAscend(w, s, cut, n);
      }
    }
  }

  /** The prefix extractor maps an entry to the prefix of a key exactly if its row has that key. */
  lemma TransformedIffAt(w: Cursor, s: Scope, key: Key, n: nat)
    requires Walks(w, s) && w.c.fits(key) && ReadsBack(w.c, w.split, key) && n < |w.keys|
    ensures w.c.transform(w.keys[n]) == Some(w.c.prefix(key)) <==> KeyAt(w, s, n) == key
  {
    StartsIffSamePrefix(w.c, s.ix, s.view[w.keys[n]], w.keys[n], key);
    if w.c.prefix(KeyAt(w, s, n)) == w.c.prefix(key) {
      ReadApart(w.c, w.split, KeyAt(w, s, n), key);
    }
  }

  lemma EndIsKey(w: Cursor, s: Scope, key: Key, from: nat, to: nat)
    requires Walks(w, s) && w.c.fits(key) && ReadsBack(w.c, w.split, key) && from <= to <= |w.keys|
    requires forall n :: 0 <= n < |w.keys| ==> (n < from <==> w.less(KeyAt(w, s, n), key))
    requires forall n :: from <= n < to ==> w.c.transform(w.keys[n]) == Some(w.c.prefix(key))
    requires to < |w.keys| ==> w.c.transform(w.keys[to]) != Some(w.c.prefix(key))
    ensures forall n :: 0 <= n < |w.keys| ==> (from <= n < to <==> KeyAt(w, s, n) == key)
  {
    forall n | 0 <= n < |w.keys| ensures from <= n < to <==> KeyAt(w, s, n) == key {
      TransformedIffAt(w, s, key, n);
      if to <= n {
        TransformedIffAt(w, s, key, to);
        KeysAscend(w, s, to, n);
      }
    }
  }

  function BoundBytes(c: Codec, bound: KeyBound): Option<Bytes> {
    if bound.Unbounded? then None else Some(c.prefix(bound.key))
  }

  /** The key of a bound can be encoded, and is read back. */
  ghost predicate BoundFits(c: Codec, split: Splitter, bound: KeyBound) {
    bound.Unbounded? || (c.fits(bound.key) && ReadsBack(c, split, bound.key))
  }

  lemma ValidIsBelow(w: Cursor, s: Scope, upper: KeyBound, n: nat)
    requires Walks(w, s) && BoundFits(w.c, w.split, upper) && n < |w.keys|
    ensures IteratorValid(w, BoundBytes(w.c, upper), n) <==> BelowBound(w.less, upper, KeyAt(w, s, n))
  {
    if !upper.Unbounded? {
      BeforeBound(w, s, n, upper.key);
    }
  }

  /** The loop after the seek of an excluded lower bound. */
  method SkipBound(w: Cursor, cf: map<Bytes, Bytes>, bound: Key, upper: Option<Bytes>, from: nat) returns (lo: nat)
    requires from <= |w.keys| && forall k :: k in w.keys ==> k in cf
    ensures from <= lo <= |w.keys|
    ensures forall n :: from <= n < lo ==> Skips(w, cf, bound, n) && IteratorValid(w, upper, n)
    ensures lo < |w.keys| ==> !Skips(w, cf, bound, lo) || !IteratorValid(w, upper, lo)
  {
    lo := from;
    while IteratorValid(w, upper, lo) && w.c.transform(cf[w.keys[lo]]) == Some(w.c.prefix(bound))
      invariant from <= lo <= |w.keys|
      invariant forall n :: from <= n < lo ==> Skips(w, cf, bound, n) && IteratorValid(w, upper, n)
      decreases |w.keys| - lo
    {
      lo := lo + 1;
    }
  }

  lemma SkippedBelow(w: Cursor, s: Scope, upper: KeyBound)
    requires Walks(w, s) && BoundFits(w.c, w.split, upper)
    ensures forall n :: 0 <= n < |w.keys| ==>
              (IteratorValid(w, BoundBytes(w.c, upper), n) <==> BelowBound(w.less, upper, KeyAt(w, s, n)))
  {
    forall n | 0 <= n < |w.keys|
      ensures IteratorValid(w, BoundBytes(w.c, upper), n) <==> BelowBound(w.less, upper, KeyAt(w, s, n))
    {
      ValidIsBelow(w, s, upper, n);
    }
  }

  method Start(w: Cursor, cf: map<Bytes, Bytes>, lower: KeyBound, upper: KeyBound, ghost s: Scope)
    returns (lo: nat, ghost from: nat)
    requires Walks(w, s) && cf.Keys == s.view.Keys
    requires BoundFits(w.c, w.split, lower) && BoundFits(w.c, w.split, upper)
    ensures StartsAt(w, s, cf, lower, upper, from, lo)
  {
    lo, from := 0, 0;
    if !lower.Unbounded? {
      lo := SeekEntry(w, w.c.prefix(lower.key));
      CutAt(w, s, lower.key, 0, lo);
      from := lo;
      if lower.Excluded? {
        lo := SkipBound(w, cf, lower.key, BoundBytes(w.c, upper), lo);
        SkippedBelow(w, s, upper);
      }
    }
  }

  /** Between `lo` and `hi` are the entries from `lo` on that are below the upper bound. */
  ghost predicate StopsAt(w: Cursor, s: Scope, upper: KeyBound, lo: nat, hi: nat)
    requires Walks(w, s)
  {
    lo <= hi <= |w.keys| &&
    forall n :: lo <= n < |w.keys| ==> (n < hi <==> BelowBound(w.less, upper, KeyAt(w, s, n)))
  }

  lemma WalkStops(w: Cursor, s: Scope, upper: KeyBound, lo: nat, hi: nat)
    requires Walks(w, s) && BoundFits(w.c, w.split, upper) && lo <= hi <= |w.keys|
    requires forall n :: lo <= n < hi ==> IteratorValid(w, BoundBytes(w.c, upper), n)
    requires !IteratorValid(w, BoundBytes(w.c, upper), hi)
    ensures StopsAt(w, s, upper, lo, hi)
  {
    if !upper.Unbounded? {
      forall n | lo <= n < hi ensures EntryBefore(w.less, w.split, w.keys[n], w.c.prefix(upper.key)) {
        assert IteratorValid(w, BoundBytes(w.c, upper), n);
      }
      CutAt(w, s, upper.key, lo, hi);
    }
  }

  method Middle(w: Cursor, p: map<Bytes, Row>, cf: map<Bytes, Bytes>, lo: nat, upper: KeyBound, ghost s: Scope)
    returns (r: Reading, ghost hi: nat)
    requires Walks(w, s) && Shows(p, Some(cf), s.view) && BoundFits(w.c, w.split, upper) && lo <= |w.keys|
    ensures StopsAt(w, s, upper, lo, hi)
    ensures PartOf(s.view, w.keys[lo..hi]) && ReadingOk(p, r) && AllRead(p, r) == RowsUnder(s.view, w.keys[lo..hi])
  {
    r, hi := ScanBelow(w, p, cf, lo, BoundBytes(w.c, upper), s.view);
    WalkStops(w, s, upper, lo, hi);
  }

  /** Between `from` and `to` are the entries under an included upper bound. */
  ghost predicate EndsWith(w: Cursor, s: Scope, upper: KeyBound, from: nat, to: nat)
    requires Walks(w, s)
  {
    from <= to <= |w.keys| &&
    forall n :: 0 <= n < |w.keys| ==> (from <= n < to <==> upper.Included? && KeyAt(w, s, n) == upper.key)
  }

  method End(w: Cursor, p: map<Bytes, Row>, cf: map<Bytes, Bytes>, upper: KeyBound, r: Reading, ghost s: Scope)
    returns (r': Reading, ghost from: nat, ghost to: nat)
    requires Walks(w, s) && Shows(p, Some(cf), s.view) && BoundFits(w.c, w.split, upper) && ReadingOk(p, r)
    ensures EndsWith(w, s, upper, from, to)
    ensures PartOf(s.view, w.keys[from..to])
    ensures ReadingOk(p, r') && AllRead(p, r') == AllRead(p, r) + RowsUnder(s.view, w.keys[from..to])
  {
    r', from, to := r, 0, 0;
    if upper.Included? {
      var end := SeekEntry(w, w.c.prefix(upper.key));
      CutAt(w, s, upper.key, 0, end);
      r', to := ScanEnd(w, p, cf, end, w.c.prefix(upper.key), r, s.view);
      EndIsKey(w, s, upper.key, end, to);
      from := end;
    }
  }

  lemma ScansFind(w: Cursor, s: Scope, cf: map<Bytes, Bytes>, lower: KeyBound, upper: KeyBound, from: nat, f: Found)
    requires Walks(w, s) && cf.Keys == s.view.Keys
    requires StartsAt(w, s, cf, lower, upper, from, f.lo) && StopsAt(w, s, upper, f.lo, f.hi)
    requires EndsWith(w, s, upper, f.endLo, f.endHi)
    ensures FoundOk(w, s, lower, upper, f)
  {
  }

  lemma RowsUnderConcat(view: map<Bytes, Row>, w: Cursor, f: Found)
    requires f.lo <= f.hi <= |w.keys| && f.endLo <= f.endHi <= |w.keys|
    requires PartOf(view, w.keys[f.lo..f.hi]) && PartOf(view, w.keys[f.endLo..f.endHi])
    ensures PartOf(view, FoundKeys(w, f))
    ensures RowsUnder(view, w.keys[f.lo..f.hi]) + RowsUnder(view, w.keys[f.endLo..f.endHi]) ==
            RowsUnder(view, FoundKeys(w, f))
  {
  }

  // ---------------------------------------------------------------- the lookup

  /** Without an excluded lower bound, or with a right skip loop, the scans find what they are to. */
  lemma FindsScans(w: Cursor, s: Scope, cf: map<Bytes, Bytes>, lower: KeyBound, upper: KeyBound, from: nat, f: Found)
    requires Walks(w, s) && cf.Keys == s.view.Keys && FoundOk(w, s, lower, upper, f)
    requires StartsAt(w, s, cf, lower, upper, from, f.lo)
    requires lower.Excluded? ==> SkipsRight(w, s, cf, lower.key, upper)
    ensures FindsWanted(w, s, f, Scans(w.less, lower, upper))
  {
    if lower.Excluded? {
      RightSkipFinds(w, s, cf, lower, upper, from, f);
    }
  }

  /** An inverted range has nothing for the scan to find or to skip. */
  lemma InvertedSkips(w: Cursor, s: Scope, cf: map<Bytes, Bytes>, lower: KeyBound, upper: KeyBound)
    requires Walks(w, s) && cf.Keys == s.view.Keys && lower.Excluded? && Inverted(w.less, lower, upper)
    ensures SkipsRight(w, s, cf, lower.key, upper)
  {
  }

  lemma FindsInvertedIff(w: Cursor, s: Scope, cf: map<Bytes, Bytes>, lower: KeyBound, upper: KeyBound, from: nat,
                         f: Found, truth: Bag)
    requires Walks(w, s) && cf.Keys == s.view.Keys && FoundOk(w, s, lower, upper, f) && Represents(s.view, truth)
    requires StartsAt(w, s, cf, lower, upper, from, f.lo) && Inverted(w.less, lower, upper)
    ensures FindsWanted(w, s, f, Range(w.less, lower, upper)) <==> NothingAt(truth, s.ix.index.columns, upper.key)
  {
    NothingAtIff(w, s, truth, upper.key);
    if lower.Excluded? {
      InvertedSkips(w, s, cf, lower, upper);
    }
    FindsScans(w, s, cf, lower, upper, from, f);
    forall n | 0 <= n < |w.keys|
      ensures !InKeyRange(w.less, lower, upper, KeyAt(w, s, n)) && (InFound(f, n) <==> KeyAt(w, s, n) == upper.key)
    {
      ReturnedIsRange(w.less, lower, upper, KeyAt(w, s, n));
    }
  }

  lemma ScansAreRange(w: Cursor, s: Scope, f: Found, lower: KeyBound, upper: KeyBound)
    requires Walks(w, s) && !Inverted(w.less, lower, upper)
    ensures FindsWanted(w, s, f, Scans(w.less, lower, upper)) <==> FindsWanted(w, s, f, Range(w.less, lower, upper))
  {
    forall n | 0 <= n < |w.keys|
      ensures Scans(w.less, lower, upper)(KeyAt(w, s, n)) <==> Range(w.less, lower, upper)(KeyAt(w, s, n))
    {
      ReturnedIsRange(w.less, lower, upper, KeyAt(w, s, n));
    }
  }

  lemma FindsRangeIff(w: Cursor, s: Scope, cf: map<Bytes, Bytes>, lower: KeyBound, upper: KeyBound, from: nat, f: Found,
                      truth: Bag)
    requires Walks(w, s) && cf.Keys == s.view.Keys && FoundOk(w, s, lower, upper, f) && Represents(s.view, truth)
    requires StartsAt(w, s, cf, lower, upper, from, f.lo)
    ensures FindsWanted(w, s, f, Range(w.less, lower, upper)) <==> RangeRight(w, s, cf, truth, lower, upper)
  {
    if Inverted(w.less, lower, upper) {
      FindsInvertedIff(w, s, cf, lower, upper, from, f, truth);
      if lower.Excluded? {
        InvertedSkips(w, s, cf, lower, upper);
      }
    } else {
      ScansAreRange(w, s, f, lower, upper);
      if lower.Excluded? && FindsWanted(w, s, f, Range(w.less, lower, upper)) {
        WrongSkipFinds(w, s, cf, lower, upper, from, f);
      } else if lower.Excluded? ==> SkipsRight(w, s, cf, lower.key, upper) {
        FindsScans(w, s, cf, lower, upper, from, f);
      }
    }
  }

  /** Where no entry is passed over, an excluded lower bound is treated as an included one. */
  lemma NothingSkipped(w: Cursor, s: Scope, cf: map<Bytes, Bytes>, lower: KeyBound, upper: KeyBound, from: nat,
                       f: Found)
    requires Walks(w, s) && cf.Keys == s.view.Keys && lower.Excluded? && FoundOk(w, s, lower, upper, f)
    requires StartsAt(w, s, cf, lower, upper, from, f.lo)
    requires forall n :: 0 <= n < |w.keys| ==> !Skips(w, cf, lower.key, n)
    ensures FindsWanted(w, s, f, Scans(w.less, Included(lower.key), upper))
  {
    assert from < |w.keys| ==> !Skips(w, cf, lower.key, from);
  }

  /** What a range lookup returns: rows in key order, and exactly the rows of the range if and only if
      the condition holds. Without an excluded lower bound they are those that the two scans are to
      return. An excluded lower bound that no primary key equals is treated as an included one. */
  ghost predicate RangeResult(w: Cursor, s: Scope, cf: map<Bytes, Bytes>, truth: Bag, lower: KeyBound, upper: KeyBound,
                              rows: Bag)
    requires Walks(w, s) && cf.Keys == s.view.Keys
  {
    var columns := s.ix.index.columns;
    (ExactlyWith(rows, truth, columns, Range(w.less, lower, upper)) <==> RangeRight(w, s, cf, truth, lower, upper)) &&
    ((lower.Excluded? ==> SkipsRight(w, s, cf, lower.key, upper)) ==>
       ExactlyWith(rows, truth, columns, Scans(w.less, lower, upper))) &&
    (lower.Excluded? && (forall n :: 0 <= n < |w.keys| ==> !Skips(w, cf, lower.key, n)) ==>
       ExactlyWith(rows, truth, columns, Scans(w.less, Included(lower.key), upper)))
  }

  /** The rows under the entries that the scans walk through: from the first entry that is neither before the
      lower bound nor passed over, below the upper bound, and then at an included upper bound. */
  ghost predicate IsScan(w: Cursor, s: Scope, cf: map<Bytes, Bytes>, lower: KeyBound, upper: KeyBound, from: nat,
                         f: Found, rows: seq<Row>)
    requires Walks(w, s) && cf.Keys == s.view.Keys
  {
    StartsAt(w, s, cf, lower, upper, from, f.lo) && FoundOk(w, s, lower, upper, f) &&
    PartOf(s.view, FoundKeys(w, f)) && rows == RowsUnder(s.view, FoundKeys(w, f))
  }

  ghost predicate ScansReturn(w: Cursor, s: Scope, cf: map<Bytes, Bytes>, lower: KeyBound, upper: KeyBound,
                              rows: seq<Row>)
    requires Walks(w, s) && cf.Keys == s.view.Keys
  {
    exists from, f :: IsScan(w, s, cf, lower, upper, from, f, rows)
  }

  /** All rows of a range, in key order. */
  method LookupRange(w: Cursor, p: map<Bytes, Row>, cf: map<Bytes, Bytes>, lower: KeyBound, upper: KeyBound,
                     ghost s: Scope, ghost truth: Bag) returns (rows: seq<Row>)
    requires Walks(w, s) && Shows(p, Some(cf), s.view) && Represents(s.view, truth)
    requires BoundFits(w.c, w.split, lower) && BoundFits(w.c, w.split, upper)
    ensures InKeyOrder(w.less, s.ix.index.columns, rows)
    ensures RangeResult(w, s, cf, truth, lower, upper, multiset(rows))
    ensures ScansReturn(w, s, cf, lower, upper, rows)
  {
    var lo, r;
    ghost var from, hi, endLo, endHi;
    lo, from := Start(w, cf, lower, upper, s);
    r, hi := Middle(w, p, cf, lo, upper, s);
    r, endLo, endHi := End(w, p, cf, upper, r, s);
    rows := r.rows + MultiGet(p, r.pending);
    AllFound(w, s, cf, lower, upper, from, Found(lo, hi, endLo, endHi), truth, rows);
  }

  lemma AllFound(w: Cursor, s: Scope, cf: map<Bytes, Bytes>, lower: KeyBound, upper: KeyBound, from: nat, f: Found,
                 truth: Bag, rows: seq<Row>)
    requires Walks(w, s) && cf.Keys == s.view.Keys && Represents(s.view, truth)
    requires StartsAt(w, s, cf, lower, upper, from, f.lo) && StopsAt(w, s, upper, f.lo, f.hi)
    requires EndsWith(w, s, upper, f.endLo, f.endHi)
    requires PartOf(s.view, w.keys[f.lo..f.hi]) && PartOf(s.view, w.keys[f.endLo..f.endHi])
    requires rows == RowsUnder(s.view, w.keys[f.lo..f.hi]) + RowsUnder(s.view, w.keys[f.endLo..f.endHi])
    ensures InKeyOrder(w.less, s.ix.index.columns, rows)
    ensures RangeResult(w, s, cf, truth, lower, upper, multiset(rows)) && ScansReturn(w, s, cf, lower, upper, rows)
  {
    ScansFind(w, s, cf, lower, upper, from, f);
    RowsUnderConcat(s.view, w, f);
    FoundInOrder(w, s, lower, upper, f);
    RightRows(w, s, cf, lower, upper, from, f, truth);
    assert IsScan(w, s, cf, lower, upper, from, f, rows);
  }

  /** What the entries found say about the rows. */
  lemma RightRows(w: Cursor, s: Scope, cf: map<Bytes, Bytes>, lower: KeyBound, upper: KeyBound, from: nat, f: Found,
                  truth: Bag)
    requires Walks(w, s) && cf.Keys == s.view.Keys && FoundOk(w, s, lower, upper, f) && Represents(s.view, truth)
    requires StartsAt(w, s, cf, lower, upper, from, f.lo) && PartOf(s.view, FoundKeys(w, f))
    ensures RangeResult(w, s, cf, truth, lower, upper, multiset(RowsUnder(s.view, FoundKeys(w, f))))
  {
    RowsRightIff(w, s, lower, upper, f, truth, Range(w.less, lower, upper));
    FindsRangeIff(w, s, cf, lower, upper, from, f, truth);
    if lower.Excluded? ==> SkipsRight(w, s, cf, lower.key, upper) {
      FindsScans(w, s, cf, lower, upper, from, f);
      RowsRightIff(w, s, lower, upper, f, truth, Scans(w.less, lower, upper));
    }
    if lower.Excluded? && forall n :: 0 <= n < |w.keys| ==> !Skips(w, cf, lower.key, n) {
      NothingSkipped(w, s, cf, lower, upper, from, f);
      RowsRightIff(w, s, lower, upper, f, truth, Scans(w.less, Included(lower.key), upper));
    }
  }
}

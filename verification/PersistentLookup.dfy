/** Point lookups of the persistent state, and indices built over rows already there. */
module PersistentLookup {
  import opened Options
  import opened ByteStrings
  import opened StateTypes
  import opened KeyEncoding
  import opened PersistentModel
  import opened PersistentTable
  import opened PersistentRuns

  // ---------------------------------------------------------------- the rows behind an index

  /** The rows that the entries of a secondary index lead to. */
  ghost function ViewOf(c: Codec, ix: PIndex, cf: map<Bytes, Bytes>, p: map<Bytes, Row>): map<Bytes, Row>
    requires CodecOk(c) && SecondaryOk(c, ix, cf, p)
  {
    map k | k in cf :: p[cf[k]]
  }

  /** The rows behind index `i` of a store, by their entries. */
  ghost function View(c: Codec, st: Store, i: nat): map<Bytes, Row>
    requires CodecOk(c) && i < |st.indices| && SecondariesOk(c, st.indices[1..], st.db)
  {
    if i == 0 then st.db.primary else ViewOf(c, st.indices[1..][i - 1], st.db.secondary[i - 1], st.db.primary)
  }

  lemma {:induction false} SameSize(f: map<Bytes, Bytes>, a: set<Bytes>, b: set<Bytes>)
    requires forall k :: k in a ==> k in f && f[k] in b
    requires forall k, l :: k in a && l in a && f[k] == f[l] ==> k == l
    requires forall v :: v in b ==> exists k :: k in a && f[k] == v
    ensures |a| == |b|
    decreases a
  {
    if a != {} {
      var k :| k in a;
      SameSize(f, a - {k}, b - {f[k]});
    } else {
      assert b == {};
    }
  }

  /** A secondary index leads to every row of the table, as often as it is there. */
  lemma ViewRepresents(c: Codec, ix: PIndex, cf: map<Bytes, Bytes>, p: map<Bytes, Row>, truth: Bag)
    requires CodecOk(c) && SecondaryOk(c, ix, cf, p) && Represents(p, truth)
    ensures Represents(ViewOf(c, ix, cf, p), truth)
  {
    var view := ViewOf(c, ix, cf, p);
    forall r: Row ensures |PksOf(view, r)| == truth[r] {
      forall v | v in PksOf(p, r) ensures exists k :: k in PksOf(view, r) && cf[k] == v {
        assert SecondaryKey(c, ix, r, v) in PksOf(view, r);
      }
      SameSize(cf, PksOf(view, r), PksOf(p, r));
    }
  }

  /** An entry starts with the key of its row; nothing follows if the key identifies the row. */
  ghost predicate EntryShape(c: Codec, ix: PIndex, row: Row, k: Bytes)
    requires CodecOk(c) && InBounds(ix.index.columns, |row|)
  {
    KeyFits(c, ix, row) &&
    exists extra :: IsStoredUnder(c, KeyOf(ix.index.columns, row), k, extra) && (extra == [] <==> ByKeyAlone(ix, row))
  }

  ghost predicate ViewOk(c: Codec, width: nat, ix: PIndex, view: map<Bytes, Row>)
    requires CodecOk(c) && InBounds(ix.index.columns, width)
  {
    forall k :: k in view ==> |view[k]| == width && EntryShape(c, ix, view[k], k)
  }

  lemma PrimaryViewOk(c: Codec, schema: Schema, ix: PIndex, p: map<Bytes, Row>, epoch: nat, seqNo: nat)
    requires CodecOk(c) && InBounds(ix.index.columns, schema.width) && PrimaryOk(c, schema, ix, p, epoch, seqNo)
    ensures ViewOk(c, schema.width, ix, p) && [] !in p
  {
    forall k | k in p ensures EntryShape(c, ix, p[k], k) && k != [] {
      var extra := PkIsStored(c, ix, p[k], k, epoch, seqNo);
    }
  }

  lemma SecondaryViewOk(c: Codec, width: nat, ix: PIndex, cf: map<Bytes, Bytes>, p: map<Bytes, Row>)
    requires CodecOk(c) && InBounds(ix.index.columns, width) && SecondaryOk(c, ix, cf, p) && [] !in p
    requires forall pk :: pk in p ==> |p[pk]| == width
    ensures ViewOk(c, width, ix, ViewOf(c, ix, cf, p))
  {
    var view := ViewOf(c, ix, cf, p);
    forall k | k in view ensures EntryShape(c, ix, view[k], k) {
      SecondaryKeyShape(c, ix, view[k], cf[k]);
      assert IsStoredUnder(c, KeyOf(ix.index.columns, view[k]), k, if ByKeyAlone(ix, view[k]) then [] else cf[k]);
    }
  }

  /** Behind every index of a store is its table, each row under its key. */
  lemma EveryView(c: Codec, schema: Schema, st: Store, truth: Bag, i: nat)
    requires CodecOk(c) && Inv(c, schema, st, truth) && i < |st.indices|
    ensures ViewOk(c, schema.width, st.indices[i], View(c, st, i))
    ensures Represents(View(c, st, i), truth)
  {
    PrimaryViewOk(c, schema, st.indices[0], st.db.primary, st.epoch, st.seqNo);
    if i > 0 {
      var ix := st.indices[1..][i - 1];
      assert ix == st.indices[i];
      SecondaryViewOk(c, schema.width, ix, st.db.secondary[i - 1], st.db.primary);
      ViewRepresents(c, ix, st.db.secondary[i - 1], st.db.primary, truth);
    }
  }

  // ---------------------------------------------------------------- lookups

  /** An entry starts with the prefix of a key exactly if the key of its row has that prefix, and exactly
      then the prefix extractor maps the entry to that prefix. */
  lemma StartsIffSamePrefix(c: Codec, ix: PIndex, row: Row, k: Bytes, key: Key)
    requires CodecOk(c) && InBounds(ix.index.columns, |row|) && EntryShape(c, ix, row, k) && c.fits(key)
    ensures c.prefix(key) <= k <==> c.prefix(KeyOf(ix.index.columns, row)) == c.prefix(key)
    ensures c.prefix(key) <= k <==> c.transform(k) == Some(c.prefix(key))
  {
    var own := KeyOf(ix.index.columns, row);
    var extra :| IsStoredUnder(c, own, k, extra);
    if c.prefix(key) <= k {
      assert k == c.prefix(key) + k[|c.prefix(key)|..];
      Unambiguous(c, own, extra, key, k[|c.prefix(key)|..]);
    }
  }

  /** Such an entry is the bare prefix exactly if its row is identified by its key. */
  lemma BareIffAlone(c: Codec, ix: PIndex, row: Row, k: Bytes, key: Key)
    requires CodecOk(c) && InBounds(ix.index.columns, |row|) && EntryShape(c, ix, row, k) && c.fits(key)
    ensures k == c.prefix(key) <==>
            c.prefix(KeyOf(ix.index.columns, row)) == c.prefix(key) && ByKeyAlone(ix, row)
  {
    var own := KeyOf(ix.index.columns, row);
    var extra :| IsStoredUnder(c, own, k, extra) && (extra == [] <==> ByKeyAlone(ix, row));
    assert c.prefix(own) + [] == c.prefix(own) && c.prefix(key) + [] == c.prefix(key);
    if k == c.prefix(key) {
      Unambiguous(c, own, extra, key, []);
    }
  }

  /** One read is enough: the key is unique and holds no NULL. */
  predicate ReadAlone(ix: PIndex, key: Key) {
    ix.unique && !HasNull(key)
  }

  /** A lookup of this key meets this entry. */
  predicate Meets(c: Codec, ix: PIndex, key: Key, k: Bytes) {
    if ReadAlone(ix, key) then k == c.prefix(key) else c.prefix(key) <= k
  }

  ghost function Matching(c: Codec, ix: PIndex, key: Key, view: map<Bytes, Row>): map<Bytes, Row> {
    map k | k in view && Meets(c, ix, key, k) :: view[k]
  }

  /** A lookup of this key returns this row: its key has the same bytes, and no NULL if one read is enough. */
  ghost predicate Returns(c: Codec, ix: PIndex, key: Key, row: Row) {
    InBounds(ix.index.columns, |row|) && c.prefix(KeyOf(ix.index.columns, row)) == c.prefix(key) &&
    (ReadAlone(ix, key) ==> !HasNull(KeyOf(ix.index.columns, row)))
  }

  lemma MeetsIffReturns(c: Codec, ix: PIndex, row: Row, k: Bytes, key: Key)
    requires CodecOk(c) && InBounds(ix.index.columns, |row|) && EntryShape(c, ix, row, k) && c.fits(key)
    ensures Meets(c, ix, key, k) <==> Returns(c, ix, key, row)
  {
    StartsIffSamePrefix(c, ix, row, k, key);
    BareIffAlone(c, ix, row, k, key);
  }

  /** The rows of a table that a lookup returns, with their multiplicity. */
  ghost predicate ExactlyReturned(c: Codec, ix: PIndex, key: Key, rows: Bag, truth: Bag) {
    forall r: Row :: rows[r] == if Returns(c, ix, key, r) then truth[r] else 0
  }

  /** No row with another key is returned. */
  ghost predicate NoOtherReturned(c: Codec, ix: PIndex, key: Key, truth: Bag) {
    forall r :: r in truth && Returns(c, ix, key, r) ==> HasKey(ix.index.columns, r, key)
  }

  /** The rows returned are exactly those with the key if and only if no row with another key is. */
  lemma ReturnedExactIff(c: Codec, ix: PIndex, key: Key, rows: Bag, truth: Bag)
    requires ExactlyReturned(c, ix, key, rows, truth)
    ensures ExactlyMatching(rows, truth, ix.index.columns, key) <==> NoOtherReturned(c, ix, key, truth)
  {
    if !NoOtherReturned(c, ix, key, truth) {
      var r :| r in truth && Returns(c, ix, key, r) && !HasKey(ix.index.columns, r, key);
      assert rows[r] != 0;
    }
  }

  lemma AllOrNone(c: Codec, ix: PIndex, key: Key, view: map<Bytes, Row>, r: Row, all: bool)
    requires forall k :: k in view && view[k] == r ==> (Meets(c, ix, key, k) <==> all)
    ensures PksOf(Matching(c, ix, key, view), r) == if all then PksOf(view, r) else {}
  {
  }

  /** The entries that a lookup meets lead to exactly the rows that it returns. */
  lemma MatchingReturned(c: Codec, width: nat, ix: PIndex, view: map<Bytes, Row>, truth: Bag, key: Key, rows: Bag)
    requires CodecOk(c) && InBounds(ix.index.columns, width) && ViewOk(c, width, ix, view) && Represents(view, truth)
    requires c.fits(key) && Represents(Matching(c, ix, key, view), rows)
    ensures ExactlyReturned(c, ix, key, rows, truth)
  {
    forall r: Row ensures rows[r] == if Returns(c, ix, key, r) then truth[r] else 0 {
      forall k | k in view && view[k] == r ensures Meets(c, ix, key, k) <==> Returns(c, ix, key, r) {
        MeetsIffReturns(c, ix, r, k, key);
      }
      AllOrNone(c, ix, key, view, r, Returns(c, ix, key, r));
    }
  }

  /** After every run of batches, late indices and restarts of a new table, and through every index, the
      entries under a key lead to exactly the rows of the table with that key if and only if no row of the
      table has another key that a lookup takes for it. */
  lemma LookupExactIff(c: Codec, schema: Schema, columns: seq<nat>, ops: seq<Op>, i: nat, key: Key, rows: Bag)
    requires CodecOk(c) && InBounds(columns, schema.width) && RunsFromNew(c, schema, columns, ops)
    requires var st := RunFromNew(c, schema, columns, ops);
             i < |st.indices| && c.fits(key) && Represents(Matching(c, st.indices[i], key, View(c, st, i)), rows)
    ensures var ix, truth := RunFromNew(c, schema, columns, ops).indices[i], RunTruth(multiset{}, ops);
            ExactlyReturned(c, ix, key, rows, truth) &&
            (ExactlyMatching(rows, truth, ix.index.columns, key) <==> NoOtherReturned(c, ix, key, truth))
  {
    var st := RunFromNew(c, schema, columns, ops);
    EveryView(c, schema, st, RunTruth(multiset{}, ops), i);
    MatchingReturned(c, schema.width, st.indices[i], View(c, st, i), RunTruth(multiset{}, ops), key, rows);
    ReturnedExactIff(c, st.indices[i], key, rows, RunTruth(multiset{}, ops));
  }

  /** One read meets at most one entry, the prefix itself. */
  lemma AloneUnderKey(c: Codec, ix: PIndex, view: map<Bytes, Row>, key: Key)
    requires ReadAlone(ix, key)
    ensures Matching(c, ix, key, view) ==
            var prefix := c.prefix(key); if prefix in view then map[prefix := view[prefix]] else map[]
  {
  }

  lemma OneRow(k: Bytes, row: Row)
    ensures Represents(map[k := row], multiset{row})
  {
    forall r: Row ensures multiset{row}[r] == |PksOf(map[k := row], r)| {
      assert PksOf(map[k := row], r) == if r == row then {k} else {};
    }
  }

  lemma NoRow()
    ensures Represents(map[], multiset{})
  {
    forall r: Row ensures |PksOf(map[], r)| == 0 {
      assert PksOf(map[], r) == {};
    }
  }

  // ---------------------------------------------------------------- ordered iteration

  lemma {:induction false} LexTransitive(a: Bytes, b: Bytes, d: Bytes)
    requires LexLeq(a, b) && LexLeq(b, d)
    ensures LexLeq(a, d)
  {
    if a != [] && a[0] == b[0] && b[0] == d[0] {
      LexTransitive(a[1..], b[1..], d[1..]);
    }
  }

  /** What sorts between a prefix and an entry that starts with it starts with it as well. */
  lemma {:induction false} PrefixIsConvex(prefix: Bytes, k: Bytes, k': Bytes)
    requires LexLeq(prefix, k) && LexLeq(k, k') && prefix <= k'
    ensures prefix <= k
  {
    if prefix != [] {
      assert prefix[0] == k[0] == k'[0];
      PrefixIsConvex(prefix[1..], k[1..], k'[1..]);
      assert prefix == [prefix[0]] + prefix[1..] && k == [k[0]] + k[1..];
    }
  }

  /** What an iterator over a column family walks through: all its keys in byte order. */
  ghost predicate Iterates<V>(keys: seq<Bytes>, cf: map<Bytes, V>) {
    Distinct(keys) && (forall i, j :: 0 <= i < j < |keys| ==> LexLeq(keys[i], keys[j])) &&
    forall k :: k in keys <==> k in cf
  }

  lemma StartsThenSorts(prefix: Bytes, k: Bytes)
    ensures prefix <= k ==> LexLeq(prefix, k)
  {
    if prefix <= k {
      PrefixSortsFirst(prefix, k[|prefix|..]);
      assert prefix + k[|prefix|..] == k;
    }
  }

  /** `Iterator::seek`: the first key that does not sort before the prefix. */
  method Seek(keys: seq<Bytes>, prefix: Bytes) returns (lo: nat)
    requires forall i, j :: 0 <= i < j < |keys| ==> LexLeq(keys[i], keys[j])
    ensures lo <= |keys|
    ensures forall j :: 0 <= j < |keys| && prefix <= keys[j] ==> lo <= j
    ensures forall j :: lo <= j < |keys| ==> LexLeq(prefix, keys[j])
  {
    lo := 0;
    while lo < |keys| && !LexLeq(prefix, keys[lo])
      invariant lo <= |keys|
      invariant forall j :: 0 <= j < lo ==> !(prefix <= keys[j])
    {
      StartsThenSorts(prefix, keys[lo]);
      lo := lo + 1;
    }
    forall j | lo <= j < |keys| ensures LexLeq(prefix, keys[j]) {
      if lo < j {
        LexTransitive(prefix, keys[lo], keys[j]);
      }
    }
  }

  /** Where a scan from the sought position stops, no further key starts with the prefix. */
  lemma ScanIsComplete(keys: seq<Bytes>, prefix: Bytes, lo: nat, hi: nat)
    requires forall i, j :: 0 <= i < j < |keys| ==> LexLeq(keys[i], keys[j])
    requires lo <= hi < |keys| && LexLeq(prefix, keys[hi]) && !(prefix <= keys[hi])
    ensures forall j :: hi <= j < |keys| ==> !(prefix <= keys[j])
  {
    forall j | hi <= j < |keys| ensures !(prefix <= keys[j]) {
      if prefix <= keys[j] {
        PrefixIsConvex(prefix, keys[hi], keys[j]);
      }
    }
  }

  /** The part of a view under these entries. */
  ghost function Among(view: map<Bytes, Row>, keys: seq<Bytes>): map<Bytes, Row> {
    map k | k in view && k in keys :: view[k]
  }

  /** The part of a view whose entries start with a prefix. */
  ghost function Starting(view: map<Bytes, Row>, prefix: Bytes): map<Bytes, Row> {
    map k | k in view && prefix <= k :: view[k]
  }

  lemma AmongIsStarting(view: map<Bytes, Row>, keys: seq<Bytes>, prefix: Bytes, lo: nat, hi: nat)
    requires Iterates(keys, view) && lo <= hi <= |keys|
    requires forall n :: lo <= n < hi ==> prefix <= keys[n]
    requires forall n :: 0 <= n < |keys| && prefix <= keys[n] ==> lo <= n < hi
    ensures Among(view, keys[lo..hi]) == Starting(view, prefix)
  {
    forall k | k in view ensures k in keys[lo..hi] <==> prefix <= k {
      assert k in keys;
      var n :| 0 <= n < |keys| && keys[n] == k;
      if lo <= n < hi {
        assert keys[lo..hi][n - lo] == k;
      }
    }
  }

  // ---------------------------------------------------------------- reading rows

  /** Reading the primary index, directly or through the entries of a secondary one, shows this view. */
  ghost predicate Shows(p: map<Bytes, Row>, entries: Option<map<Bytes, Bytes>>, view: map<Bytes, Row>) {
    match entries
    case None => view == p
    case Some(cf) => view.Keys == cf.Keys && forall k :: k in cf ==> cf[k] in p && view[k] == p[cf[k]]
  }

  function RowAt(p: map<Bytes, Row>, entries: Option<map<Bytes, Bytes>>, k: Bytes,
                 ghost view: map<Bytes, Row>): (r: Row)
    requires Shows(p, entries, view) && k in view
    ensures r == view[k]
  {
    match entries
    case None => p[k]
    case Some(cf) => p[cf[k]]
  }

  /** At most one row, under exactly this entry. */
  method Get(p: map<Bytes, Row>, entries: Option<map<Bytes, Bytes>>, k: Bytes, ghost view: map<Bytes, Row>)
    returns (rows: seq<Row>)
    requires Shows(p, entries, view)
    ensures Represents(if k in view then map[k := view[k]] else map[], multiset(rows))
  {
    var there := match entries case None => k in p case Some(cf) => k in cf;
    if there {
      OneRow(k, view[k]);
      return [RowAt(p, entries, k, view)];
    }
    NoRow();
    return [];
  }

  /** The rows under these entries, in their order. */
  ghost function RowsUnder(view: map<Bytes, Row>, keys: seq<Bytes>): seq<Row>
    requires PartOf(view, keys)
  {
    seq(|keys|, i requires 0 <= i < |keys| => view[keys[i]])
  }

  ghost predicate PartOf(view: map<Bytes, Row>, keys: seq<Bytes>) {
    forall i :: 0 <= i < |keys| ==> keys[i] in view
  }

  lemma {:induction false} RowsUnderRepresent(view: map<Bytes, Row>, keys: seq<Bytes>)
    requires Distinct(keys) && PartOf(view, keys)
    ensures Represents(Among(view, keys), multiset(RowsUnder(view, keys)))
  {
    if keys == [] {
      NoRow();
      assert Among(view, keys) == map[];
    } else {
      var n := |keys| - 1;
      var front, k := keys[..n], keys[n];
      RowsUnderRepresent(view, front);
      assert keys == front + [k];
      assert Among(view, keys) == Among(view, front)[k := view[k]];
      PutRepresents(Among(view, front), multiset(RowsUnder(view, front)), k, view[k]);
      assert RowsUnder(view, keys) == RowsUnder(view, front) + [view[k]];
    }
  }

  lemma TransformedIffStarts(c: Codec, width: nat, ix: PIndex, view: map<Bytes, Row>, keys: seq<Bytes>, key: Key)
    requires CodecOk(c) && InBounds(ix.index.columns, width) && ViewOk(c, width, ix, view)
    requires Iterates(keys, view) && c.fits(key)
    ensures PrefixSeen(c.transform, keys, c.prefix(key))
  {
    forall j | 0 <= j < |keys|
      ensures c.transform(keys[j]) == Some(c.prefix(key)) <==> c.prefix(key) <= keys[j]
    {
      assert keys[j] in keys;
      StartsIffSamePrefix(c, ix, view[keys[j]], keys[j], key);
    }
  }

  /** The prefix extractor maps exactly the keys that start with the prefix to it. */
  ghost predicate PrefixSeen(transform: Bytes -> Option<Bytes>, keys: seq<Bytes>, prefix: Bytes) {
    forall j :: 0 <= j < |keys| ==> (transform(keys[j]) == Some(prefix) <==> prefix <= keys[j])
  }

  lemma PartOfIterator(view: map<Bytes, Row>, keys: seq<Bytes>, lo: nat, hi: nat)
    requires Iterates(keys, view) && lo <= hi <= |keys|
    ensures PartOf(view, keys[lo..hi])
  {
    forall i | 0 <= i < hi - lo ensures keys[lo..hi][i] in view {
      assert keys[lo + i] in keys;
    }
  }

  lemma RowsUnderSnoc(view: map<Bytes, Row>, keys: seq<Bytes>, lo: nat, j: nat)
    requires Iterates(keys, view) && lo <= j < |keys| && PartOf(view, keys[lo..j])
    ensures keys[j] in view && PartOf(view, keys[lo..j + 1])
    ensures RowsUnder(view, keys[lo..j + 1]) == RowsUnder(view, keys[lo..j]) + [view[keys[j]]]
  {
    PartOfIterator(view, keys, lo, j + 1);
    assert keys[lo..j + 1] == keys[lo..j] + [keys[j]];
    assert keys[lo..j + 1][j - lo] == keys[j];
  }

  lemma ScanFound(view: map<Bytes, Row>, keys: seq<Bytes>, prefix: Bytes, lo: nat, hi: nat)
    requires Iterates(keys, view) && lo <= hi <= |keys| && PartOf(view, keys[lo..hi])
    requires forall n :: 0 <= n < |keys| && prefix <= keys[n] ==> lo <= n
    requires forall n :: lo <= n < hi ==> prefix <= keys[n]
    requires hi < |keys| ==> LexLeq(prefix, keys[hi]) && !(prefix <= keys[hi])
    ensures Represents(Starting(view, prefix), multiset(RowsUnder(view, keys[lo..hi])))
  {
    if hi < |keys| {
      ScanIsComplete(keys, prefix, lo, hi);
    }
    RowsUnderRepresent(view, keys[lo..hi]);
    AmongIsStarting(view, keys, prefix, lo, hi);
  }

  /** Walks from the sought position while the prefix stays the same. */
  method Scan(transform: Bytes -> Option<Bytes>, p: map<Bytes, Row>, entries: Option<map<Bytes, Bytes>>,
              prefix: Bytes, keys: seq<Bytes>, ghost view: map<Bytes, Row>) returns (rows: seq<Row>)
    requires Shows(p, entries, view) && Iterates(keys, view) && PrefixSeen(transform, keys, prefix)
    ensures Represents(Starting(view, prefix), multiset(rows))
  {
    var lo := Seek(keys, prefix);
    rows := [];
    var j := lo;
    PartOfIterator(view, keys, lo, j);
    while j < |keys| && transform(keys[j]) == Some(prefix)
      invariant lo <= j <= |keys| && PartOf(view, keys[lo..j]) && rows == RowsUnder(view, keys[lo..j])
      invariant forall n :: lo <= n < j ==> prefix <= keys[n]
    {
      RowsUnderSnoc(view, keys, lo, j);
      rows := rows + [RowAt(p, entries, keys[j], view)];
      j := j + 1;
    }
    ScanFound(view, keys, prefix, lo, j);
  }

  /** All rows under a key: one read where the key identifies the row, else a scan. They are exactly the
      rows with that key if and only if no row with another key is returned. */
  method LookupVia(c: Codec, p: map<Bytes, Row>, entries: Option<map<Bytes, Bytes>>, ix: PIndex, key: Key,
                   keys: seq<Bytes>, ghost width: nat, ghost view: map<Bytes, Row>, ghost truth: Bag)
    returns (rows: seq<Row>)
    requires CodecOk(c) && InBounds(ix.index.columns, width) && ViewOk(c, width, ix, view) && Represents(view, truth)
    requires Shows(p, entries, view) && Iterates(keys, view) && c.fits(key)
    ensures ExactlyReturned(c, ix, key, multiset(rows), truth)
    ensures ExactlyMatching(multiset(rows), truth, ix.index.columns, key) <==> NoOtherReturned(c, ix, key, truth)
  {
    if ix.unique && !HasNull(key) {
      rows := Get(p, entries, c.prefix(key), view);
      AloneUnderKey(c, ix, view, key);
    } else {
      TransformedIffStarts(c, width, ix, view, keys, key);
      rows := Scan(c.transform, p, entries, c.prefix(key), keys, view);
      assert Starting(view, c.prefix(key)) == Matching(c, ix, key, view);
    }
    MatchingReturned(c, width, ix, view, truth, key, multiset(rows));
    ReturnedExactIff(c, ix, key, multiset(rows), truth);
  }

  // ---------------------------------------------------------------- late indices

  /** Among other rows of the table there is room for each of its rows. */
  lemma RoomAmongRest(c: Codec, schema: Schema, st: Store, truth: Bag, index: Index, part: map<Bytes, Row>, pk: Bytes)
    requires CodecOk(c) && Inv(c, schema, st, truth) && InBounds(index.columns, schema.width)
    requires pk in st.db.primary && pk !in part
    requires forall q :: q in part ==> q in st.db.primary && part[q] == st.db.primary[q]
    ensures RoomFor(PersistentIndex(schema, index), part, st.db.primary[pk])
  {
    var p := st.db.primary;
    var ix := PersistentIndex(schema, index);
    if ByKeyAlone(ix, p[pk]) {
      CheckedIndexIsUnique(schema, index.columns, truth);
      RepresentedRow(p, truth, pk);
      forall q | q in part ensures KeyOf(index.columns, part[q]) != KeyOf(index.columns, p[pk]) {
        RepresentedRow(p, truth, q);
        if SharesKey(index.columns, p[q], p[pk]) {
          TwoEntries(p, truth, q, pk);
        }
      }
    }
  }

  lemma TwoEntries(p: map<Bytes, Row>, truth: Bag, q: Bytes, pk: Bytes)
    requires Represents(p, truth) && q in p && pk in p && q != pk && p[q] == p[pk]
    ensures truth[p[pk]] >= 2
  {
    assert {q, pk} <= PksOf(p, p[pk]);
    var rest := PksOf(p, p[pk]) - {q, pk};
    assert PksOf(p, p[pk]) == rest + {q, pk};
    assert |{q, pk}| == 2;
  }

  function PutAll(cf: map<Bytes, Bytes>, batch: seq<(Bytes, Bytes)>): map<Bytes, Bytes> {
    if batch == [] then cf
    else PutAll(cf, batch[..|batch| - 1])[batch[|batch| - 1].0 := batch[|batch| - 1].1]
  }

  /** The keys of all rows of the table in these columns are of their types, and can be encoded. */
  ghost predicate TableFits(c: Codec, columns: seq<nat>, truth: Bag) {
    forall r :: r in truth ==>
      InBounds(columns, |r|) && c.fits(KeyOf(columns, r)) && c.typed(columns, KeyOf(columns, r))
  }

  /** The rows walked through so far leave room for the next one, whose key can be encoded. */
  ghost predicate RoomOnTheWay(c: Codec, ix: PIndex, p: map<Bytes, Row>, keys: seq<Bytes>) {
    forall n :: 0 <= n < |keys| ==>
      keys[n] in p && KeyFits(c, ix, p[keys[n]]) && RoomFor(ix, Among(p, keys[..n]), p[keys[n]])
  }

  lemma RoomEverywhere(c: Codec, schema: Schema, st: Store, truth: Bag, index: Index, keys: seq<Bytes>)
    requires CodecOk(c) && Inv(c, schema, st, truth) && InBounds(index.columns, schema.width)
    requires Iterates(keys, st.db.primary) && TableFits(c, index.columns, truth)
    ensures RoomOnTheWay(c, PersistentIndex(schema, index), st.db.primary, keys)
  {
    forall n | 0 <= n < |keys|
      ensures keys[n] in st.db.primary && |st.db.primary[keys[n]]| == schema.width
      ensures KeyFits(c, PersistentIndex(schema, index), st.db.primary[keys[n]])
      ensures RoomFor(PersistentIndex(schema, index), Among(st.db.primary, keys[..n]), st.db.primary[keys[n]])
    {
      assert keys[n] in keys;
      RepresentedRow(st.db.primary, truth, keys[n]);
      RoomAmongRest(c, schema, st, truth, index, Among(st.db.primary, keys[..n]), keys[n]);
    }
  }

  lemma AmongSnoc(p: map<Bytes, Row>, keys: seq<Bytes>, n: nat)
    requires n < |keys| && Distinct(keys) && keys[n] in p
    ensures keys[n] !in Among(p, keys[..n])
    ensures Among(p, keys[..n + 1]) == Among(p, keys[..n])[keys[n] := p[keys[n]]]
  {
    assert keys[..n + 1] == keys[..n] + [keys[n]];
  }

  lemma EntryAdded(c: Codec, ix: PIndex, cf: map<Bytes, Bytes>, p: map<Bytes, Row>, keys: seq<Bytes>, n: nat)
    requires CodecOk(c) && n < |keys| && Distinct(keys) && [] !in p && RoomOnTheWay(c, ix, p, keys)
    requires SecondaryOk(c, ix, cf, Among(p, keys[..n]))
    ensures SecondaryOk(c, ix, PutSecondary(c, ix, cf, keys[n], p[keys[n]]), Among(p, keys[..n + 1]))
  {
    AmongSnoc(p, keys, n);
    PutKeepsSecondary(c, ix, cf, Among(p, keys[..n]), keys[n], p[keys[n]]);
  }

  lemma PutAllSnoc(cf: map<Bytes, Bytes>, batch: seq<(Bytes, Bytes)>, k: Bytes, v: Bytes)
    ensures PutAll(cf, batch + [(k, v)]) == PutAll(cf, batch)[k := v]
  {
    assert (batch + [(k, v)])[..|batch|] == batch;
  }

  /** Builds an index over the rows already there, in batches of any positive size. */
  method BuildIndex(c: Codec, p: map<Bytes, Row>, ix: PIndex, keys: seq<Bytes>, batchSize: nat)
    returns (cf: map<Bytes, Bytes>)
    requires CodecOk(c) && Iterates(keys, p) && [] !in p && batchSize > 0 && RoomOnTheWay(c, ix, p, keys)
    ensures SecondaryOk(c, ix, cf, p)
  {
    cf := map[];
    var i := 0;
    while i < |keys|
      invariant i <= |keys| && SecondaryOk(c, ix, cf, Among(p, keys[..i]))
    {
      var batch: seq<(Bytes, Bytes)> := [];
      ghost var from := i;
      while i < |keys| && |batch| != batchSize
        invariant i == from + |batch| && i <= |keys|
        invariant SecondaryOk(c, ix, PutAll(cf, batch), Among(p, keys[..i]))
        decreases |keys| - i
      {
        var pk := keys[i];
        var row := p[pk];
        EntryAdded(c, ix, PutAll(cf, batch), p, keys, i);
        PutAllSnoc(cf, batch, SecondaryKey(c, ix, row, pk), pk);
        batch := batch + [(SecondaryKey(c, ix, row, pk), pk)];
        i := i + 1;
      }
      cf := PutAll(cf, batch);
    }
    assert Among(p, keys[..i]) == p;
  }

  /** The last index of `full` was there all along; `st` is the same store without it. */
  ghost predicate Extends(full: Store, st: Store, ix: PIndex) {
    full.indices == st.indices + [ix] && |st.indices| == |st.db.secondary| + 1 &&
    |full.db.secondary| == |full.indices| - 1 && full.db.primary == st.db.primary &&
    (forall i :: 0 <= i < |st.db.secondary| ==> full.db.secondary[i] == st.db.secondary[i]) &&
    full.epoch == st.epoch && full.seqNo == st.seqNo
  }

  lemma {:induction false} WritesExtend(c: Codec, secs: seq<PIndex>, ix: PIndex, full: Db, db: Db, ws: seq<RowWrite>)
    requires CodecOk(c) && WritesFit(secs, ws) && WritesFit(secs + [ix], ws)
    requires |db.secondary| == |secs| && |full.secondary| == |secs| + 1 && full.primary == db.primary
    requires forall i :: 0 <= i < |secs| ==> full.secondary[i] == db.secondary[i]
    ensures WriteAll(c, secs + [ix], full, ws).primary == WriteAll(c, secs, db, ws).primary
    ensures forall i :: 0 <= i < |secs| ==>
              WriteAll(c, secs + [ix], full, ws).secondary[i] == WriteAll(c, secs, db, ws).secondary[i]
    decreases ws
  {
    if ws != [] {
      WritesExtend(c, secs, ix, Write(c, secs + [ix], full, ws[0]), Write(c, secs, db, ws[0]), ws[1..]);
    }
  }

  /** The keys of the rows that are written can be encoded in this index. */
  ghost predicate OpFits(c: Codec, ix: PIndex, op: Op) {
    op.WriteBatch? ==> BatchFits(c, [ix], op.records)
  }

  lemma FitsOneMore(c: Codec, indices: seq<PIndex>, ix: PIndex, records: seq<Record>)
    requires BatchFits(c, indices, records) && BatchFits(c, [ix], records)
    ensures BatchFits(c, indices + [ix], records)
  {
    forall i | 0 <= i < |records| ensures KeysFit(c, indices + [ix], records[i].row) {
      assert KeyFits(c, [ix][0], records[i].row);
    }
  }

  /** One step, of the kind that both stores can make, keeps them alike. */
  lemma StepExtends(c: Codec, schema: Schema, full: Store, st: Store, truth: Bag, ix: PIndex, op: Op)
    requires CodecOk(c) && Inv(c, schema, full, truth) && Inv(c, schema, st, truth) && Extends(full, st, ix)
    requires !op.AddSecondary? && Enabled(c, schema, st, truth, op) && OpFits(c, ix, op)
    ensures Enabled(c, schema, full, truth, op)
    ensures Extends(Step(c, schema, full, truth, op), Step(c, schema, st, truth, op), ix)
  {
    assert full.indices[1..] == st.indices[1..] + [ix];
    match op
    case WriteBatch(records, ws) =>
      BatchRows(c, st.indices[0], schema.width, st.db.primary, st.epoch, st.seqNo, records, ws, full.indices[1..]);
      WritesExtend(c, st.indices[1..], ix, full.db, st.db, ws);
      FitsOneMore(c, st.indices, ix, records);
    case Reopen =>
  }

  lemma ExtendsByEntries(c: Codec, full: Store, st: Store, ix: PIndex, entries: map<Bytes, Bytes>)
    requires CodecOk(c) && Extends(full, st, ix)
    requires SecondaryOk(c, ix, full.db.secondary[|st.db.secondary|], st.db.primary)
    requires SecondaryOk(c, ix, entries, st.db.primary)
    ensures full == WithIndex(st, ix, entries)
  {
    SecondaryDetermined(c, ix, full.db.secondary[|st.db.secondary|], entries, st.db.primary);
    assert full.db.secondary == st.db.secondary + [entries];
  }

  lemma LastIndexOk(c: Codec, full: Store, st: Store, ix: PIndex)
    requires CodecOk(c) && Extends(full, st, ix) && SecondariesOk(c, full.indices[1..], full.db)
    ensures SecondaryOk(c, ix, full.db.secondary[|st.db.secondary|], st.db.primary)
  {
    assert full.indices[1..][|st.db.secondary|] == ix;
  }

  /** Whatever writes and restarts happen, adding an index afterwards gives the very store that has
      had this index from the start. */
  lemma {:induction false} LateIsEarly(c: Codec, schema: Schema, full: Store, st: Store, truth: Bag, index: Index,
                                       ops: seq<Op>, entries: map<Bytes, Bytes>)
    requires CodecOk(c) && Inv(c, schema, full, truth) && Inv(c, schema, st, truth)
    requires Extends(full, st, PersistentIndex(schema, index))
    requires forall i :: 0 <= i < |ops| ==> !ops[i].AddSecondary? && OpFits(c, PersistentIndex(schema, index), ops[i])
    requires Runs(c, schema, st, truth, ops)
    requires SecondaryOk(c, PersistentIndex(schema, index), entries, Run(c, schema, st, truth, ops).db.primary)
    ensures Runs(c, schema, full, truth, ops)
    ensures Run(c, schema, full, truth, ops) ==
            WithIndex(Run(c, schema, st, truth, ops), PersistentIndex(schema, index), entries)
    decreases ops
  {
    var ix := PersistentIndex(schema, index);
    if ops == [] {
      LastIndexOk(c, full, st, ix);
      ExtendsByEntries(c, full, st, ix, entries);
    } else {
      StepExtends(c, schema, full, st, truth, ix, ops[0]);
      StepKeepsInv(c, schema, full, truth, ops[0]);
      StepKeepsInv(c, schema, st, truth, ops[0]);
      LateIsEarly(c, schema, Step(c, schema, full, truth, ops[0]), Step(c, schema, st, truth, ops[0]),
                  StepTruth(truth, ops[0]), index, ops[1..], entries);
    }
  }
}

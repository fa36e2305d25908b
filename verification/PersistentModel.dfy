/** The persistent state: one primary index that holds the rows, and secondary indices that hold
    references to it, in an ordered key-value store. */
module PersistentModel {
  import opened Options
  import opened ByteStrings
  import opened StateTypes
  import opened KeyEncoding

  /** How the keys of a table become bytes: the prefix of all entries with a key, the stamp behind the key
      of a row that its key does not identify, the prefix extractor, which keys can be encoded at all, and
      which of them rows can have at given columns. Different keys can have one prefix. */
  datatype Codec = Codec(prefix: Key -> Bytes, stamp: (nat, nat) -> Bytes, transform: Bytes -> Option<Bytes>,
                         fits: Key -> bool, typed: (seq<nat>, Key) -> bool)

  /** Bytes that start with the prefix of a key tell the prefix and what follows it. */
  ghost predicate PrefixFree(c: Codec, k: Key, x: Bytes, l: Key, y: Bytes) {
    c.fits(k) && c.fits(l) && c.prefix(k) + x == c.prefix(l) + y ==> c.prefix(k) == c.prefix(l) && x == y
  }

  predicate HasNull(key: Key) {
    Null in key
  }

  /** A key that a row can have at these columns, without NULL. */
  ghost predicate Identifies(c: Codec, columns: seq<nat>, k: Key) {
    c.fits(k) && c.typed(columns, k) && !HasNull(k)
  }

  /** Such keys are told apart. */
  ghost predicate ToldApart(c: Codec, columns: seq<nat>, k: Key, l: Key) {
    Identifies(c, columns, k) && Identifies(c, columns, l) && c.prefix(k) == c.prefix(l) ==> k == l
  }

  ghost predicate StampInjective(c: Codec, e: nat, s: nat, e': nat, s': nat) {
    e < U64 && s < U64 && e' < U64 && s' < U64 && c.stamp(e, s) == c.stamp(e', s') ==> e == e' && s == s'
  }

  /** The laws hold for the keys that can be encoded. */
  ghost predicate CodecOk(c: Codec) {
    (forall k, x, l, y :: PrefixFree(c, k, x, l, y)) &&
    (forall columns, k, l :: ToldApart(c, columns, k, l)) &&
    (forall e: nat, s: nat, e': nat, s': nat :: StampInjective(c, e, s, e', s')) &&
    (forall k :: c.fits(k) ==> c.prefix(k) != []) &&
    (forall e: nat, s: nat :: e < U64 && s < U64 ==> c.stamp(e, s) != []) &&
    (forall k, x :: c.fits(k) ==> c.transform(c.prefix(k) + x) == Some(c.prefix(k)))
  }

  lemma Unambiguous(c: Codec, k: Key, x: Bytes, l: Key, y: Bytes)
    requires CodecOk(c) && c.fits(k) && c.fits(l) && c.prefix(k) + x == c.prefix(l) + y
    ensures c.prefix(k) == c.prefix(l) && x == y
  {
    assert PrefixFree(c, k, x, l, y);
  }

  datatype PIndex = PIndex(index: Index, unique: bool)

  /** The key of the row in this index is of the types of its columns, and can be encoded. */
  predicate KeyFits(c: Codec, ix: PIndex, row: Row) {
    InBounds(ix.index.columns, |row|) && c.fits(KeyOf(ix.index.columns, row)) &&
    c.typed(ix.index.columns, KeyOf(ix.index.columns, row))
  }

  /** So are all keys of the row. */
  ghost predicate KeysFit(c: Codec, indices: seq<PIndex>, row: Row) {
    forall i :: 0 <= i < |indices| ==> KeyFits(c, indices[i], row)
  }

  /** Rows are kept decoded; a secondary entry maps to the primary key of its row. */
  datatype Db = Db(primary: map<Bytes, Row>, secondary: seq<map<Bytes, Bytes>>)

  /** One row written to, or deleted from, every column family. */
  datatype RowWrite = Put(pk: Bytes, row: Row) | Del(pk: Bytes, row: Row)

  /** An index is unique if it contains all columns of some unique key. */
  predicate CheckIndexIsUnique(uniqueKeys: seq<seq<nat>>, columns: seq<nat>) {
    exists i :: 0 <= i < |uniqueKeys| && forall c :: c in uniqueKeys[i] ==> c in columns
  }

  /** The index identifies this row's entry by its key alone. */
  predicate ByKeyAlone(ix: PIndex, row: Row)
    requires InBounds(ix.index.columns, |row|)
  {
    ix.unique && !HasNull(KeyOf(ix.index.columns, row))
  }

  function SecondaryKey(c: Codec, ix: PIndex, row: Row, pk: Bytes): Bytes
    requires InBounds(ix.index.columns, |row|)
  {
    var key := KeyOf(ix.index.columns, row);
    if ByKeyAlone(ix, row) then c.prefix(key) else c.prefix(key) + pk
  }

  lemma SecondaryKeyShape(c: Codec, ix: PIndex, row: Row, pk: Bytes)
    requires InBounds(ix.index.columns, |row|)
    ensures SecondaryKey(c, ix, row, pk) ==
            c.prefix(KeyOf(ix.index.columns, row)) + if ByKeyAlone(ix, row) then [] else pk
  {
    var prefix := c.prefix(KeyOf(ix.index.columns, row));
    assert prefix + [] == prefix;
  }

  /** Two rows share a secondary key only if they are both identified by the same key alone, or are
      the same entry with the same bytes of a key. */
  lemma SecondaryKeysClash(c: Codec, ix: PIndex, row: Row, pk: Bytes, row': Row, pk': Bytes)
    requires CodecOk(c) && KeyFits(c, ix, row) && KeyFits(c, ix, row')
    requires pk != [] && pk' != []
    requires SecondaryKey(c, ix, row, pk) == SecondaryKey(c, ix, row', pk')
    ensures ByKeyAlone(ix, row) <==> ByKeyAlone(ix, row')
    ensures ByKeyAlone(ix, row) ==> KeyOf(ix.index.columns, row) == KeyOf(ix.index.columns, row')
    ensures !ByKeyAlone(ix, row) ==>
              pk == pk' && c.prefix(KeyOf(ix.index.columns, row)) == c.prefix(KeyOf(ix.index.columns, row'))
  {
    SecondaryKeyShape(c, ix, row, pk);
    SecondaryKeyShape(c, ix, row', pk');
    Unambiguous(c, KeyOf(ix.index.columns, row), if ByKeyAlone(ix, row) then [] else pk,
                KeyOf(ix.index.columns, row'), if ByKeyAlone(ix, row') then [] else pk');
    assert ToldApart(c, ix.index.columns, KeyOf(ix.index.columns, row), KeyOf(ix.index.columns, row'));
  }

  // ---------------------------------------------------------------- the effect of writes

  ghost predicate Fits(indices: seq<PIndex>, width: nat) {
    forall i :: 0 <= i < |indices| ==> InBounds(indices[i].index.columns, width)
  }

  function PutSecondary(c: Codec, ix: PIndex, cf: map<Bytes, Bytes>, pk: Bytes, row: Row): map<Bytes, Bytes>
    requires InBounds(ix.index.columns, |row|)
  {
    cf[SecondaryKey(c, ix, row, pk) := pk]
  }

  function DelSecondary(c: Codec, ix: PIndex, cf: map<Bytes, Bytes>, pk: Bytes, row: Row): map<Bytes, Bytes>
    requires InBounds(ix.index.columns, |row|)
  {
    cf - {SecondaryKey(c, ix, row, pk)}
  }

  ghost function WriteSecondary(c: Codec, ix: PIndex, cf: map<Bytes, Bytes>, w: RowWrite): map<Bytes, Bytes>
    requires CodecOk(c) && InBounds(ix.index.columns, |w.row|)
  {
    match w
    case Put(pk, row) => PutSecondary(c, ix, cf, pk, row)
    case Del(pk, row) => DelSecondary(c, ix, cf, pk, row)
  }

  function WritePrimary(p: map<Bytes, Row>, w: RowWrite): map<Bytes, Row> {
    match w
    case Put(pk, row) => p[pk := row]
    case Del(pk, row) => p - {pk}
  }

  /** The secondary indices `secs` are the indices after the primary one. */
  ghost function Write(c: Codec, secs: seq<PIndex>, db: Db, w: RowWrite): Db
    requires CodecOk(c) && Fits(secs, |w.row|) && |db.secondary| == |secs|
  {
    Db(WritePrimary(db.primary, w),
       seq(|secs|, i requires 0 <= i < |secs| => WriteSecondary(c, secs[i], db.secondary[i], w)))
  }

  // ---------------------------------------------------------------- secondary indices

  /** Every row of the primary index has its entry, and every entry is that of such a row. The keys of
      the rows can be encoded. */
  ghost predicate SecondaryOk(c: Codec, ix: PIndex, cf: map<Bytes, Bytes>, p: map<Bytes, Row>)
    requires CodecOk(c)
  {
    (forall pk :: pk in p ==>
       KeyFits(c, ix, p[pk]) &&
       SecondaryKey(c, ix, p[pk], pk) in cf && cf[SecondaryKey(c, ix, p[pk], pk)] == pk) &&
    (forall k :: k in cf ==>
       cf[k] in p && InBounds(ix.index.columns, |p[cf[k]]|) && k == SecondaryKey(c, ix, p[cf[k]], cf[k]))
  }

  /** The primary index determines the secondary one. */
  lemma SecondaryDetermined(c: Codec, ix: PIndex, cf: map<Bytes, Bytes>, cf': map<Bytes, Bytes>, p: map<Bytes, Row>)
    requires CodecOk(c) && SecondaryOk(c, ix, cf, p) && SecondaryOk(c, ix, cf', p)
    ensures cf == cf'
  {
    forall k | k in cf ensures k in cf' && cf'[k] == cf[k] {
      assert cf[k] in p;
    }
    forall k | k in cf' ensures k in cf {
      assert cf'[k] in p;
    }
  }

  /** A row can be added next to these rows: no entry of the index is overwritten. */
  ghost predicate RoomFor(ix: PIndex, p: map<Bytes, Row>, row: Row)
    requires InBounds(ix.index.columns, |row|)
  {
    ByKeyAlone(ix, row) ==>
      forall pk :: pk in p ==>
        InBounds(ix.index.columns, |p[pk]|) && KeyOf(ix.index.columns, p[pk]) != KeyOf(ix.index.columns, row)
  }

  lemma EntryIsFresh(c: Codec, ix: PIndex, cf: map<Bytes, Bytes>, p: map<Bytes, Row>, pk: Bytes, row: Row)
    requires CodecOk(c) && SecondaryOk(c, ix, cf, p) && KeyFits(c, ix, row)
    requires pk !in p && pk != [] && [] !in p && RoomFor(ix, p, row)
    ensures SecondaryKey(c, ix, row, pk) !in cf
  {
    var sk := SecondaryKey(c, ix, row, pk);
    if sk in cf {
      SecondaryKeysClash(c, ix, row, pk, p[cf[sk]], cf[sk]);
    }
  }

  lemma PutKeepsSecondary(c: Codec, ix: PIndex, cf: map<Bytes, Bytes>, p: map<Bytes, Row>, pk: Bytes, row: Row)
    requires CodecOk(c) && SecondaryOk(c, ix, cf, p) && KeyFits(c, ix, row)
    requires pk !in p && pk != [] && [] !in p && RoomFor(ix, p, row)
    ensures SecondaryKey(c, ix, row, pk) !in cf
    ensures SecondaryOk(c, ix, PutSecondary(c, ix, cf, pk, row), p[pk := row])
  {
    EntryIsFresh(c, ix, cf, p, pk, row);
  }

  lemma DelKeepsSecondary(c: Codec, ix: PIndex, cf: map<Bytes, Bytes>, p: map<Bytes, Row>, pk: Bytes)
    requires CodecOk(c) && SecondaryOk(c, ix, cf, p) && pk in p
    ensures InBounds(ix.index.columns, |p[pk]|)
    ensures SecondaryOk(c, ix, DelSecondary(c, ix, cf, pk, p[pk]), p - {pk})
  {
    var cf' := DelSecondary(c, ix, cf, pk, p[pk]);
    forall q | q in p - {pk}
      ensures SecondaryKey(c, ix, p[q], q) in cf' && cf'[SecondaryKey(c, ix, p[q], q)] == q
    {
      assert cf[SecondaryKey(c, ix, p[q], q)] == q;
    }
  }
}

/** The key encoding of the store meets the laws that its invariants rest on. */
module PersistentCodec {
  import opened Options
  import opened ByteStrings
  import opened StateTypes
  import opened KeyEncoding
  import opened PointKeys
  import opened PersistentModel

  function SizedKey(bytes: Bytes): Bytes {
    if |bytes| < U64 then KeyPrefix(bytes) else []
  }

  /** `(epoch, seq)` behind a key. */
  function Stamp(epoch: nat, seqNo: nat): Bytes {
    if epoch < U64 && seqNo < U64 then EncodeVarint(epoch) + EncodeVarint(seqNo) else []
  }

  /** `serialize_key` and `prefix_transform` over a serializer of key values. A key can be encoded if
      the serializer takes it and the size of its bytes has 64 bits. */
  function KeyCodec(keyBytes: Key -> Bytes, takes: Key -> bool, typed: (seq<nat>, Key) -> bool): Codec {
    Codec(k => SizedKey(keyBytes(k)), (e, s) => Stamp(e, s), b => PrefixTransform(b),
          k => takes(k) && |keyBytes(k)| < U64, typed)
  }

  lemma StampsInjective(e: nat, s: nat, e': nat, s': nat)
    requires e < U64 && s < U64 && e' < U64 && s' < U64 && Stamp(e, s) == Stamp(e', s')
    ensures e == e' && s == s'
  {
    VarintPrefixFree(e, e', EncodeVarint(s), EncodeVarint(s'));
    assert EncodeVarint(s) + [] == EncodeVarint(s') + [];
    VarintPrefixFree(s, s', [], []);
  }

  /** The epoch is read first, then the number. */
  lemma StampReads(e: nat, s: nat, x: Bytes)
    requires e < U64 && s < U64
    ensures DecodeVarint(Stamp(e, s) + x) == Some(e)
    ensures |EncodeVarint(e)| <= |Stamp(e, s)| && DecodeVarint(Stamp(e, s)[|EncodeVarint(e)|..] + x) == Some(s)
  {
    Regroup(EncodeVarint(e), EncodeVarint(s), x);
    VarintRoundTrip(e, EncodeVarint(s) + x);
    assert Stamp(e, s)[|EncodeVarint(e)|..] == EncodeVarint(s);
    VarintRoundTrip(s, x);
  }

  lemma VarintNotEmpty(n: nat)
    requires n < U64
    ensures EncodeVarint(n) != []
  {
  }

  /** Keys that the serializer takes and rows can have at the same columns, without NULL. */
  ghost predicate BytesTell(keyBytes: Key -> Bytes, takes: Key -> bool, typed: (seq<nat>, Key) -> bool,
                            columns: seq<nat>, k: Key, l: Key) {
    takes(k) && takes(l) && typed(columns, k) && typed(columns, l) && !HasNull(k) && !HasNull(l) ==>
      (keyBytes(k) == keyBytes(l) ==> k == l)
  }

  /** Such keys are told apart. */
  ghost predicate TellsApart(keyBytes: Key -> Bytes, takes: Key -> bool, typed: (seq<nat>, Key) -> bool) {
    forall columns, k, l :: BytesTell(keyBytes, takes, typed, columns, k, l)
  }

  /** Prefixes tell the bytes of keys, whatever follows. */
  lemma PrefixesTell(a: Bytes, x: Bytes, b: Bytes, y: Bytes)
    requires |a| < U64 && |b| < U64 && SizedKey(a) + x == SizedKey(b) + y
    ensures a == b && x == y
  {
    StoredKeyInjective(a, x, b, y);
  }

  lemma SamePrefixIff(a: Bytes, b: Bytes)
    requires |a| < U64 && |b| < U64
    ensures SizedKey(a) == SizedKey(b) <==> a == b
  {
    if SizedKey(a) == SizedKey(b) {
      assert SizedKey(a) + [] == SizedKey(b) + [];
      PrefixesTell(a, [], b, []);
    }
  }

  /** Any serializer that tells such keys apart makes a lawful codec. */
  lemma KeyCodecOk(keyBytes: Key -> Bytes, takes: Key -> bool, typed: (seq<nat>, Key) -> bool)
    requires TellsApart(keyBytes, takes, typed)
    ensures CodecOk(KeyCodec(keyBytes, takes, typed))
  {
    var c := KeyCodec(keyBytes, takes, typed);
    forall k, x, l, y ensures PrefixFree(c, k, x, l, y) {
      if c.fits(k) && c.fits(l) && c.prefix(k) + x == c.prefix(l) + y {
        PrefixesTell(keyBytes(k), x, keyBytes(l), y);
      }
    }
    forall columns, k, l ensures ToldApart(c, columns, k, l) {
      if Identifies(c, columns, k) && Identifies(c, columns, l) && c.prefix(k) == c.prefix(l) {
        SamePrefixIff(keyBytes(k), keyBytes(l));
        assert BytesTell(keyBytes, takes, typed, columns, k, l);
      }
    }
    forall e: nat, s: nat, e': nat, s': nat ensures StampInjective(c, e, s, e', s') {
      if e < U64 && s < U64 && e' < U64 && s' < U64 && c.stamp(e, s) == c.stamp(e', s') {
        StampsInjective(e, s, e', s');
      }
    }
    forall k | c.fits(k) ensures c.prefix(k) != [] {
      VarintNotEmpty(|keyBytes(k)|);
    }
    forall e: nat, s: nat | e < U64 && s < U64 ensures c.stamp(e, s) != [] {
      VarintNotEmpty(e);
    }
    forall k, x | c.fits(k) ensures c.transform(c.prefix(k) + x) == Some(c.prefix(k)) {
      assert c.prefix(k) + x == StoredKey(keyBytes(k), x);
      PrefixOfStoredKey(keyBytes(k), x);
    }
  }

  // ---------------------------------------------------------------- the serializer of the source

  /** The encoding of keys of a table with these column types. */
  function SourceCodec(types: nat -> ColumnType): Codec {
    KeyCodec(PointKeyBytes, AllSerializable, (columns, k) => TypedKey(types, columns, k))
  }

  lemma SourcePrefix(types: nat -> ColumnType, k: Key)
    requires SourceCodec(types).fits(k)
    ensures |PointKeyBytes(k)| < U64 && SourceCodec(types).prefix(k) == KeyPrefix(PointKeyBytes(k))
  {
    var bytes := PointKeyBytes(k);
    assert SourceCodec(types).prefix(k) == SizedKey(bytes) == KeyPrefix(bytes);
  }

  /** The laws hold for the source's own serializer, on every table. */
  lemma SourceCodecOk(types: nat -> ColumnType)
    ensures CodecOk(SourceCodec(types))
  {
    var typed: (seq<nat>, Key) -> bool := (columns, k) => TypedKey(types, columns, k);
    forall columns, k, l ensures BytesTell(PointKeyBytes, AllSerializable, typed, columns, k, l) {
      if AllSerializable(k) && AllSerializable(l) && typed(columns, k) && typed(columns, l) && !HasNull(k) &&
         !HasNull(l) && PointKeyBytes(k) == PointKeyBytes(l) {
        SameBytesIff(types, columns, k, l);
        AlikeWithoutNull(k, l);
      }
    }
    KeyCodecOk(PointKeyBytes, AllSerializable, typed);
  }

  /** Its prefixes are equal exactly for keys that are alike. */
  lemma SourcePrefixIff(types: nat -> ColumnType, columns: seq<nat>, k: Key, l: Key)
    requires TypedKey(types, columns, k) && TypedKey(types, columns, l)
    requires SourceCodec(types).fits(k) && SourceCodec(types).fits(l)
    ensures SourceCodec(types).prefix(k) == SourceCodec(types).prefix(l) <==> Alike(k, l)
  {
    SamePrefixIff(PointKeyBytes(k), PointKeyBytes(l));
    SameBytesIff(types, columns, k, l);
  }
}

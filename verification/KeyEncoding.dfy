/** The byte encoding of persisted keys: `(size, key, extra)` with a variable-length size. */
module KeyEncoding {
  import opened Options
  import opened ByteStrings

  const U64: nat := 0x1_0000_0000_0000_0000

  // ---------------------------------------------------------------- fixed-width integers

  function Pow256(k: nat): (p: nat)
    ensures p > 0
  {
    if k == 0 then 1 else 256 * Pow256(k - 1)
  }

  /** The low `k` bytes of `n`, least significant first. */
  function LittleEndian(n: nat, k: nat): (b: Bytes)
    ensures |b| == k
  {
    if k == 0 then [] else [n % 256] + LittleEndian(n / 256, k - 1)
  }

  function FromLittleEndian(b: Bytes): nat {
    if b == [] then 0 else b[0] + 256 * FromLittleEndian(b[1..])
  }

  lemma {:induction false} LittleEndianRoundTrip(n: nat, k: nat)
    requires n < Pow256(k)
    ensures FromLittleEndian(LittleEndian(n, k)) == n
  {
    if k > 0 {
      assert n / 256 < Pow256(k - 1);
      LittleEndianRoundTrip(n / 256, k - 1);
      assert LittleEndian(n, k)[1..] == LittleEndian(n / 256, k - 1);
    }
  }

  lemma PowersOf256()
    ensures Pow256(2) == 0x1_0000 && Pow256(4) == 0x1_0000_0000 && Pow256(8) == U64
  {
    assert Pow256(1) == 256;
    assert Pow256(2) == 0x1_0000;
    assert Pow256(3) == 0x100_0000;
    assert Pow256(4) == 0x1_0000_0000;
    assert Pow256(5) == 0x100_0000_0000;
    assert Pow256(6) == 0x1_0000_0000_0000;
    assert Pow256(7) == 0x100_0000_0000_0000;
  }

  // ---------------------------------------------------------------- variable-width integers

  /** How many bytes follow the marker byte. */
  function Width(marker: Byte): nat {
    if marker == 251 then 2 else if marker == 252 then 4 else if marker == 253 then 8 else 0
  }

  function EncodeVarint(n: nat): (b: Bytes)
    requires n < U64
    ensures b != []
  {
    if n <= 250 then [n]
    else if n < 0x1_0000 then [251] + LittleEndian(n, 2)
    else if n < 0x1_0000_0000 then [252] + LittleEndian(n, 4)
    else [253] + LittleEndian(n, 8)
  }

  /** The integer at the front of `b`; bytes may follow it. */
  function DecodeVarint(b: Bytes): Option<nat> {
    if b == [] || b[0] >= 254 then None
    else if b[0] <= 250 then Some(b[0])
    else if |b| < 1 + Width(b[0]) then None
    else Some(FromLittleEndian(b[1..1 + Width(b[0])]))
  }

  lemma VarintRoundTrip(n: nat, rest: Bytes)
    requires n < U64
    ensures DecodeVarint(EncodeVarint(n) + rest) == Some(n)
  {
    PowersOf256();
    var e := EncodeVarint(n);
    var b := e + rest;
    if n > 250 {
      var w := Width(e[0]);
      assert |e| == 1 + w;
      assert b[0] == e[0] && b[1..1 + w] == e[1..];
      assert e[1..] == LittleEndian(n, w);
      LittleEndianRoundTrip(n, w);
    }
  }

  lemma SplitConcat(a: Bytes, x: Bytes, b: Bytes, y: Bytes)
    requires |a| == |b| && a + x == b + y
    ensures a == b && x == y
  {
    assert a == (a + x)[..|a|] && x == (a + x)[|a|..];
    assert b == (b + y)[..|b|] && y == (b + y)[|b|..];
  }

  /** Two integers that could both start the same bytes are the same: the encoding is prefix-free. */
  lemma VarintPrefixFree(m: nat, n: nat, x: Bytes, y: Bytes)
    requires m < U64 && n < U64
    requires EncodeVarint(m) + x == EncodeVarint(n) + y
    ensures m == n && x == y
  {
    VarintRoundTrip(m, x);
    VarintRoundTrip(n, y);
    SplitConcat(EncodeVarint(m), x, EncodeVarint(n), y);
  }

  // ---------------------------------------------------------------- keys

  /** `(size, key)`: the part of a stored key that a lookup knows. */
  function KeyPrefix(key: Bytes): Bytes
    requires |key| < U64
  {
    EncodeVarint(|key|) + key
  }

  /** `serialize_key(k, extra)` for a serialized key and extra part. */
  function StoredKey(key: Bytes, extra: Bytes): Bytes
    requires |key| < U64
  {
    EncodeVarint(|key|) + key + extra
  }

  lemma StoredKeyAssoc(key: Bytes, extra: Bytes)
    requires |key| < U64
    ensures StoredKey(key, extra) == EncodeVarint(|key|) + (key + extra)
  {
  }

  lemma StoredIsPrefixed(key: Bytes, extra: Bytes)
    requires |key| < U64
    ensures StoredKey(key, extra) == KeyPrefix(key) + extra
  {
  }

  lemma StoredKeyInjective(key: Bytes, extra: Bytes, key': Bytes, extra': Bytes)
    requires |key| < U64 && |key'| < U64
    requires StoredKey(key, extra) == StoredKey(key', extra')
    ensures key == key' && extra == extra'
  {
    StoredKeyAssoc(key, extra);
    StoredKeyAssoc(key', extra');
    VarintPrefixFree(|key|, |key'|, key + extra, key' + extra');
    SplitConcat(key, extra, key', extra');
  }

  /** A stored key starts with the prefix of exactly one key, its own. */
  lemma StartsWithOwnPrefix(key: Bytes, extra: Bytes, other: Bytes)
    requires |key| < U64 && |other| < U64
    ensures KeyPrefix(other) <= StoredKey(key, extra) <==> other == key
  {
    var s, prefix := StoredKey(key, extra), KeyPrefix(other);
    StoredIsPrefixed(key, extra);
    if prefix <= s {
      var rest := s[|prefix|..];
      assert s == prefix + rest;
      StoredIsPrefixed(other, rest);
      StoredKeyInjective(key, extra, other, rest);
    }
  }

  const META_KEY: Bytes := [109, 101, 116, 97]

  /** `prefix_transform`: the key without its extra part. `None` where the code panics. */
  function PrefixTransform(key: Bytes): Option<Bytes> {
    if key == META_KEY then Some(key)
    else match DecodeVarint(key)
      case None => None
      case Some(size) =>
        if size >= U64 then None
        else
          var prefixLen := |EncodeVarint(size)| + size;
          if prefixLen <= |key| then Some(key[..prefixLen]) else None
  }

  lemma StoredKeyIsNotMeta(key: Bytes, extra: Bytes)
    requires |key| < U64
    ensures StoredKey(key, extra) != META_KEY
  {
    VarintRoundTrip(|key|, key + extra);
    StoredKeyAssoc(key, extra);
    assert DecodeVarint(META_KEY) == Some(109);
  }

  lemma PrefixOfStoredKey(key: Bytes, extra: Bytes)
    requires |key| < U64
    ensures PrefixTransform(StoredKey(key, extra)) == Some(KeyPrefix(key))
  {
    var s := StoredKey(key, extra);
    StoredKeyIsNotMeta(key, extra);
    VarintRoundTrip(|key|, key + extra);
    StoredKeyAssoc(key, extra);
    assert s[..|EncodeVarint(|key|)| + |key|] == KeyPrefix(key);
  }

  /** For a stored key, starting with a prefix and being transformed to it are the same. */
  lemma StartsWithIffTransformed(key: Bytes, extra: Bytes, other: Bytes)
    requires |key| < U64 && |other| < U64
    ensures KeyPrefix(other) <= StoredKey(key, extra) <==>
            PrefixTransform(StoredKey(key, extra)) == Some(KeyPrefix(other))
  {
    StartsWithOwnPrefix(key, extra, other);
    PrefixOfStoredKey(key, extra);
    if KeyPrefix(key) == KeyPrefix(other) {
      VarintPrefixFree(|key|, |other|, key, other);
    }
  }

  // ---------------------------------------------------------------- byte order

  /** The byte order of the store: `a` sorts no later than `b`. */
  predicate LexLeq(a: Bytes, b: Bytes) {
    a == [] || (b != [] && (a[0] < b[0] || (a[0] == b[0] && LexLeq(a[1..], b[1..]))))
  }

  lemma {:induction false} PrefixSortsFirst(a: Bytes, x: Bytes)
    ensures LexLeq(a, a + x)
  {
    if a != [] {
      assert (a + x)[1..] == a[1..] + x;
      PrefixSortsFirst(a[1..], x);
    }
  }

  /** Strings of which neither starts with the other keep their order whatever is appended. */
  lemma {:induction false} AppendingKeepsOrder(a: Bytes, b: Bytes, x: Bytes, y: Bytes)
    requires !(a <= b) && !(b <= a)
    ensures LexLeq(a + x, b + y) <==> LexLeq(a, b)
  {
    if a[0] == b[0] {
      assert (a + x)[1..] == a[1..] + x && (b + y)[1..] == b[1..] + y;
      assert a == [a[0]] + a[1..] && b == [b[0]] + b[1..];
      AppendingKeepsOrder(a[1..], b[1..], x, y);
    }
  }

  /** No prefix starts with another one. */
  lemma PrefixesIndependent(key: Bytes, other: Bytes)
    requires |key| < U64 && |other| < U64 && key != other
    ensures !(KeyPrefix(key) <= KeyPrefix(other))
  {
    assert KeyPrefix(other) == StoredKey(other, []);
    StartsWithOwnPrefix(other, [], key);
  }

  /** The four laws that RocksDB asks of a prefix extractor, for all stored keys: a key starts with
      its prefix, sorts no earlier than it, order of keys is kept by their prefixes, and a prefix is
      its own prefix. */
  lemma PrefixExtractorLaws(key: Bytes, extra: Bytes, key': Bytes, extra': Bytes)
    requires |key| < U64 && |key'| < U64
    ensures var k, k' := StoredKey(key, extra), StoredKey(key', extra');
            PrefixTransform(k).Some? && PrefixTransform(k').Some? &&
            var p, p' := PrefixTransform(k).value, PrefixTransform(k').value;
            p <= k && LexLeq(p, k) && (LexLeq(k, k') ==> LexLeq(p, p')) && PrefixTransform(p) == Some(p)
  {
    PrefixOfStoredKey(key, extra);
    PrefixOfStoredKey(key', extra');
    var p, p' := KeyPrefix(key), KeyPrefix(key');
    assert StoredKey(key, extra) == p + extra && StoredKey(key', extra') == p' + extra';
    PrefixSortsFirst(p, extra);
    assert p == StoredKey(key, []);
    PrefixOfStoredKey(key, []);
    if key == key' {
      assert p + [] == p;
      PrefixSortsFirst(p, []);
    } else {
      PrefixesIndependent(key, key');
      PrefixesIndependent(key', key);
      AppendingKeepsOrder(p, p', extra, extra');
    }
  }
}

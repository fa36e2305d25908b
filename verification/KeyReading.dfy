/** Reading a stored key back, as the comparators of ordered indices do. They read every value with its variant,
    which texts in keys of several columns do not have. */
module KeyReading {
  import opened Options
  import opened ByteStrings
  import opened StateTypes
  import opened KeyEncoding
  import opened PointKeys
  import opened PersistentModel
  import opened PersistentRange
  import opened PersistentCodec

  /** What is read from the front of some bytes: a value, and what is left. `Outside` is a kind of value that
      this model leaves out, or a failure to read one; `Unreadable` is where the comparator panics. */
  datatype Parsed<T> = Parsed(value: T, rest: Bytes) | Outside | Unreadable

  function ParseVarint(b: Bytes): Parsed<nat> {
    match DecodeVarint(b)
    case None => Unreadable
    case Some(n) => Parsed(n, b[1 + Width(b[0])..])
  }

  function UnZigZag(n: nat): int {
    if n % 2 == 0 then n / 2 else -(n + 1) / 2
  }

  /** A number of up to 128 bits; those of more than 64 bits are left out. */
  function ParseNumber(b: Bytes): Parsed<DfValue> {
    if b != [] && b[0] == 254 then Outside
    else match ParseVarint(b)
      case Parsed(n, rest) => Parsed(Int(UnZigZag(n)), rest)
      case _ => Unreadable
  }

  predicate Ascii(b: Bytes) {
    forall i :: 0 <= i < |b| ==> b[i] < 128
  }

  function Chars(b: Bytes): string
    requires Ascii(b)
  {
    seq(|b|, i requires 0 <= i < |b| => b[i] as char)
  }

  function ParseChars(b: Bytes): Parsed<DfValue> {
    match ParseVarint(b)
    case Parsed(n, rest) =>
      if n > |rest| then Unreadable
      else if Ascii(rest[..n]) then Parsed(Text(Chars(rest[..n])), rest[n..])
      else Outside
    case _ => Unreadable
  }

  /** A collation, of which there are two, and the characters. */
  function ParseText(b: Bytes): Parsed<DfValue> {
    match ParseVarint(b)
    case Parsed(collation, rest) =>
      if collation == 0 then ParseChars(rest) else if collation == 1 then Outside else Unreadable
    case _ => Unreadable
  }

  /** The number of a variant, of which there are twelve, and what it holds. */
  function ParseValue(b: Bytes): Parsed<DfValue> {
    match ParseVarint(b)
    case Parsed(variant, rest) =>
      if variant == 0 then Parsed(Null, rest)
      else if variant == 1 then ParseNumber(rest)
      else if variant == 3 then ParseText(rest)
      else if variant < 12 then Outside
      else Unreadable
    case _ => Unreadable
  }

  /** Values one after the other, each read by `one`. */
  function ParseValues(one: Bytes -> Parsed<DfValue>, n: nat, b: Bytes): Parsed<Key> {
    if n == 0 then Parsed([], b)
    else match one(b)
      case Parsed(v, rest) =>
        (match ParseValues(one, n - 1, rest)
         case Parsed(k, rest') => Parsed([v] + k, rest')
         case Outside => Outside
         case Unreadable => Unreadable)
      case Outside => Outside
      case Unreadable => Unreadable
  }

  /** A tuple of up to six values, or a sequence with its length in front. */
  function ParseKey(arity: nat, b: Bytes): Parsed<Key> {
    if arity <= 6 then ParseValues(ParseValue, arity, b)
    else match ParseVarint(b)
      case Parsed(n, rest) => ParseValues(ParseValue, n, rest)
      case _ => Unreadable
  }

  /** `deserialize_key`: the size of a key, and the key. Bytes may follow. */
  function ParseEntry(arity: nat, b: Bytes): Parsed<(nat, Key)> {
    match ParseVarint(b)
    case Parsed(size, rest) =>
      (match ParseKey(arity, rest)
       case Parsed(k, rest') => Parsed((size, k), rest')
       case Outside => Outside
       case Unreadable => Unreadable)
    case _ => Unreadable
  }

  /** The key that the comparator compares, and the bytes after the size of the key. */
  function SplitEntry(arity: nat, b: Bytes): (Key, Bytes) {
    match ParseEntry(arity, b)
    case Parsed((size, k), _) =>
      var rest := ParseVarint(b).rest;
      (k, if size <= |rest| then rest[size..] else [])
    case _ => ([], [])
  }

  function SourceSplit(arity: nat): Splitter {
    b => SplitEntry(arity, b)
  }

  // ---------------------------------------------------------------- what is read back

  lemma ParseVarintBack(n: nat, x: Bytes)
    requires n < U64
    ensures ParseVarint(EncodeVarint(n) + x) == Parsed(n, x)
  {
    VarintRoundTrip(n, x);
    var e := EncodeVarint(n);
    assert |e| == 1 + Width(e[0]);
    assert (e + x)[|e|..] == x;
  }

  lemma CharsBack(s: string)
    requires Serializable(Text(s))
    ensures Ascii(TextBytes(s)) && Chars(TextBytes(s)) == s
  {
  }

  lemma ParseCharsBack(s: string, x: Bytes)
    requires Serializable(Text(s))
    ensures ParseChars(SizedText(s) + x) == Parsed(Text(s), x)
  {
    Regroup(EncodeVarint(|s|), TextBytes(s), x);
    ParseVarintBack(|s|, TextBytes(s) + x);
    var rest := TextBytes(s) + x;
    assert rest[..|s|] == TextBytes(s) && rest[|s|..] == x;
    CharsBack(s);
  }

  lemma ParseSmall(n: nat, rest: Bytes)
    requires n <= 250
    ensures ParseVarint([n] + rest) == Parsed(n, rest)
  {
    assert ([n] + rest)[1..] == rest;
  }

  lemma ParseNumberBack(i: int, x: Bytes)
    requires Serializable(Int(i))
    ensures ParseNumber(EncodeVarint(ZigZag(i)) + x) == Parsed(Int(i), x)
  {
    var e := EncodeVarint(ZigZag(i));
    assert e[0] <= 253;
    ParseVarintBack(ZigZag(i), x);
    FirstOf(e, x);
    ParseNumberOf(e + x, ZigZag(i), x);
    UnZigZagBack(i);
  }

  lemma FirstOf(e: Bytes, x: Bytes)
    requires e != []
    ensures e + x != [] && (e + x)[0] == e[0]
  {
  }

  lemma ParseNumberOf(b: Bytes, n: nat, x: Bytes)
    requires b != [] && b[0] != 254 && ParseVarint(b) == Parsed(n, x)
    ensures ParseNumber(b) == Parsed(Int(UnZigZag(n)), x)
  {
  }

  lemma UnZigZagBack(i: int)
    ensures UnZigZag(ZigZag(i)) == i
  {
  }

  lemma ParseTextBack(s: string, x: Bytes)
    requires Serializable(Text(s))
    ensures ParseText([0] + (SizedText(s) + x)) == Parsed(Text(s), x)
  {
    ParseSmall(0, SizedText(s) + x);
    ParseCharsBack(s, x);
  }

  /** What follows the number of a variant decides. */
  lemma ParseVariant(variant: nat, rest: Bytes)
    requires variant <= 3
    ensures ParseValue([variant] + rest) ==
            if variant == 0 then Parsed(Null, rest)
            else if variant == 1 then ParseNumber(rest)
            else if variant == 3 then ParseText(rest)
            else Outside
  {
    ParseSmall(variant, rest);
  }

  lemma ParseIntBack(i: int, x: Bytes)
    requires Serializable(Int(i))
    ensures ParseValue([1] + (EncodeVarint(ZigZag(i)) + x)) == Parsed(Int(i), x)
  {
    ParseVariant(1, EncodeVarint(ZigZag(i)) + x);
    ParseNumberBack(i, x);
  }

  lemma ParseCharactersBack(s: string, x: Bytes)
    requires Serializable(Text(s))
    ensures ParseValue([3] + ([0] + (SizedText(s) + x))) == Parsed(Text(s), x)
  {
    ParseVariant(3, [0] + (SizedText(s) + x));
    ParseTextBack(s, x);
  }

  lemma RegroupThree(m: Byte, n: Byte, b: Bytes, x: Bytes)
    ensures [m, n] + b + x == [m] + ([n] + (b + x))
  {
  }

  /** A value with its variant is read back. */
  lemma ParseValueBack(v: DfValue, x: Bytes)
    requires Serializable(v)
    ensures ParseValue(ValueBytes(v) + x) == Parsed(v, x)
  {
    match v
    case Null =>
      ParseVariant(0, x);
    case Int(i) =>
      Regroup([1], EncodeVarint(ZigZag(i)), x);
      ParseIntBack(i, x);
    case Text(s) =>
      RegroupThree(3, 0, SizedText(s), x);
      ParseCharactersBack(s, x);
  }

  function Flatten(bs: seq<Bytes>): Bytes {
    if bs == [] then [] else bs[0] + Flatten(bs[1..])
  }

  /** The values of a key, each with its variant. */
  function TaggedList(k: Key): seq<Bytes>
    requires AllSerializable(k)
  {
    seq(|k|, i requires 0 <= i < |k| => ValueBytes(k[i]))
  }

  function Tagged(k: Key): Bytes
    requires AllSerializable(k)
  {
    Flatten(TaggedList(k))
  }

  /** The values of a key as they are written. */
  function ElementList(k: Key): seq<Bytes>
    requires AllSerializable(k)
  {
    seq(|k|, i requires 0 <= i < |k| => ElementBytes(k[i]))
  }

  lemma {:induction false} ElementsFlat(k: Key)
    requires AllSerializable(k)
    ensures Elements(k) == Flatten(ElementList(k))
  {
    if k != [] {
      ElementsFlat(k[1..]);
      FlattenCons(ElementList(k), ElementList(k[1..]));
    }
  }

  lemma FlattenCons(bs: seq<Bytes>, rest: seq<Bytes>)
    requires |bs| == 1 + |rest| && forall i :: 0 <= i < |rest| ==> bs[i + 1] == rest[i]
    ensures Flatten(bs) == bs[0] + Flatten(rest)
  {
    assert bs[1..] == rest;
  }

  /** These bytes are read as this value, whatever follows. */
  ghost predicate ReadAs(one: Bytes -> Parsed<DfValue>, b: Bytes, v: DfValue) {
    forall x :: one(b + x) == Parsed(v, x)
  }

  lemma {:induction false} ParseListBack(one: Bytes -> Parsed<DfValue>, bs: seq<Bytes>, k: Key, x: Bytes)
    requires |bs| == |k| && forall i :: 0 <= i < |k| ==> ReadAs(one, bs[i], k[i])
    ensures ParseValues(one, |k|, Flatten(bs) + x) == Parsed(k, x)
  {
    if k == [] {
      assert Flatten(bs) + x == x;
    } else {
      Regroup(bs[0], Flatten(bs[1..]), x);
      ParseListBack(one, bs[1..], k[1..], x);
      assert ReadAs(one, bs[0], k[0]);
      assert k == [k[0]] + k[1..];
    }
  }

  /** These bytes cannot be read, whatever follows. */
  ghost predicate CannotRead(one: Bytes -> Parsed<DfValue>, b: Bytes) {
    forall x :: one(b + x) == Unreadable
  }

  lemma {:induction false} ParseListFails(one: Bytes -> Parsed<DfValue>, bs: seq<Bytes>, k: Key, i: nat, x: Bytes)
    requires |bs| == |k| && i < |k| && CannotRead(one, bs[i]) && forall j :: 0 <= j < i ==> ReadAs(one, bs[j], k[j])
    ensures ParseValues(one, |k|, Flatten(bs) + x) == Unreadable
  {
    Regroup(bs[0], Flatten(bs[1..]), x);
    if i > 0 {
      ParseListFails(one, bs[1..], k[1..], i - 1, x);
      assert ReadAs(one, bs[0], k[0]);
    }
  }

  predicate NoTexts(k: Key) {
    forall i :: 0 <= i < |k| ==> !k[i].Text?
  }

  lemma TaggedWithoutText(k: Key)
    requires AllSerializable(k) && NoTexts(k)
    ensures Elements(k) == Tagged(k)
  {
    ElementsFlat(k);
    assert ElementList(k) == TaggedList(k);
  }

  lemma ReadAsValue(v: DfValue)
    requires Serializable(v)
    ensures ReadAs(ParseValue, ValueBytes(v), v)
  {
    forall x ensures ParseValue(ValueBytes(v) + x) == Parsed(v, x) {
      ParseValueBack(v, x);
    }
  }

  lemma TaggedBack(k: Key, x: Bytes)
    requires AllSerializable(k)
    ensures ParseValues(ParseValue, |k|, Tagged(k) + x) == Parsed(k, x)
  {
    forall i | 0 <= i < |k| ensures ReadAs(ParseValue, TaggedList(k)[i], k[i]) {
      ReadAsValue(k[i]);
    }
    ParseListBack(ParseValue, TaggedList(k), k, x);
  }

  // ---------------------------------------------------------------- how much is read

  lemma {:induction false} FromLittleEndianBound(b: Bytes)
    ensures FromLittleEndian(b) < Pow256(|b|)
  {
    if b != [] {
      FromLittleEndianBound(b[1..]);
    }
  }

  /** No encoding of a number is shorter than its own. */
  lemma VarintIsShortest(b: Bytes, n: nat)
    requires DecodeVarint(b) == Some(n) && n < U64
    ensures |EncodeVarint(n)| <= 1 + Width(b[0]) <= |b|
  {
    if b[0] > 250 {
      FromLittleEndianBound(b[1..1 + Width(b[0])]);
      PowersOf256();
    }
  }

  lemma ParseVarintTakes(b: Bytes)
    requires ParseVarint(b).Parsed? && ParseVarint(b).value < U64
    ensures |EncodeVarint(ParseVarint(b).value)| + |ParseVarint(b).rest| <= |b|
  {
    VarintIsShortest(b, ParseVarint(b).value);
  }

  lemma ParseVarintTakesOne(b: Bytes)
    requires ParseVarint(b).Parsed?
    ensures 1 + |ParseVarint(b).rest| <= |b|
  {
  }

  lemma ZigZagBack(n: nat)
    ensures ZigZag(UnZigZag(n)) == n
  {
  }

  lemma ParseNumberTakes(b: Bytes)
    requires ParseNumber(b).Parsed? && Serializable(ParseNumber(b).value)
    ensures ParseNumber(b).value.Int?
    ensures |EncodeVarint(ZigZag(ParseNumber(b).value.i))| + |ParseNumber(b).rest| <= |b|
  {
    ZigZagBack(ParseVarint(b).value);
    ParseVarintTakes(b);
  }

  lemma ParseCharsTakes(b: Bytes)
    requires ParseChars(b).Parsed? && Serializable(ParseChars(b).value)
    ensures ParseChars(b).value.Text? && |SizedText(ParseChars(b).value.s)| + |ParseChars(b).rest| <= |b|
  {
    ParseVarintTakes(b);
  }

  lemma ParseTextTakes(b: Bytes)
    requires ParseText(b).Parsed? && Serializable(ParseText(b).value)
    ensures ParseText(b).value.Text? && 1 + |SizedText(ParseText(b).value.s)| + |ParseText(b).rest| <= |b|
  {
    ParseVarintTakesOne(b);
    ParseCharsTakes(ParseVarint(b).rest);
  }

  /** How many bytes a value has with its variant. */
  function TaggedSize(v: DfValue): nat {
    if Serializable(v) then |ValueBytes(v)| else 0
  }

  /** A value is read from no fewer bytes than it has. */
  ghost predicate Takes(size: DfValue -> nat, p: Parsed<DfValue>, b: Bytes) {
    p.Parsed? ==> size(p.value) + |p.rest| <= |b|
  }

  lemma ParseValueTakes(b: Bytes)
    ensures Takes(TaggedSize, ParseValue(b), b)
  {
    var p := ParseValue(b);
    if p.Parsed? {
      ParseVarintTakesOne(b);
      var variant, rest := ParseVarint(b).value, ParseVarint(b).rest;
      if variant == 1 {
        NumberTakes(rest);
      } else if variant == 3 {
        TextTakes(rest);
      }
    }
  }

  lemma NumberTakes(b: Bytes)
    requires ParseNumber(b).Parsed?
    ensures TaggedSize(ParseNumber(b).value) + |ParseNumber(b).rest| <= 1 + |b|
  {
    ParseVarintTakesOne(b);
    if Serializable(ParseNumber(b).value) {
      ParseNumberTakes(b);
    }
  }

  lemma TextTakes(b: Bytes)
    requires ParseText(b).Parsed?
    ensures TaggedSize(ParseText(b).value) + |ParseText(b).rest| <= 1 + |b|
  {
    ParseVarintTakesOne(b);
    ParseVarintTakesOne(ParseVarint(b).rest);
    if Serializable(ParseText(b).value) {
      ParseTextTakes(b);
    }
  }

  function TotalSize(size: DfValue -> nat, k: Key): nat {
    if k == [] then 0 else size(k[0]) + TotalSize(size, k[1..])
  }

  lemma {:induction false} ParseValuesTakes(one: Bytes -> Parsed<DfValue>, size: DfValue -> nat, n: nat, b: Bytes)
    requires forall b' :: Takes(size, one(b'), b')
    requires ParseValues(one, n, b).Parsed?
    ensures TotalSize(size, ParseValues(one, n, b).value) + |ParseValues(one, n, b).rest| <= |b|
  {
    if n > 0 {
      var p := one(b);
      var k := ParseValues(one, n, b).value;
      assert k[0] == p.value && k[1..] == ParseValues(one, n - 1, p.rest).value;
      assert Takes(size, one(b), b);
      ParseValuesTakes(one, size, n - 1, p.rest);
    }
  }

  lemma {:induction false} TotalIsFlat(size: DfValue -> nat, k: Key, bs: seq<Bytes>)
    requires |bs| == |k| && forall i :: 0 <= i < |k| ==> size(k[i]) == |bs[i]|
    ensures TotalSize(size, k) == |Flatten(bs)|
  {
    if k != [] {
      TotalIsFlat(size, k[1..], bs[1..]);
    }
  }

  lemma {:induction false} FlattenLonger(a: seq<Bytes>, b: seq<Bytes>)
    requires |a| == |b| && forall i :: 0 <= i < |a| ==> |a[i]| <= |b[i]|
    ensures |Flatten(a)| <= |Flatten(b)|
    ensures (exists i :: 0 <= i < |a| && |a[i]| < |b[i]|) ==> |Flatten(a)| < |Flatten(b)|
  {
    if a != [] {
      FlattenLonger(a[1..], b[1..]);
      if |a[0]| == |b[0]| && exists i :: 0 <= i < |a| && |a[i]| < |b[i]| {
        var i :| 0 <= i < |a| && |a[i]| < |b[i]|;
        assert |a[1..][i - 1]| < |b[1..][i - 1]|;
      }
    }
  }

  /** The variant of every text is left out of a key. */
  lemma TaggedIsLonger(k: Key)
    requires AllSerializable(k) && !NoTexts(k)
    ensures |Elements(k)| < |Tagged(k)|
  {
    ElementsFlat(k);
    var i :| 0 <= i < |k| && k[i].Text?;
    assert |ElementList(k)[i]| < |TaggedList(k)[i]|;
    FlattenLonger(ElementList(k), TaggedList(k));
  }

  // ---------------------------------------------------------------- entries of an ordered index

  lemma ParsePrefix(types: nat -> ColumnType, k: Key, x: Bytes)
    requires SourceCodec(types).fits(k)
    ensures ParseVarint(SourceCodec(types).prefix(k) + x) == Parsed(|PointKeyBytes(k)|, PointKeyBytes(k) + x)
  {
    var bytes := PointKeyBytes(k);
    SourcePrefix(types, k);
    Regroup(EncodeVarint(|bytes|), bytes, x);
    ParseVarintBack(|bytes|, bytes + x);
  }

  /** An entry is read back exactly if its key is. */
  lemma SplitIffParsed(types: nat -> ColumnType, k: Key, x: Bytes)
    requires SourceCodec(types).fits(k) && k != []
    ensures SplitEntry(|k|, SourceCodec(types).prefix(k) + x) == (k, x) <==>
            var p := ParseKey(|k|, PointKeyBytes(k) + x); p.Parsed? && p.value == k
  {
    ParsePrefix(types, k, x);
    assert (PointKeyBytes(k) + x)[|PointKeyBytes(k)|..] == x;
  }

  /** Values that are read with their variants. */
  predicate HasVariants(k: Key) {
    |k| == 1 || NoTexts(k)
  }

  /** A key of several values is read one value after the other. */
  lemma KeyIsValues(k: Key, x: Bytes)
    requires AllSerializable(k) && |k| != 1
    ensures ParseKey(|k|, PointKeyBytes(k) + x) == ParseValues(ParseValue, |k|, Elements(k) + x)
  {
    if |k| > 6 {
      var size, bytes := EncodeVarint(|k|), Elements(k);
      assert PointKeyBytes(k) == size + bytes;
      Regroup(size, bytes, x);
      ParseVarintBack(|k|, bytes + x);
      ParseSequence(|k|, size + (bytes + x), bytes + x);
    }
  }

  lemma ParseSequence(n: nat, b: Bytes, rest: Bytes)
    requires n > 6 && ParseVarint(b) == Parsed(n, rest)
    ensures ParseKey(n, b) == ParseValues(ParseValue, n, rest)
  {
  }

  lemma SingleBack(v: DfValue, x: Bytes)
    requires Serializable(v)
    ensures ParseKey(1, PointKeyBytes([v]) + x) == Parsed([v], x)
  {
    var k: Key := [v];
    assert AllSerializable(k) && PointKeyBytes(k) == ValueBytes(v);
    ReadAsValue(v);
    ParseListBack(ParseValue, [ValueBytes(v)], k, x);
    assert [ValueBytes(v)][1..] == [];
    assert Flatten([ValueBytes(v)]) == ValueBytes(v) + [];
  }

  lemma ParseKeyBack(k: Key, x: Bytes)
    requires AllSerializable(k) && HasVariants(k)
    ensures ParseKey(|k|, PointKeyBytes(k) + x) == Parsed(k, x)
  {
    if |k| == 1 {
      SingleBack(k[0], x);
      assert k == [k[0]];
    } else {
      KeyIsValues(k, x);
      TaggedWithoutText(k);
      TaggedBack(k, x);
    }
  }

  lemma ParseKeyFails(k: Key)
    requires AllSerializable(k) && !HasVariants(k)
    ensures var p := ParseKey(|k|, PointKeyBytes(k) + []); !(p.Parsed? && p.value == k)
  {
    KeyIsValues(k, []);
    var b := Elements(k) + [];
    if ParseValues(ParseValue, |k|, b).Parsed? && ParseValues(ParseValue, |k|, b).value == k {
      forall b' ensures Takes(TaggedSize, ParseValue(b'), b') {
        ParseValueTakes(b');
      }
      ParseValuesTakes(ParseValue, TaggedSize, |k|, b);
      TaggedIsLonger(k);
      TotalIsFlat(TaggedSize, k, TaggedList(k));
    }
  }

  /** The comparator of an ordered index reads every entry under a key back if and only if the key has one
      column or holds no text. */
  lemma ReadsBackIff(types: nat -> ColumnType, k: Key)
    requires SourceCodec(types).fits(k) && k != []
    ensures ReadsBack(SourceCodec(types), SourceSplit(|k|), k) <==> HasVariants(k)
  {
    var c := SourceCodec(types);
    if HasVariants(k) {
      forall x ensures SourceSplit(|k|)(c.prefix(k) + x) == (k, x) {
        ParseKeyBack(k, x);
        SplitIffParsed(types, k, x);
      }
    } else {
      ParseKeyFails(k);
      SplitIffParsed(types, k, []);
      assert SourceSplit(|k|)(c.prefix(k) + []) != (k, []);
    }
  }

  // ---------------------------------------------------------------- texts that cannot be read

  /** There are no variants from twelve on. */
  const VARIANTS: nat := 12

  lemma LongTextFails(s: string)
    requires Serializable(Text(s)) && |s| >= VARIANTS
    ensures CannotRead(ParseValue, SizedText(s))
  {
    forall x ensures ParseValue(SizedText(s) + x) == Unreadable {
      Regroup(EncodeVarint(|s|), TextBytes(s), x);
      ParseVarintBack(|s|, TextBytes(s) + x);
    }
  }

  /** The first text of the key is at `i`, and is long. */
  predicate LongTextAt(k: Key, i: nat) {
    i < |k| && NoTexts(k[..i]) && k[i].Text? && |k[i].s| >= VARIANTS
  }

  lemma ElementsFail(k: Key, i: nat, x: Bytes)
    requires AllSerializable(k) && LongTextAt(k, i)
    ensures ParseValues(ParseValue, |k|, Elements(k) + x) == Unreadable
  {
    forall j | 0 <= j < i ensures ReadAs(ParseValue, ElementList(k)[j], k[j]) {
      assert k[..i][j] == k[j];
      ReadAsValue(k[j]);
    }
    LongTextFails(k[i].s);
    ElementsFlat(k);
    ParseListFails(ParseValue, ElementList(k), k, i, x);
  }

  /** In a key of several columns whose first text has twelve or more characters, no entry can be read: the
      comparator panics, whatever it is compared with. */
  lemma LongTextUnreadable(types: nat -> ColumnType, k: Key, i: nat, x: Bytes)
    requires SourceCodec(types).fits(k) && |k| > 1 && LongTextAt(k, i)
    ensures ParseEntry(|k|, SourceCodec(types).prefix(k) + x) == Unreadable
  {
    ElementsFail(k, i, x);
    KeyIsValues(k, x);
    ParsePrefix(types, k, x);
  }

  /** An empty text in such a key is read as NULL. */
  lemma EmptyReadAsNull(types: nat -> ColumnType, x: Bytes)
    ensures ParseEntry(2, SourceCodec(types).prefix([Int(1), Text("")]) + x) == Parsed((3, [Int(1), Null]), x)
  {
    OneThen(types, "", x);
    NoCharacters(x);
  }

  /** A text of one character is read as a number. */
  lemma LetterReadAsNumber(types: nat -> ColumnType, x: Bytes)
    ensures ParseEntry(2, SourceCodec(types).prefix([Int(1), Text("a")]) + x) == Parsed((4, [Int(1), Int(-49)]), x)
  {
    OneThen(types, "a", x);
    OneCharacter(x);
  }

  /** A text of three characters is read as a text with a collation that does not exist. */
  lemma WordUnreadable(types: nat -> ColumnType, x: Bytes)
    ensures ParseEntry(2, SourceCodec(types).prefix([Int(1), Text("abc")]) + x) == Unreadable
  {
    OneThen(types, "abc", x);
    ThreeCharacters(x);
  }

  lemma NoCharacters(x: Bytes)
    ensures ParseValue(SizedText("") + x) == Parsed(Null, x)
  {
    assert SizedText("") == [0];
    ParseVariant(0, x);
  }

  lemma OneCharacter(x: Bytes)
    ensures ParseValue(SizedText("a") + x) == Parsed(Int(-49), x)
  {
    assert SizedText("a") == [1] + [97];
    Regroup([1], [97], x);
    ParseVariant(1, [97] + x);
    ParseSmall(97, x);
  }

  lemma ThreeCharacters(x: Bytes)
    ensures ParseValue(SizedText("abc") + x) == Unreadable
  {
    assert SizedText("abc") == [3, 97] + [98, 99];
    RegroupThree(3, 97, [98, 99], x);
    ParseVariant(3, [97] + ([98, 99] + x));
    ParseSmall(97, [98, 99] + x);
  }

  /** The first value is read back; the second one decides. */
  lemma ParseSecond(one: Bytes -> Parsed<DfValue>, a: Bytes, v: DfValue, b: Bytes, x: Bytes)
    requires ReadAs(one, a, v)
    ensures ParseValues(one, 2, a + b + x) == match one(b + x)
                                              case Parsed(w, rest) => Parsed([v, w], rest)
                                              case Outside => Outside
                                              case Unreadable => Unreadable
  {
    Regroup(a, b, x);
    assert one(a + (b + x)) == Parsed(v, b + x);
    ParseLast(one, b + x);
    var p := one(b + x);
    assert p.Parsed? ==> [v] + [p.value] == [v, p.value];
  }

  lemma ParseLast(one: Bytes -> Parsed<DfValue>, b: Bytes)
    ensures ParseValues(one, 1, b) == match one(b)
                                      case Parsed(w, rest) => Parsed([w], rest)
                                      case Outside => Outside
                                      case Unreadable => Unreadable
  {
    var p := one(b);
    if p.Parsed? {
      assert ParseValues(one, 0, p.rest) == Parsed([], p.rest);
      assert [p.value] + [] == [p.value];
    }
  }

  /** A key of the number one and a text: the text decides what is read. */
  lemma OneThen(types: nat -> ColumnType, s: string, x: Bytes)
    requires Serializable(Text(s)) && |s| < 240
    ensures ParseEntry(2, SourceCodec(types).prefix([Int(1), Text(s)]) + x) ==
            match ParseValue(SizedText(s) + x)
            case Parsed(v, rest) => Parsed((3 + |s|, [Int(1), v]), rest)
            case Outside => Outside
            case Unreadable => Unreadable
  {
    var k: Key := [Int(1), Text(s)];
    TwoElements(Int(1), Text(s));
    assert AllSerializable(k) && PointKeyBytes(k) == ValueBytes(Int(1)) + SizedText(s);
    assert |PointKeyBytes(k)| == 3 + |s|;
    ParsePrefix(types, k, x);
    KeyIsValues(k, x);
    ReadAsValue(Int(1));
    ParseSecond(ParseValue, ValueBytes(Int(1)), Int(1), SizedText(s), x);
  }
}

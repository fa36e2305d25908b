/** The bytes of a key. A key of one column is written like a value of a row. In a longer key a text is
    written without the number of its variant and its collation, so that NULL and the empty text are one
    byte, the same. */
module PointKeys {
  import opened ByteStrings
  import opened StateTypes
  import opened KeyEncoding

  // ---------------------------------------------------------------- values

  /** A signed number as an unsigned one: small numbers of either sign stay small. */
  function ZigZag(i: int): nat {
    if i >= 0 then 2 * i else -2 * i - 1
  }

  /** Values as they are in a row: NULL, 64-bit numbers, and text of one byte a character. */
  predicate Serializable(v: DfValue) {
    match v
    case Null => true
    case Int(i) => ZigZag(i) < U64
    case Text(s) => |s| < U64 && forall i :: 0 <= i < |s| ==> s[i] as int < 128
  }

  function TextBytes(s: string): (b: Bytes)
    requires forall i :: 0 <= i < |s| ==> s[i] as int < 128
    ensures |b| == |s|
  {
    seq(|s|, i requires 0 <= i < |s| => s[i] as int)
  }

  /** A text with its length in front. */
  function SizedText(s: string): Bytes
    requires Serializable(Text(s))
  {
    EncodeVarint(|s|) + TextBytes(s)
  }

  /** The number of the variant, and what it holds; text has its collation in front. */
  function ValueBytes(v: DfValue): Bytes
    requires Serializable(v)
  {
    match v
    case Null => [0]
    case Int(i) => [1] + EncodeVarint(ZigZag(i))
    case Text(s) => [3, 0] + SizedText(s)
  }

  lemma Regroup(a: Bytes, b: Bytes, x: Bytes)
    ensures a + b + x == a + (b + x)
  {
  }

  lemma TextsApart(s: string, x: Bytes, t: string, y: Bytes)
    requires Serializable(Text(s)) && Serializable(Text(t))
    requires SizedText(s) + x == SizedText(t) + y
    ensures s == t && x == y
  {
    Regroup(EncodeVarint(|s|), TextBytes(s), x);
    Regroup(EncodeVarint(|t|), TextBytes(t), y);
    VarintPrefixFree(|s|, |t|, TextBytes(s) + x, TextBytes(t) + y);
    SplitConcat(TextBytes(s), x, TextBytes(t), y);
    forall i | 0 <= i < |s| ensures s[i] == t[i] {
      assert TextBytes(s)[i] == TextBytes(t)[i];
      assert s[i] as int == t[i] as int;
    }
  }

  /** The bytes of a value tell the value, whatever follows. */
  lemma ValuesApart(v: DfValue, x: Bytes, w: DfValue, y: Bytes)
    requires Serializable(v) && Serializable(w) && ValueBytes(v) + x == ValueBytes(w) + y
    ensures v == w && x == y
  {
    assert (ValueBytes(v) + x)[0] == (ValueBytes(w) + y)[0];
    match v
    case Null =>
      SplitConcat([0], x, [0], y);
    case Int(i) =>
      Regroup([1], EncodeVarint(ZigZag(i)), x);
      Regroup([1], EncodeVarint(ZigZag(w.i)), y);
      SplitConcat([1], EncodeVarint(ZigZag(i)) + x, [1], EncodeVarint(ZigZag(w.i)) + y);
      VarintPrefixFree(ZigZag(i), ZigZag(w.i), x, y);
    case Text(s) =>
      Regroup([3, 0], SizedText(s), x);
      Regroup([3, 0], SizedText(w.s), y);
      SplitConcat([3, 0], SizedText(s) + x, [3, 0], SizedText(w.s) + y);
      TextsApart(s, x, w.s, y);
  }

  // ---------------------------------------------------------------- keys

  /** A value in a key of several columns: a text is bare. */
  function ElementBytes(v: DfValue): (b: Bytes)
    requires Serializable(v)
    ensures b != []
  {
    if v.Text? then SizedText(v.s) else ValueBytes(v)
  }

  predicate AllSerializable(k: Key) {
    |k| < U64 && forall i :: 0 <= i < |k| ==> Serializable(k[i])
  }

  function Elements(k: Key): Bytes
    requires forall i :: 0 <= i < |k| ==> Serializable(k[i])
  {
    if k == [] then [] else ElementBytes(k[0]) + Elements(k[1..])
  }

  /** Up to six values are a tuple; more are a sequence, with its length in front. */
  function PointKeyBytes(k: Key): Bytes {
    if !AllSerializable(k) then []
    else if |k| == 1 then ValueBytes(k[0])
    else if |k| <= 6 then Elements(k)
    else EncodeVarint(|k|) + Elements(k)
  }

  // ---------------------------------------------------------------- column types

  datatype ColumnType = Number | Characters

  /** NULL is of every type. */
  predicate OfType(t: ColumnType, v: DfValue) {
    match v
    case Null => true
    case Int(_) => t == Number
    case Text(_) => t == Characters
  }

  /** A key of these columns, of their types. */
  predicate TypedKey(types: nat -> ColumnType, columns: seq<nat>, k: Key) {
    |k| == |columns| && forall i :: 0 <= i < |k| ==> OfType(types(columns[i]), k[i])
  }

  /** Two values that can stand in one column. */
  predicate SameType(v: DfValue, w: DfValue) {
    v.Null? || w.Null? || (v.Int? <==> w.Int?)
  }

  /** Equal, or one is NULL and the other the empty text. */
  predicate AlikeValues(v: DfValue, w: DfValue) {
    v == w || (v == Null && w == Text("")) || (v == Text("") && w == Null)
  }

  /** Equal, or, in keys of several columns, different only in NULL and the empty text. */
  predicate Alike(k: Key, l: Key) {
    |k| == |l| && if |k| == 1 then k == l else forall i :: 0 <= i < |k| ==> AlikeValues(k[i], l[i])
  }

  lemma NullIsEmptyText()
    ensures Serializable(Null) && Serializable(Text("")) && ElementBytes(Null) == ElementBytes(Text(""))
  {
    assert TextBytes("") == [];
  }

  /** A text starts like NULL only if it is empty. */
  lemma NullOrText(x: Bytes, s: string, y: Bytes)
    requires Serializable(Text(s)) && ElementBytes(Null) + x == ElementBytes(Text(s)) + y
    ensures s == "" && x == y
  {
    Regroup(EncodeVarint(|s|), TextBytes(s), y);
    assert (ElementBytes(Null) + x)[0] == 0;
    assert EncodeVarint(|s|)[0] == 0;
    assert |s| == 0;
    NullIsEmptyText();
    SplitConcat(ElementBytes(Null), x, ElementBytes(Text(s)), y);
  }

  /** In one column, what a key holds is told up to NULL and the empty text, whatever follows. */
  lemma ElementsApart(v: DfValue, x: Bytes, w: DfValue, y: Bytes)
    requires Serializable(v) && Serializable(w) && SameType(v, w)
    ensures ElementBytes(v) + x == ElementBytes(w) + y <==> AlikeValues(v, w) && x == y
  {
    NullIsEmptyText();
    if ElementBytes(v) + x == ElementBytes(w) + y {
      if v.Text? && w.Text? {
        TextsApart(v.s, x, w.s, y);
      } else if v.Text? {
        NullOrText(y, v.s, x);
      } else if w.Text? {
        NullOrText(x, w.s, y);
      } else {
        ValuesApart(v, x, w, y);
      }
    }
  }

  /** The values of two keys can stand in the same columns. */
  predicate SameTypes(k: Key, l: Key) {
    |k| == |l| && forall i :: 0 <= i < |k| ==> SameType(k[i], l[i])
  }

  lemma {:induction false} TuplesApart(k: Key, l: Key)
    requires AllSerializable(k) && AllSerializable(l) && SameTypes(k, l)
    ensures Elements(k) == Elements(l) <==> forall i :: 0 <= i < |k| ==> AlikeValues(k[i], l[i])
  {
    if k != [] {
      ElementsApart(k[0], Elements(k[1..]), l[0], Elements(l[1..]));
      TuplesApart(k[1..], l[1..]);
      assert forall i :: 0 < i < |k| ==> k[i] == k[1..][i - 1] && l[i] == l[1..][i - 1];
      assert forall i :: 0 <= i < |k| - 1 ==> k[1..][i] == k[i + 1] && l[1..][i] == l[i + 1];
    }
  }

  /** Keys of the same columns have the same bytes exactly if they are equal or, where there are several
      columns, differ only in that one has NULL where the other has the empty text. */
  lemma SameBytesIff(types: nat -> ColumnType, columns: seq<nat>, k: Key, l: Key)
    requires AllSerializable(k) && AllSerializable(l) && TypedKey(types, columns, k) && TypedKey(types, columns, l)
    ensures PointKeyBytes(k) == PointKeyBytes(l) <==> Alike(k, l)
  {
    assert SameTypes(k, l);
    if |k| == 1 {
      if ValueBytes(k[0]) == ValueBytes(l[0]) {
        assert ValueBytes(k[0]) + [] == ValueBytes(l[0]) + [];
        ValuesApart(k[0], [], l[0], []);
        assert k == [k[0]] && l == [l[0]];
      }
    } else {
      TuplesApart(k, l);
      if |k| > 6 && PointKeyBytes(k) == PointKeyBytes(l) {
        SplitConcat(EncodeVarint(|k|), Elements(k), EncodeVarint(|l|), Elements(l));
      }
    }
  }

  /** Such keys without NULL are told apart. */
  lemma AlikeWithoutNull(k: Key, l: Key)
    requires Alike(k, l) && Null !in k && Null !in l
    ensures k == l
  {
    forall i | 0 <= i < |k| ensures k[i] == l[i] {
      assert k[i] in k && l[i] in l;
    }
  }

  lemma TwoElements(v: DfValue, w: DfValue)
    requires Serializable(v) && Serializable(w)
    ensures Elements([v, w]) == ElementBytes(v) + ElementBytes(w)
  {
    assert [v, w][1..] == [w] && [w][1..] == [];
    assert Elements([w]) == ElementBytes(w) + [];
  }

  /** A number and NULL, and the same number and the empty text, are one key on disk. */
  lemma CollidingKeys()
    ensures PointKeyBytes([Int(1), Null]) == PointKeyBytes([Int(1), Text("")]) == [1, 2, 0]
  {
    NullIsEmptyText();
    TwoElements(Int(1), Null);
    TwoElements(Int(1), Text(""));
    assert ElementBytes(Int(1)) == [1, 2];
  }
}

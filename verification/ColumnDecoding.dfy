/** Column definitions as a client reads them: a decoder that follows the protocol, and what it makes of the
    packets that are sent. */
module ColumnDecoding {
  import opened Options
  import opened ByteStrings
  import opened KeyEncoding
  import opened PacketFrames
  import opened ColumnDefinitions

  // ---------------------------------------------------------------- the decoder

  /** What is read from the front of some bytes, and what is left. */
  datatype Read<T> = Read(value: T, rest: Bytes) | Malformed

  /** A number of `n` bytes, least significant first. */
  function ReadFixed(n: nat, b: Bytes): Read<nat> {
    if |b| < n then Malformed else Read(FromLittleEndian(b[..n]), b[n..])
  }

  /** A length-encoded integer: one byte, or a marker and two, three or eight bytes. */
  function ReadLenencInt(b: Bytes): Read<nat> {
    if b == [] then Malformed
    else if b[0] <= 250 then Read(b[0], b[1..])
    else if b[0] == 0xFC then ReadFixed(2, b[1..])
    else if b[0] == 0xFD then ReadFixed(3, b[1..])
    else if b[0] == 0xFE then ReadFixed(8, b[1..])
    else Malformed
  }

  /** A length-encoded string. */
  function ReadLenencStr(b: Bytes): Read<Bytes> {
    match ReadLenencInt(b)
    case Malformed => Malformed
    case Read(n, rest) => if n > |rest| then Malformed else Read(rest[..n], rest[n..])
  }

  /** Reads fields one after the other. */
  function ReadEach<T>(readers: seq<Bytes -> Read<T>>, b: Bytes): (r: Read<seq<T>>)
    ensures r.Read? ==> |r.value| == |readers|
    decreases readers
  {
    if readers == [] then Read([], b)
    else match readers[0](b)
      case Malformed => Malformed
      case Read(v, rest) =>
        match ReadEach(readers[1..], rest)
        case Malformed => Malformed
        case Read(vs, rest') => Read([v] + vs, rest')
  }

  function ReadStrings(n: nat, b: Bytes): Read<seq<Bytes>> {
    ReadEach(StringReaders(n), b)
  }

  function StringReaders(n: nat): seq<Bytes -> Read<Bytes>> {
    seq(n, _ => ReadLenencStr)
  }

  /** Numbers of these widths. */
  function ReadNumbers(widths: seq<nat>, b: Bytes): Read<seq<nat>> {
    ReadEach(NumberReaders(widths), b)
  }

  function NumberReaders(widths: seq<nat>): seq<Bytes -> Read<nat>> {
    seq(|widths|, i requires 0 <= i < |widths| => (b => ReadFixed(widths[i], b)))
  }

  /** A column definition, field by field. */
  datatype ClientColumn = ClientColumn(
    catalog: Bytes, schema: Bytes, table: Bytes, originalTable: Bytes, name: Bytes, originalName: Bytes,
    fixedLength: nat, characterSet: nat, length: nat, columnType: nat, flags: nat, decimals: nat, unused: nat)

  const WIDTHS: seq<nat> := [2, 4, 1, 2, 1, 2]

  /** Six strings, the length of the fields that follow, and these. */
  function ReadColumn(b: Bytes): Read<ClientColumn> {
    match ReadStrings(6, b)
    case Malformed => Malformed
    case Read(s, rest) =>
      match ReadLenencInt(rest)
      case Malformed => Malformed
      case Read(fixedLength, rest') =>
        match ReadNumbers(WIDTHS, rest')
        case Malformed => Malformed
        case Read(n, rest'') =>
          Read(ClientColumn(s[0], s[1], s[2], s[3], s[4], s[5], fixedLength, n[0], n[1], n[2], n[3], n[4], n[5]),
               rest'')
  }

  /** An end-of-file packet: its marker, warnings and status flags. */
  function ReadEof(b: Bytes): Option<seq<nat>> {
    if b == [] || b[0] != 0xFE then None
    else match ReadNumbers([2, 2], b[1..])
      case Malformed => None
      case Read(ns, rest) => if rest == [] then Some(ns) else None
  }

  // ---------------------------------------------------------------- numbers and strings are read back

  lemma FixedBack(n: nat, k: nat, x: Bytes)
    requires n < Pow256(k)
    ensures ReadFixed(k, LittleEndian(n, k) + x) == Read(n, x)
  {
    LittleEndianRoundTrip(n, k);
    var e := LittleEndian(n, k);
    assert (e + x)[..k] == e && (e + x)[k..] == x;
  }

  lemma MarkedBack(marker: Byte, b: Bytes, x: Bytes)
    ensures ([marker] + b + x)[0] == marker && ([marker] + b + x)[1..] == b + x
  {
  }

  lemma LenencIntBack(n: nat, x: Bytes)
    requires n < U64
    ensures ReadLenencInt(LenencInt(n) + x) == Read(n, x)
  {
    PowersOf256();
    assert Pow256(3) == 0x100_0000;
    if n <= 250 {
      assert ([n] + x)[1..] == x;
    } else if n <= 65_535 {
      MarkedBack(0xFC, LittleEndian(n, 2), x);
      FixedBack(n, 2, x);
    } else if n <= 16_777_215 {
      MarkedBack(0xFD, LittleEndian(n, 3), x);
      FixedBack(n, 3, x);
    } else {
      MarkedBack(0xFE, LittleEndian(n, 8), x);
      FixedBack(n, 8, x);
    }
  }

  lemma Regroup(a: Bytes, b: Bytes, x: Bytes)
    ensures a + b + x == a + (b + x)
  {
  }

  lemma LenencStrBack(s: Bytes, x: Bytes)
    requires |s| < U64
    ensures ReadLenencStr(LenencStr(s) + x) == Read(s, x)
  {
    Regroup(LenencInt(|s|), s, x);
    LenencIntBack(|s|, s + x);
    assert (s + x)[..|s|] == s && (s + x)[|s|..] == x;
  }

  function Flatten(bs: seq<Bytes>): Bytes {
    if bs == [] then [] else bs[0] + Flatten(bs[1..])
  }

  /** These bytes are read as this value, whatever follows. */
  ghost predicate ReadsAs<T>(reader: Bytes -> Read<T>, b: Bytes, v: T) {
    forall x :: reader(b + x) == Read(v, x)
  }

  lemma {:induction false} EachBack<T>(readers: seq<Bytes -> Read<T>>, bs: seq<Bytes>, vs: seq<T>, x: Bytes)
    requires |readers| == |bs| == |vs| && forall i :: 0 <= i < |vs| ==> ReadsAs(readers[i], bs[i], vs[i])
    ensures ReadEach(readers, Flatten(bs) + x) == Read(vs, x)
    decreases vs
  {
    if vs == [] {
      assert Flatten(bs) + x == x;
    } else {
      Regroup(bs[0], Flatten(bs[1..]), x);
      assert ReadsAs(readers[0], bs[0], vs[0]);
      EachBack(readers[1..], bs[1..], vs[1..], x);
      assert vs == [vs[0]] + vs[1..];
    }
  }

  function StringList(ss: seq<Bytes>): seq<Bytes>
    requires forall i :: 0 <= i < |ss| ==> |ss[i]| < U64
  {
    seq(|ss|, i requires 0 <= i < |ss| => LenencStr(ss[i]))
  }

  lemma StringsBack(ss: seq<Bytes>, x: Bytes)
    requires forall i :: 0 <= i < |ss| ==> |ss[i]| < U64
    ensures ReadStrings(|ss|, Flatten(StringList(ss)) + x) == Read(ss, x)
  {
    forall i | 0 <= i < |ss| ensures ReadsAs(StringReaders(|ss|)[i], StringList(ss)[i], ss[i]) {
      forall y ensures ReadLenencStr(LenencStr(ss[i]) + y) == Read(ss[i], y) {
        LenencStrBack(ss[i], y);
      }
    }
    EachBack(StringReaders(|ss|), StringList(ss), ss, x);
  }

  predicate NumbersFit(widths: seq<nat>, ns: seq<nat>) {
    |ns| == |widths| && forall i :: 0 <= i < |ns| ==> ns[i] < Pow256(widths[i])
  }

  function NumberList(widths: seq<nat>, ns: seq<nat>): seq<Bytes>
    requires |ns| == |widths|
  {
    seq(|ns|, i requires 0 <= i < |ns| => LittleEndian(ns[i], widths[i]))
  }

  lemma NumbersBack(widths: seq<nat>, ns: seq<nat>, x: Bytes)
    requires NumbersFit(widths, ns)
    ensures ReadNumbers(widths, Flatten(NumberList(widths, ns)) + x) == Read(ns, x)
  {
    forall i | 0 <= i < |ns| ensures ReadsAs(NumberReaders(widths)[i], NumberList(widths, ns)[i], ns[i]) {
      forall y ensures ReadFixed(widths[i], LittleEndian(ns[i], widths[i]) + y) == Read(ns[i], y) {
        FixedBack(ns[i], widths[i], y);
      }
    }
    EachBack(NumberReaders(widths), NumberList(widths, ns), ns, x);
  }

  // ---------------------------------------------------------------- a definition is read back

  /** The length of a column, which is 1024 if it has none. */
  function LengthOf(c: Column): nat {
    if c.length.Some? then c.length.value else 1024
  }

  /** What a client is to know of a column. */
  function ClientView(c: Column): ClientColumn {
    ClientColumn(DEF, [], c.table, [], c.name, [], 12, c.characterSet, LengthOf(c), c.columnType, c.flags, 0, 0)
  }

  function StringsOf(c: Column): seq<Bytes> {
    [DEF, [], c.table, [], c.name, []]
  }

  function NumbersOf(c: Column): seq<nat> {
    [c.characterSet, LengthOf(c), c.columnType, c.flags, 0, 0]
  }

  lemma FlattenCons(b: Bytes, bs: seq<Bytes>)
    ensures Flatten([b] + bs) == b + Flatten(bs)
  {
    assert ([b] + bs)[1..] == bs;
  }

  lemma FlattenSix(a: Bytes, b: Bytes, c: Bytes, d: Bytes, e: Bytes, f: Bytes)
    ensures Flatten([a, b, c, d, e, f]) == a + b + c + d + e + f
  {
    FlattenCons(f, []);
    FlattenCons(e, [f]);
    FlattenCons(d, [e, f]);
    FlattenCons(c, [d, e, f]);
    FlattenCons(b, [c, d, e, f]);
    FlattenCons(a, [b, c, d, e, f]);
    assert [f] + [] == [f] && [e] + [f] == [e, f] && [d] + [e, f] == [d, e, f];
    assert [c] + [d, e, f] == [c, d, e, f] && [b] + [c, d, e, f] == [b, c, d, e, f];
    assert [a] + [b, c, d, e, f] == [a, b, c, d, e, f];
  }

  lemma NamesAreStrings(c: Column)
    requires ColumnOk(c)
    ensures Names(c) == Flatten(StringList(StringsOf(c)))
  {
    FlattenSix(LenencStr(DEF), LenencStr([]), LenencStr(c.table), LenencStr([]), LenencStr(c.name), LenencStr([]));
    assert StringList(StringsOf(c)) ==
           [LenencStr(DEF), LenencStr([]), LenencStr(c.table), LenencStr([]), LenencStr(c.name), LenencStr([])];
  }

  /** The fixed fields of a definition. */
  function Fixed(c: Column): Bytes
    requires ColumnOk(c)
  {
    Flatten(NumberList(WIDTHS, NumbersOf(c)))
  }

  lemma AttributesAreNumbers(c: Column)
    requires ColumnOk(c)
    ensures Attributes(c) == LenencInt(12) + Fixed(c)
  {
    var n := NumbersOf(c);
    var a, b, t, f := LittleEndian(n[0], 2), LittleEndian(n[1], 4), LittleEndian(n[2], 1), LittleEndian(n[3], 2);
    assert t == [c.columnType] && LittleEndian(0, 1) == [0] && LittleEndian(0, 2) == [0, 0];
    FlattenSix(a, b, t, f, [0], [0, 0]);
    assert NumberList(WIDTHS, n) == [a, b, t, f, [0], [0, 0]];
  }

  lemma AttributesFit(c: Column)
    requires ColumnOk(c)
    ensures NumbersFit(WIDTHS, NumbersOf(c))
  {
    PowersOf256();
    assert Pow256(1) == 256;
  }

  /** A client reads exactly the table, name, character set, length, type and flags of the column, whatever
      follows; the length is 1024 if the column has none. */
  lemma DefinitionBack(c: Column, x: Bytes)
    requires ColumnOk(c)
    ensures ReadColumn(Definition(c) + x) == Read(ClientView(c), x)
  {
    NamesAreStrings(c);
    AttributesAreNumbers(c);
    AttributesFit(c);
    var fixed := Fixed(c);
    assert Definition(c) + x == Names(c) + (LenencInt(12) + (fixed + x));
    StringsBack(StringsOf(c), LenencInt(12) + (fixed + x));
    LenencIntBack(12, fixed + x);
    NumbersBack(WIDTHS, NumbersOf(c), x);
  }

  // ---------------------------------------------------------------- a result set header is read back

  /** The payloads that precede the rows of a result set: a count, as many definitions, and an end-of-file
      packet. */
  datatype ResultHeader = ResultHeader(columns: seq<ClientColumn>, eof: seq<nat>)

  function ReadColumns(payloads: seq<Bytes>): Option<seq<ClientColumn>> {
    if payloads == [] then Some([])
    else match ReadColumn(payloads[0])
      case Malformed => None
      case Read(c, rest) =>
        if rest != [] then None
        else match ReadColumns(payloads[1..])
          case None => None
          case Some(cs) => Some([c] + cs)
  }

  function ReadHeader(payloads: seq<Bytes>): Option<ResultHeader> {
    if payloads == [] then None
    else match ReadLenencInt(payloads[0])
      case Malformed => None
      case Read(n, rest) =>
        if rest != [] || |payloads| != n + 2 then None
        else match (ReadColumns(payloads[1..n + 1]), ReadEof(payloads[n + 1]))
          case (Some(columns), Some(eof)) => Some(ResultHeader(columns, eof))
          case _ => None
  }

  function ClientViews(cols: seq<Column>): seq<ClientColumn> {
    seq(|cols|, i requires 0 <= i < |cols| => ClientView(cols[i]))
  }

  lemma EofBack()
    ensures ReadEof(EOF_PACKET) == Some([0, 0])
  {
    PowersOf256();
    NumbersBack([2, 2], [0, 0], []);
    var bs := NumberList([2, 2], [0, 0]);
    assert LittleEndian(0, 2) == [0, 0];
    assert bs == [[0, 0]] + [[0, 0]] && [[0, 0]] == [[0, 0]] + [];
    FlattenCons([0, 0], [[0, 0]]);
    FlattenCons([0, 0], []);
    assert Flatten(bs) + [] == EOF_PACKET[1..];
  }

  lemma {:induction false} EachColumnBack(views: seq<ClientColumn>, payloads: seq<Bytes>)
    requires |payloads| == |views| && forall i :: 0 <= i < |views| ==> ReadColumn(payloads[i]) == Read(views[i], [])
    ensures ReadColumns(payloads) == Some(views)
  {
    if views != [] {
      EachColumnBack(views[1..], payloads[1..]);
      assert views == [views[0]] + views[1..];
    }
  }

  lemma ColumnsBack(cols: seq<Column>, payloads: seq<Bytes>)
    requires ColumnsOk(cols) && |payloads| == |cols|
    requires forall i :: 0 <= i < |cols| ==> payloads[i] == Definition(cols[i])
    ensures ReadColumns(payloads) == Some(ClientViews(cols))
  {
    forall i | 0 <= i < |cols| ensures ReadColumn(payloads[i]) == Read(ClientViews(cols)[i], []) {
      DefinitionBack(cols[i], []);
      assert Definition(cols[i]) + [] == payloads[i];
    }
    EachColumnBack(ClientViews(cols), payloads);
  }

  /** The payloads that are sent are read as the columns, in their order, and an end of file without warnings
      or flags. */
  lemma HeaderBack(cols: seq<Column>)
    requires ColumnsOk(cols)
    ensures ReadHeader(Payloads(cols) + [EOF_PACKET]) == Some(ResultHeader(ClientViews(cols), [0, 0]))
  {
    var ps := Payloads(cols) + [EOF_PACKET];
    LenencIntBack(|cols|, []);
    assert ps[0] == LenencInt(|cols|) + [];
    ColumnsBack(cols, ps[1..|cols| + 1]);
    EofBack();
  }

  /** The payloads of packets that were received. */
  function PayloadsOf(packets: seq<(int, Bytes)>): seq<Bytes> {
    seq(|packets|, i requires 0 <= i < |packets| => packets[i].1)
  }

  lemma {:induction false} ExpectedPayloads(payloads: seq<Bytes>, seqId: Byte)
    ensures PayloadsOf(Expected(payloads, seqId)) == payloads
    decreases payloads
  {
    if payloads != [] {
      ExpectedPayloads(payloads[1..], IdAfter(|payloads[0]|, seqId));
      var more := Expected(payloads[1..], IdAfter(|payloads[0]|, seqId));
      assert PayloadsOf(Expected(payloads, seqId)) == [payloads[0]] + PayloadsOf(more);
      assert payloads == [payloads[0]] + payloads[1..];
    }
  }

  /** What a client makes of a stream that starts a result set. */
  function ClientReads(checked: bool, stream: Bytes): Option<ResultHeader> {
    ReadHeader(PayloadsOf(ParseAll(checked, stream).0))
  }

  /** From the wire to the client: the count, each column in order, and the end-of-file packet. */
  lemma DefinitionsArrive(checked: bool, cols: seq<Column>, seqId: Byte)
    requires ColumnsOk(cols)
    ensures var arrives := checked ==> NoWraps(Payloads(cols) + [EOF_PACKET], seqId);
            (ParseAll(checked, Uncached(cols, seqId)).1.AtEnd? <==> arrives) &&
            (arrives ==> ClientReads(checked, Uncached(cols, seqId)) == Some(ResultHeader(ClientViews(cols), [0, 0])))
  {
    var ps := Payloads(cols) + [EOF_PACKET];
    ReceivedIffNoWraps(checked, ps, seqId);
    if checked ==> NoWraps(ps, seqId) {
      RoundTrip(checked, ps, seqId);
      ExpectedPayloads(ps, seqId);
      HeaderBack(cols);
    }
  }

  lemma {:induction false} SmallNeverWrap(payloads: seq<Bytes>, seqId: Byte)
    requires AllSmall(payloads)
    ensures NoWraps(payloads, seqId)
    decreases payloads
  {
    if payloads != [] {
      SmallNeverWrap(payloads[1..], IdAfter(|payloads[0]|, seqId));
    }
  }

  /** ... also from prepared definitions, if ids start at 1 and definitions are small. */
  lemma CachedArrive(checked: bool, cols: seq<Column>)
    requires ColumnsOk(cols) && DefinitionsSmall(cols)
    ensures ClientReads(checked, Cached(cols, 1)) == Some(ResultHeader(ClientViews(cols), [0, 0]))
  {
    CachedIsUncached(cols);
    SmallPayloads(cols);
    SmallNeverWrap(Payloads(cols) + [EOF_PACKET], 1);
    DefinitionsArrive(checked, cols, 1);
  }
}

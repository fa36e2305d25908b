/** Column definitions of a result set: written packet by packet, or prepared once and sent raw. */
module ColumnDefinitions {
  import opened Options
  import opened ByteStrings
  import opened KeyEncoding
  import opened PacketFrames
  import opened PacketIO

  datatype Column = Column(
    table: Bytes, name: Bytes, characterSet: nat, length: Option<nat>, columnType: Byte, flags: nat)

  /** The fields have the widths of the source. */
  predicate ColumnOk(c: Column) {
    |c.table| < U64 && |c.name| < U64 && c.characterSet < 0x1_0000 && c.flags < 0x1_0000 &&
    (c.length.Some? ==> c.length.value < 0x1_0000_0000)
  }

  predicate ColumnsOk(cols: seq<Column>) {
    |cols| < U64 && forall i :: 0 <= i < |cols| ==> ColumnOk(cols[i])
  }

  // ---------------------------------------------------------------- one definition

  /** A length-encoded integer. */
  function LenencInt(n: nat): Bytes
    requires n < U64
  {
    if n <= 250 then [n]
    else if n <= 65_535 then [0xFC] + LittleEndian(n, 2)
    else if n <= 16_777_215 then [0xFD] + LittleEndian(n, 3)
    else [0xFE] + LittleEndian(n, 8)
  }

  function LenencIntLen(n: nat): nat {
    if n <= 250 then 1 else if n <= 65_535 then 3 else if n <= 16_777_215 then 4 else 9
  }

  function LenencStr(s: Bytes): Bytes
    requires |s| < U64
  {
    LenencInt(|s|) + s
  }

  function LenencStrLen(s: Bytes): nat {
    |s| + LenencIntLen(|s|)
  }

  lemma LenencLengths(s: Bytes, n: nat)
    requires |s| < U64 && n < U64
    ensures |LenencInt(n)| == LenencIntLen(n) && |LenencStr(s)| == LenencStrLen(s)
  {
  }

  const DEF: Bytes := [100, 101, 102]

  function Names(c: Column): Bytes
    requires ColumnOk(c)
  {
    LenencStr(DEF) + LenencStr([]) + LenencStr(c.table) + LenencStr([]) + LenencStr(c.name) + LenencStr([])
  }

  function Attributes(c: Column): Bytes
    requires ColumnOk(c)
  {
    LenencInt(0x0C) + LittleEndian(c.characterSet, 2) +
    LittleEndian(if c.length.Some? then c.length.value else 1024, 4) +
    [c.columnType] + LittleEndian(c.flags, 2) + [0] + [0, 0]
  }

  /** `write_column_defintion`: what is appended to a buffer. */
  function Definition(c: Column): Bytes
    requires ColumnOk(c)
  {
    Names(c) + Attributes(c)
  }

  function ColEncLen(c: Column): nat {
    LenencStrLen(DEF) + LenencStrLen([]) + LenencStrLen(c.table) + LenencStrLen([]) + LenencStrLen(c.name) +
    LenencStrLen([]) + (1 + 2 + 4 + 1 + 2 + 1 + 2)
  }

  lemma NamesLength(c: Column)
    requires ColumnOk(c)
    ensures |Names(c)| == ColEncLen(c) - 13
  {
    LenencLengths(DEF, 0);
    LenencLengths([], 0);
    LenencLengths(c.table, 0);
    LenencLengths(c.name, 0);
  }

  /** The size computed in advance is the size of the definition. */
  lemma DefinitionLength(c: Column)
    requires ColumnOk(c)
    ensures |Definition(c)| == ColEncLen(c)
  {
    NamesLength(c);
    assert |Attributes(c)| == 13;
  }

  // ---------------------------------------------------------------- prepared definitions

  /** Bitwise or. */
  function BitOr(a: nat, b: nat): nat {
    if a == 0 then b else (if a % 2 == 1 || b % 2 == 1 then 1 else 0) + 2 * BitOr(a / 2, b / 2)
  }

  /** A header computed in 32 bits: the length, or-ed with a number shifted into the last byte. */
  function RawHeader(len: nat, number: nat): (h: Bytes)
    ensures |h| == 4
  {
    [len % 256, len / 256 % 256, len / 65536 % 256, BitOr(len / 16777216 % 256, number % 256) % 256]
  }

  lemma RawHeaderIsHeader(len: nat, number: nat)
    requires len <= U24_MAX
    ensures RawHeader(len, number) == Header(len, number % 256)
  {
    assert len / 65536 < 256 && len / 16777216 == 0;
  }

  /** Packets with headers computed in advance, numbered from `number` on. */
  function PreparedFrom(payloads: seq<Bytes>, number: nat): Bytes
    decreases payloads
  {
    if payloads == [] then []
    else RawHeader(|payloads[0]|, number) + payloads[0] + PreparedFrom(payloads[1..], number + 1)
  }

  predicate AllSmall(payloads: seq<Bytes>) {
    forall i :: 0 <= i < |payloads| ==> |payloads[i]| < U24_MAX
  }

  lemma {:induction false} SmallFrames(payload: Bytes, number: nat)
    requires |payload| < U24_MAX
    ensures Frames(payload, number % 256) == RawHeader(|payload|, number) + payload
    ensures IdAfter(|payload|, number % 256) == (number + 1) % 256
  {
    RawHeaderIsHeader(|payload|, number);
  }

  /** Small packets numbered one by one are the packets that a writer would queue. */
  lemma {:induction false} PreparedIsWire(payloads: seq<Bytes>, number: nat)
    requires AllSmall(payloads)
    ensures PreparedFrom(payloads, number) == Wire(payloads, number % 256)
    ensures IdAfterAll(payloads, number % 256) == (number + |payloads|) % 256
    decreases payloads
  {
    if payloads != [] {
      SmallFrames(payloads[0], number);
      PreparedIsWire(payloads[1..], number + 1);
    }
  }

  lemma {:induction false} FramesLength(payload: Bytes, seqId: Byte)
    ensures |Frames(payload, seqId)| == |payload| + 4 * (FullChunks(|payload|) + 1)
    decreases |payload|
  {
    if |payload| >= U24_MAX {
      FramesLength(payload[U24_MAX..], NextId(seqId));
    }
  }

  /** A packet that must be cut takes more bytes than prepared. */
  lemma {:induction false} PreparedIsShorter(payloads: seq<Bytes>, number: nat, seqId: Byte)
    ensures |PreparedFrom(payloads, number)| <= |Wire(payloads, seqId)|
    ensures !AllSmall(payloads) ==> |PreparedFrom(payloads, number)| < |Wire(payloads, seqId)|
    decreases payloads
  {
    if payloads != [] {
      FramesLength(payloads[0], seqId);
      PreparedIsShorter(payloads[1..], number + 1, IdAfter(|payloads[0]|, seqId));
      assert AllSmall(payloads[1..]) && |payloads[0]| < U24_MAX ==> AllSmall(payloads);
    }
  }

  // ---------------------------------------------------------------- cached and uncached

  /** The column count, then every definition. */
  function Payloads(cols: seq<Column>): seq<Bytes>
    requires ColumnsOk(cols)
  {
    [LenencInt(|cols|)] + seq(|cols|, i requires 0 <= i < |cols| => Definition(cols[i]))
  }

  const EOF_PACKET: Bytes := [0xFE, 0, 0, 0, 0]

  function Uncached(cols: seq<Column>, seqId: Byte): Bytes
    requires ColumnsOk(cols)
  {
    Wire(Payloads(cols) + [EOF_PACKET], seqId)
  }

  /** The sequence id that the cached path leaves to its end-of-file packet. */
  function CachedId(cols: seq<Column>, seqId: Byte): Byte {
    (seqId + 1 + |cols|) % 256
  }

  function Cached(cols: seq<Column>, seqId: Byte): Bytes
    requires ColumnsOk(cols)
  {
    PreparedFrom(Payloads(cols), 1) + Frames(EOF_PACKET, CachedId(cols, seqId))
  }

  predicate DefinitionsSmall(cols: seq<Column>)
    requires ColumnsOk(cols)
  {
    forall i :: 0 <= i < |cols| ==> ColEncLen(cols[i]) < U24_MAX
  }

  lemma {:induction false} SmallPayloads(cols: seq<Column>)
    requires ColumnsOk(cols)
    ensures AllSmall(Payloads(cols)) <==> DefinitionsSmall(cols)
  {
    var ps := Payloads(cols);
    LenencLengths([], |cols|);
    forall i | 0 <= i < |cols| ensures |ps[i + 1]| == ColEncLen(cols[i]) {
      DefinitionLength(cols[i]);
    }
    if DefinitionsSmall(cols) {
      forall j | 0 <= j < |ps| ensures |ps[j]| < U24_MAX {
        if j > 0 {
          assert |ps[j - 1 + 1]| == ColEncLen(cols[j - 1]);
        }
      }
    }
  }

  /** The first sequence id on the wire. */
  lemma {:induction false} FirstId(payloads: seq<Bytes>, seqId: Byte, number: nat)
    requires payloads != [] && |payloads[0]| < U24_MAX
    ensures |Wire(payloads, seqId)| >= 4 && Wire(payloads, seqId)[3] == seqId
    ensures |PreparedFrom(payloads, number)| >= 4 && PreparedFrom(payloads, number)[3] == number % 256
  {
    RawHeaderIsHeader(|payloads[0]|, number);
  }

  /** The cached bytes are what the uncached path queues, and leave the same next sequence id, if the
      sequence starts at 1 and every definition is smaller than a full chunk. */
  lemma {:induction false} CachedIsUncached(cols: seq<Column>)
    requires ColumnsOk(cols) && DefinitionsSmall(cols)
    ensures Cached(cols, 1) == Uncached(cols, 1)
    ensures IdAfterAll(Payloads(cols) + [EOF_PACKET], 1) == NextId(CachedId(cols, 1))
  {
    SmallPayloads(cols);
    PreparedThenLast(Payloads(cols), EOF_PACKET);
  }

  lemma {:induction false} PreparedThenLast(payloads: seq<Bytes>, last: Bytes)
    requires AllSmall(payloads) && |last| < U24_MAX
    ensures PreparedFrom(payloads, 1) + Frames(last, (1 + |payloads|) % 256) == Wire(payloads + [last], 1)
    ensures IdAfterAll(payloads + [last], 1) == NextId((1 + |payloads|) % 256)
  {
    PreparedIsWire(payloads, 1);
    WireSnoc(payloads, last, 1);
    var id: Byte := (1 + |payloads|) % 256;
    assert IdAfterAll(payloads, 1) == id;
    SmallIsOne(|last|, id);
  }

  lemma {:induction false} SmallIsOne(len: nat, seqId: Byte)
    requires len < U24_MAX
    ensures IdAfter(len, seqId) == NextId(seqId)
  {
  }

  /** Exactly then are the bytes equal. */
  lemma {:induction false} CachedIsUncachedIff(cols: seq<Column>, seqId: Byte)
    requires ColumnsOk(cols)
    ensures Cached(cols, seqId) == Uncached(cols, seqId) <==> seqId == 1 && DefinitionsSmall(cols)
  {
    var ps := Payloads(cols);
    WireSnoc(ps, EOF_PACKET, seqId);
    FramesLength(EOF_PACKET, IdAfterAll(ps, seqId));
    FramesLength(EOF_PACKET, CachedId(cols, seqId));
    PreparedIsShorter(ps, 1, seqId);
    SmallPayloads(cols);
    LenencLengths([], |cols|);
    FirstId(ps, seqId, 1);
    if seqId == 1 && DefinitionsSmall(cols) {
      CachedIsUncached(cols);
    } else if DefinitionsSmall(cols) {
      assert Cached(cols, seqId)[3] == 1 && Uncached(cols, seqId)[3] == seqId;
    }
  }

  // ---------------------------------------------------------------- the writers

  lemma {:induction false} PayloadAt(cols: seq<Column>, i: nat)
    requires ColumnsOk(cols) && i < |cols|
    ensures Payloads(cols)[i + 1] == Definition(cols[i]) && |Payloads(cols)[i + 1]| == ColEncLen(cols[i])
  {
    DefinitionLength(cols[i]);
  }

  lemma {:induction false} PreparedNext(ps: seq<Bytes>, i: nat)
    requires i + 1 < |ps|
    ensures PreparedFrom(ps[..i + 2], 1) == PreparedFrom(ps[..i + 1], 1) + (RawHeader(|ps[i + 1]|, i + 2) + ps[i + 1])
  {
    PreparedSnoc(ps[..i + 1], ps[i + 1], 1);
    assert ps[..i + 2] == ps[..i + 1] + [ps[i + 1]];
  }

  /** The header and the definition of one column. */
  method PrepareColumn(c: Column, i: nat) returns (bytes: Bytes)
    requires ColumnOk(c)
    ensures bytes == RawHeader(|Definition(c)|, i + 2) + Definition(c)
  {
    DefinitionLength(c);
    bytes := RawHeader(ColEncLen(c), i + 2) + Definition(c);
  }

  /** `prepare_column_definitions` */
  method PrepareColumnDefinitions(cols: seq<Column>) returns (buf: Bytes)
    requires ColumnsOk(cols)
    ensures buf == PreparedFrom(Payloads(cols), 1)
  {
    ghost var ps := Payloads(cols);
    LenencLengths([], |cols|);
    PreparedStart(LenencInt(|cols|));
    buf := RawHeader(LenencIntLen(|cols|), 1) + LenencInt(|cols|);
    assert ps[..1] == [LenencInt(|cols|)];
    for i := 0 to |cols|
      invariant |ps| == |cols| + 1 && buf == PreparedFrom(ps[..i + 1], 1)
    {
      var bytes := PrepareColumn(cols[i], i);
      PayloadAt(cols, i);
      PreparedNext(ps, i);
      buf := buf + bytes;
    }
    assert ps[..|cols| + 1] == ps;
  }

  lemma {:induction false} PreparedStart(p: Bytes)
    ensures PreparedFrom([p], 1) == RawHeader(|p|, 1) + p
  {
    assert [p][1..] == [];
    assert PreparedFrom([p], 1) == RawHeader(|p|, 1) + p + PreparedFrom([], 2);
  }

  lemma PreparedCons(payloads: seq<Bytes>, number: nat)
    requires payloads != []
    ensures PreparedFrom(payloads, number) ==
            RawHeader(|payloads[0]|, number) + payloads[0] + PreparedFrom(payloads[1..], number + 1)
  {
  }

  lemma {:induction false} PreparedSnoc(payloads: seq<Bytes>, p: Bytes, number: nat)
    ensures PreparedFrom(payloads + [p], number) ==
            PreparedFrom(payloads, number) + (RawHeader(|p|, number + |payloads|) + p)
    decreases payloads
  {
    var all, last := payloads + [p], RawHeader(|p|, number + |payloads|) + p;
    PreparedCons(all, number);
    if payloads == [] {
      assert all == [p] && all[1..] == [];
      assert PreparedFrom(all, number) == last + [] && PreparedFrom(payloads, number) == [];
    } else {
      PreparedSnoc(payloads[1..], p, number + 1);
      PreparedCons(payloads, number);
      assert all[0] == payloads[0] && all[1..] == payloads[1..] + [p];
      Reassociate(RawHeader(|payloads[0]|, number) + payloads[0], PreparedFrom(payloads[1..], number + 1), last);
    }
  }

  /** Queues packets one by one. */
  method EnqueueAll(w: PacketWriter, ps: seq<Bytes>)
    modifies w
    ensures QueueBytes(w.queue) == old(QueueBytes(w.queue)) + Wire(ps, old(w.seqId))
    ensures w.seqId == IdAfterAll(ps, old(w.seqId))
  {
    ghost var queued, first := QueueBytes(w.queue), w.seqId;
    for i := 0 to |ps|
      invariant QueueBytes(w.queue) == queued + Wire(ps[..i], first)
      invariant w.seqId == IdAfterAll(ps[..i], first)
    {
      WireSnoc(ps[..i], ps[i], first);
      Reassociate(queued, Wire(ps[..i], first), Frames(ps[i], w.seqId));
      assert ps[..i + 1] == ps[..i] + [ps[i]];
      w.EnqueuePacket(ps[i]);
    }
    assert ps[..|ps|] == ps;
  }

  /** `column_definitions`: the count, the definitions and the end-of-file packet, each queued. */
  method WriteColumnDefinitions(w: PacketWriter, cols: seq<Column>)
    requires ColumnsOk(cols)
    modifies w
    ensures QueueBytes(w.queue) == old(QueueBytes(w.queue)) + Uncached(cols, old(w.seqId))
    ensures w.seqId == IdAfterAll(Payloads(cols) + [EOF_PACKET], old(w.seqId))
  {
    EnqueueAll(w, Payloads(cols) + [EOF_PACKET]);
  }

  /** Queues bytes that hold `count + 1` packets, then the end-of-file packet. */
  method EnqueuePrepared(w: PacketWriter, bytes: Bytes, count: nat)
    modifies w
    ensures QueueBytes(w.queue) ==
            old(QueueBytes(w.queue)) + (bytes + Frames(EOF_PACKET, (old(w.seqId) + 1 + count) % 256))
    ensures w.seqId == NextId((old(w.seqId) + 1 + count) % 256)
  {
    Reassociate(QueueBytes(w.queue), bytes, Frames(EOF_PACKET, (w.seqId + 1 + count) % 256));
    SkipIds(w.seqId, count);
    w.EnqueueRaw(bytes);
    w.seqId := (w.seqId + (1 + count) % 256) % 256;
    WriteEofPacket(w);
  }

  /** `write_eof_packet`, without status flags. */
  method WriteEofPacket(w: PacketWriter)
    modifies w
    ensures QueueBytes(w.queue) == old(QueueBytes(w.queue)) + Frames(EOF_PACKET, old(w.seqId))
    ensures w.seqId == NextId(old(w.seqId))
  {
    SmallIsOne(|EOF_PACKET|, w.seqId);
    w.EnqueuePacket(EOF_PACKET);
  }

  /** Adding the low byte of a number wraps like adding the number. */
  lemma SkipIds(seqId: Byte, count: nat)
    ensures (seqId + (1 + count) % 256) % 256 == (seqId + 1 + count) % 256
  {
  }

  /** `column_definitions_cached`: with the prepared definitions, the bytes of `Cached`. */
  method WriteCachedColumnDefinitions(w: PacketWriter, cols: seq<Column>, cached: Bytes)
    modifies w
    ensures QueueBytes(w.queue) ==
            old(QueueBytes(w.queue)) + (cached + Frames(EOF_PACKET, (old(w.seqId) + 1 + |cols|) % 256))
    ensures w.seqId == NextId((old(w.seqId) + 1 + |cols|) % 256)
    ensures ColumnsOk(cols) && cached == PreparedFrom(Payloads(cols), 1) ==>
              QueueBytes(w.queue) == old(QueueBytes(w.queue)) + Cached(cols, old(w.seqId))
  {
    EnqueuePrepared(w, cached, |cols|);
  }
}

/** MySQL packet framing: a payload becomes chunks with a length and a sequence id, and a parser puts
    the chunks together again. */
module PacketFrames {
  import opened Options
  import opened ByteStrings

  const U24_MAX: nat := 16_777_215

  // ---------------------------------------------------------------- chunks

  /** Three bytes of length, least significant first, and the sequence id. */
  function Header(len: nat, seqId: Byte): (h: Bytes)
    requires len <= U24_MAX
    ensures |h| == 4
  {
    [len % 256, len / 256 % 256, len / 65536, seqId]
  }

  function Length24(a: Byte, b: Byte, c: Byte): (n: nat)
    ensures n <= U24_MAX
  {
    a + 256 * b + 65536 * c
  }

  lemma LengthOfHeader(len: nat, seqId: Byte)
    requires len <= U24_MAX
    ensures var h := Header(len, seqId); Length24(h[0], h[1], h[2]) == len
    ensures Header(len, seqId)[..3] == [255, 255, 255] <==> len == U24_MAX
  {
    var h := Header(len, seqId);
    assert len / 256 == len / 256 % 256 + 256 * (len / 65536);
    assert h[..3] == [h[0], h[1], h[2]];
  }

  function NextId(seqId: Byte): Byte {
    (seqId + 1) % 256
  }

  /** The bytes of a payload on the wire. A payload that fills its last chunk is followed by an empty
      one. */
  function Frames(payload: Bytes, seqId: Byte): Bytes
    decreases |payload|
  {
    if |payload| >= U24_MAX then
      Header(U24_MAX, seqId) + payload[..U24_MAX] + Frames(payload[U24_MAX..], NextId(seqId))
    else
      Header(|payload|, seqId) + payload
  }

  /** How many chunks of a payload of this length are full. */
  function FullChunks(len: nat): nat {
    if len >= U24_MAX then 1 + FullChunks(len - U24_MAX) else 0
  }

  /** The sequence id of the last chunk of a payload. */
  function LastId(len: nat, seqId: Byte): Byte
    decreases len
  {
    if len >= U24_MAX then LastId(len - U24_MAX, NextId(seqId)) else seqId
  }

  /** The sequence id after a payload. */
  function IdAfter(len: nat, seqId: Byte): Byte
    decreases len
  {
    if len >= U24_MAX then IdAfter(len - U24_MAX, NextId(seqId)) else NextId(seqId)
  }

  lemma {:induction false} IdsCount(len: nat, seqId: Byte)
    ensures LastId(len, seqId) == (seqId + FullChunks(len)) % 256
    ensures IdAfter(len, seqId) == NextId(LastId(len, seqId))
    decreases len
  {
    if len >= U24_MAX {
      IdsCount(len - U24_MAX, NextId(seqId));
    }
  }

  /** No chunk of the payload but the first has sequence id 0. */
  predicate NoWrap(len: nat, seqId: Byte) {
    seqId + FullChunks(len) <= 255
  }

  // ---------------------------------------------------------------- the parser

  datatype Chunk = Chunk(seqId: Byte, bytes: Bytes, rest: Bytes)

  /** `onepacket` */
  function OnePacket(i: Bytes): Option<Chunk> {
    if |i| < 4 then None
    else
      var len := Length24(i[0], i[1], i[2]);
      if |i| < 4 + len then None else Some(Chunk(i[3], i[4..4 + len], i[4 + len..]))
  }

  /** `fullpacket` */
  function FullPacket(i: Bytes): Option<Chunk> {
    if |i| < 4 + U24_MAX || i[..3] != [255, 255, 255] then None
    else Some(Chunk(i[3], i[4..4 + U24_MAX], i[4 + U24_MAX..]))
  }

  /** A payload borrowed from the input while it is one chunk, and owned once it is several. */
  datatype Packet = Packet(slice: Bytes, owned: Bytes)

  predicate PacketOk(p: Packet) {
    p.slice == [] || p.owned == []
  }

  function AsRef(p: Packet): Bytes {
    if p.owned == [] then p.slice else p.owned
  }

  /** The assertion in the source that nothing is owned while a slice is held never fails, and the
      payload grows by exactly the new bytes. */
  function Extend(p: Packet, bytes: Bytes): (r: Packet)
    requires PacketOk(p)
    ensures PacketOk(r) && AsRef(r) == AsRef(p) + bytes
  {
    if p.slice == [] then
      if p.owned == [] then Packet(bytes, p.owned) else Packet(p.slice, p.owned + bytes)
    else
      Packet([], p.slice + bytes)
  }

  /** The chunks met so far: the last sequence id and the payload. */
  datatype Prefix = Prefix(seqId: Byte, packet: Packet)

  predicate PrefixOk(before: Option<Prefix>) {
    before.Some? ==> PacketOk(before.value.packet)
  }

  function Payload(before: Option<Prefix>): Bytes {
    if before.None? then [] else AsRef(before.value.packet)
  }

  /** The next chunk must carry the next sequence id. Where arithmetic is checked for overflow there is
      none after 255; else it wraps. */
  predicate Follows(checked: bool, before: Option<Prefix>, seqId: Byte) {
    before.Some? ==> seqId == if checked then before.value.seqId + 1 else NextId(before.value.seqId)
  }

  function Joined(before: Option<Prefix>, bytes: Bytes): (r: Packet)
    requires PrefixOk(before)
    ensures PacketOk(r) && AsRef(r) == Payload(before) + bytes
  {
    if before.None? then Packet(bytes, []) else Extend(before.value.packet, bytes)
  }

  /** `Panic` is a failed assertion on sequence ids, or an overflow in it. */
  datatype Parsed = Incomplete | Panic | Done(seqId: Byte, packet: Packet, rest: Bytes)

  /** `packet`: full chunks as long as there are any, then one more chunk. */
  function ParseFrom(checked: bool, i: Bytes, before: Option<Prefix>): Parsed
    requires PrefixOk(before)
    decreases |i|
  {
    match FullPacket(i)
    case Some(full) =>
      if !Follows(checked, before, full.seqId) then Panic
      else ParseFrom(checked, full.rest, Some(Prefix(full.seqId, Joined(before, full.bytes))))
    case None =>
      match OnePacket(i)
      case None => Incomplete
      case Some(last) =>
        if !Follows(checked, before, last.seqId) then Panic
        else Done(last.seqId, Joined(before, last.bytes), last.rest)
  }

  function ParsePacket(checked: bool, i: Bytes): Parsed {
    ParseFrom(checked, i, None)
  }

  // ---------------------------------------------------------------- more input changes nothing

  lemma FullIsOne(i: Bytes)
    ensures FullPacket(i).Some? ==> OnePacket(i) == FullPacket(i)
    ensures OnePacket(i).Some? && FullPacket(i).None? ==> i[..3] != [255, 255, 255]
  {
    if |i| >= 4 {
      assert i[..3] == [i[0], i[1], i[2]];
    }
  }

  lemma MoreInputOne(i: Bytes, more: Bytes)
    ensures FullPacket(i).Some? ==>
              FullPacket(i + more) == Some(FullPacket(i).value.(rest := FullPacket(i).value.rest + more))
    ensures OnePacket(i).Some? && FullPacket(i).None? ==>
              FullPacket(i + more).None? &&
              OnePacket(i + more) == Some(OnePacket(i).value.(rest := OnePacket(i).value.rest + more))
  {
    FullIsOne(i);
    if |i| >= 4 {
      assert (i + more)[..3] == i[..3];
      var len := Length24(i[0], i[1], i[2]);
      if |i| >= 4 + len {
        assert (i + more)[4..4 + len] == i[4..4 + len];
        assert (i + more)[4 + len..] == i[4 + len..] + more;
      }
    }
  }

  /** Once the parser has decided, more input only adds to the rest: how the input is cut into reads
      does not matter. */
  lemma {:induction false} MoreInput(checked: bool, i: Bytes, before: Option<Prefix>, more: Bytes)
    requires PrefixOk(before)
    ensures match ParseFrom(checked, i, before)
            case Incomplete => true
            case Panic => ParseFrom(checked, i + more, before).Panic?
            case Done(seqId, p, rest) => ParseFrom(checked, i + more, before) == Done(seqId, p, rest + more)
    decreases |i|
  {
    MoreInputOne(i, more);
    if FullPacket(i).Some? && Follows(checked, before, FullPacket(i).value.seqId) {
      var full := FullPacket(i).value;
      MoreInput(checked, full.rest, Some(Prefix(full.seqId, Joined(before, full.bytes))), more);
    }
  }

  /** The rest is the end of the input, and shorter than it. */
  lemma {:induction false} RestIsEnd(checked: bool, i: Bytes, before: Option<Prefix>)
    requires PrefixOk(before) && ParseFrom(checked, i, before).Done?
    ensures var rest := ParseFrom(checked, i, before).rest; |rest| < |i| && rest == i[|i| - |rest|..]
    decreases |i|
  {
    if FullPacket(i).Some? {
      var full := FullPacket(i).value;
      RestIsEnd(checked, full.rest, Some(Prefix(full.seqId, Joined(before, full.bytes))));
    }
  }

  // ---------------------------------------------------------------- what was framed is parsed

  lemma FullChunkParses(body: Bytes, seqId: Byte, rest: Bytes)
    requires |body| == U24_MAX
    ensures FullPacket(Header(U24_MAX, seqId) + body + rest) == Some(Chunk(seqId, body, rest))
  {
    LengthOfHeader(U24_MAX, seqId);
    var h := Header(U24_MAX, seqId);
    var i := h + body + rest;
    assert i[..3] == h[..3];
    assert i[4..4 + U24_MAX] == body && i[4 + U24_MAX..] == rest;
  }

  lemma LastChunkParses(body: Bytes, seqId: Byte, rest: Bytes)
    requires |body| < U24_MAX
    ensures FullPacket(Header(|body|, seqId) + body + rest).None?
    ensures OnePacket(Header(|body|, seqId) + body + rest) == Some(Chunk(seqId, body, rest))
  {
    LengthOfHeader(|body|, seqId);
    var h := Header(|body|, seqId);
    var i := h + body + rest;
    assert i[..3] == h[..3];
    assert i[4..4 + |body|] == body && i[4 + |body|..] == rest;
  }

  lemma FramesStep(payload: Bytes, seqId: Byte, rest: Bytes)
    requires |payload| >= U24_MAX
    ensures Frames(payload, seqId) + rest ==
            Header(U24_MAX, seqId) + payload[..U24_MAX] + (Frames(payload[U24_MAX..], NextId(seqId)) + rest)
  {
  }

  /** The input starts with the chunks of this payload, and `rest` follows. */
  ghost predicate Framed(i: Bytes, payload: Bytes, seqId: Byte, rest: Bytes)
    decreases |payload|
  {
    if |payload| >= U24_MAX then
      FullPacket(i).Some? && FullPacket(i).value.seqId == seqId && FullPacket(i).value.bytes == payload[..U24_MAX] &&
      Framed(FullPacket(i).value.rest, payload[U24_MAX..], NextId(seqId), rest)
    else
      FullPacket(i).None? && OnePacket(i) == Some(Chunk(seqId, payload, rest))
  }

  lemma {:induction false} FramesAreFramed(payload: Bytes, seqId: Byte, rest: Bytes)
    ensures Framed(Frames(payload, seqId) + rest, payload, seqId, rest)
    decreases |payload|
  {
    if |payload| < U24_MAX {
      LastChunkParses(payload, seqId, rest);
    } else {
      FramesStep(payload, seqId, rest);
      FullChunkParses(payload[..U24_MAX], seqId, Frames(payload[U24_MAX..], NextId(seqId)) + rest);
      FramesAreFramed(payload[U24_MAX..], NextId(seqId), rest);
    }
  }

  /** A payload whose sequence id does not follow makes the parser panic. */
  lemma WrongIdPanics(checked: bool, i: Bytes, payload: Bytes, seqId: Byte, before: Option<Prefix>, rest: Bytes)
    requires PrefixOk(before) && !Follows(checked, before, seqId) && Framed(i, payload, seqId, rest)
    ensures ParseFrom(checked, i, before).Panic?
  {
  }

  ghost predicate IsParsed(r: Parsed, seqId: int, payload: Bytes, rest: Bytes) {
    r.Done? && r.seqId == seqId && r.rest == rest && AsRef(r.packet) == payload
  }

  lemma {:induction false} FramedParses(checked: bool, i: Bytes, payload: Bytes, seqId: Byte, before: Option<Prefix>,
                                        rest: Bytes)
    requires PrefixOk(before) && Follows(checked, before, seqId) && Framed(i, payload, seqId, rest)
    requires checked ==> NoWrap(|payload|, seqId)
    ensures IsParsed(ParseFrom(checked, i, before), LastId(|payload|, seqId), Payload(before) + payload, rest)
    decreases |payload|
  {
    if |payload| >= U24_MAX {
      var body, tail := payload[..U24_MAX], payload[U24_MAX..];
      FramedParses(checked, FullPacket(i).value.rest, tail, NextId(seqId),
                   Some(Prefix(seqId, Joined(before, body))), rest);
      assert Payload(before) + body + tail == Payload(before) + payload;
    }
  }

  lemma {:induction false} FramedPanics(i: Bytes, payload: Bytes, seqId: Byte, before: Option<Prefix>, rest: Bytes)
    requires PrefixOk(before) && Follows(true, before, seqId) && !NoWrap(|payload|, seqId) &&
             Framed(i, payload, seqId, rest)
    ensures ParseFrom(true, i, before).Panic?
    decreases |payload|
  {
    var body, tail := payload[..U24_MAX], payload[U24_MAX..];
    var next := Some(Prefix(seqId, Joined(before, body)));
    if seqId < 255 {
      FramedPanics(FullPacket(i).value.rest, tail, seqId + 1, next, rest);
    } else {
      WrongIdPanics(true, FullPacket(i).value.rest, tail, 0, next, rest);
    }
  }

  /** The parser returns a framed payload, the sequence id of its last chunk and the rest, unless
      arithmetic is checked and the sequence ids wrap within the payload: then it panics. */
  lemma FramesParse(checked: bool, payload: Bytes, seqId: Byte, rest: Bytes)
    ensures var r := ParsePacket(checked, Frames(payload, seqId) + rest);
            if checked ==> NoWrap(|payload|, seqId) then IsParsed(r, LastId(|payload|, seqId), payload, rest)
            else r.Panic?
  {
    FramesAreFramed(payload, seqId, rest);
    if checked ==> NoWrap(|payload|, seqId) {
      FramedParses(checked, Frames(payload, seqId) + rest, payload, seqId, None, rest);
      assert [] + payload == payload;
    } else {
      FramedPanics(Frames(payload, seqId) + rest, payload, seqId, None, rest);
    }
  }

  // ---------------------------------------------------------------- streams

  /** The bytes of several payloads, one after the other. */
  function Wire(payloads: seq<Bytes>, seqId: Byte): Bytes
    decreases payloads
  {
    if payloads == [] then [] else Frames(payloads[0], seqId) + Wire(payloads[1..], IdAfter(|payloads[0]|, seqId))
  }

  predicate NoWraps(payloads: seq<Bytes>, seqId: Byte)
    decreases payloads
  {
    payloads != [] ==> NoWrap(|payloads[0]|, seqId) && NoWraps(payloads[1..], IdAfter(|payloads[0]|, seqId))
  }

  /** What a client is to receive: each payload once, with the sequence id of its last chunk. */
  function Expected(payloads: seq<Bytes>, seqId: Byte): seq<(int, Bytes)>
    decreases payloads
  {
    if payloads == [] then []
    else [(LastId(|payloads[0]|, seqId) as int, payloads[0])] + Expected(payloads[1..], IdAfter(|payloads[0]|, seqId))
  }

  datatype End = AtEnd | UnexpectedEof | Panicked

  /** All packets of a stream, and how it ends. */
  function ParseAll(checked: bool, s: Bytes): (seq<(int, Bytes)>, End)
    decreases |s|
  {
    match ParsePacket(checked, s)
    case Incomplete => ([], if s == [] then AtEnd else UnexpectedEof)
    case Panic => ([], Panicked)
    case Done(seqId, p, rest) =>
      RestIsEnd(checked, s, None);
      var (more, end) := ParseAll(checked, rest);
      ([(seqId, AsRef(p))] + more, end)
  }

  /** The stream parses into these payloads, one after the other. */
  ghost predicate Carries(checked: bool, s: Bytes, payloads: seq<Bytes>, seqId: Byte)
    decreases payloads
  {
    if payloads == [] then s == []
    else
      ParsePacket(checked, s).Done? &&
      IsParsed(ParsePacket(checked, s), LastId(|payloads[0]|, seqId), payloads[0], ParsePacket(checked, s).rest) &&
      Carries(checked, ParsePacket(checked, s).rest, payloads[1..], IdAfter(|payloads[0]|, seqId))
  }

  lemma {:induction false} WireCarries(checked: bool, payloads: seq<Bytes>, seqId: Byte)
    requires checked ==> NoWraps(payloads, seqId)
    ensures Carries(checked, Wire(payloads, seqId), payloads, seqId)
    decreases payloads
  {
    if payloads != [] {
      var next := IdAfter(|payloads[0]|, seqId);
      FramesParse(checked, payloads[0], seqId, Wire(payloads[1..], next));
      WireCarries(checked, payloads[1..], next);
    }
  }

  lemma {:induction false} CarriedIsReceived(checked: bool, s: Bytes, payloads: seq<Bytes>, seqId: Byte)
    requires Carries(checked, s, payloads, seqId)
    ensures ParseAll(checked, s) == (Expected(payloads, seqId), AtEnd)
    decreases payloads
  {
    if payloads != [] {
      CarriedIsReceived(checked, ParsePacket(checked, s).rest, payloads[1..], IdAfter(|payloads[0]|, seqId));
    }
  }

  /** Every payload comes back once, in order: always where arithmetic wraps, and without wraps where it
      is checked. */
  lemma RoundTrip(checked: bool, payloads: seq<Bytes>, seqId: Byte)
    requires checked ==> NoWraps(payloads, seqId)
    ensures ParseAll(checked, Wire(payloads, seqId)) == (Expected(payloads, seqId), AtEnd)
  {
    WireCarries(checked, payloads, seqId);
    CarriedIsReceived(checked, Wire(payloads, seqId), payloads, seqId);
  }

  lemma {:induction false} SomeWrapPanics(payloads: seq<Bytes>, seqId: Byte)
    requires !NoWraps(payloads, seqId)
    ensures ParseAll(true, Wire(payloads, seqId)).1.Panicked?
    decreases payloads
  {
    var next := IdAfter(|payloads[0]|, seqId);
    var more := Wire(payloads[1..], next);
    FramesParse(true, payloads[0], seqId, more);
    if NoWrap(|payloads[0]|, seqId) {
      SomeWrapPanics(payloads[1..], next);
      assert ParseAll(true, Wire(payloads, seqId)).1 == ParseAll(true, more).1;
    }
  }

  /** The condition is exact: where arithmetic is checked, a stream is received to its end only if no payload
      wraps. */
  lemma ReceivedIffNoWraps(checked: bool, payloads: seq<Bytes>, seqId: Byte)
    ensures ParseAll(checked, Wire(payloads, seqId)).1.AtEnd? <==> (checked ==> NoWraps(payloads, seqId))
  {
    if checked ==> NoWraps(payloads, seqId) {
      RoundTrip(checked, payloads, seqId);
    } else {
      SomeWrapPanics(payloads, seqId);
    }
  }
}

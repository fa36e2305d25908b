/** The packet writer and reader, over a sink and a source that move any non-zero number of bytes at a
    time. */
module PacketIO {
  import opened Options
  import opened ByteStrings
  import opened PacketFrames

  function Concat(slices: seq<Bytes>): Bytes {
    if slices == [] then [] else slices[0] + Concat(slices[1..])
  }

  lemma {:induction false} ConcatAppend(a: seq<Bytes>, b: seq<Bytes>)
    ensures Concat(a + b) == Concat(a) + Concat(b)
  {
    if a == [] {
      assert a + b == b;
    } else {
      assert (a + b)[1..] == a[1..] + b;
      ConcatAppend(a[1..], b);
    }
  }

  /** Whatever is written to. */
  class Sink {
    var out: Bytes

    constructor ()
      ensures out == []
    {
      out := [];
    }

    /** A vectored write takes some of the bytes, from the front, and at least one if there are any. */
    method WriteVectored(slices: seq<Bytes>) returns (n: nat)
      modifies this
      ensures n <= |Concat(slices)| && (Concat(slices) != [] ==> n > 0)
      ensures out == old(out) + Concat(slices)[..n]
    {
      var all := Concat(slices);
      var k: nat :| k <= |all| && (all != [] ==> k > 0);
      n := k;
      out := out + all[..n];
    }
  }

  /** `write_all_vectored`: writes to completion, skipping what was written. */
  method WriteAllVectored(w: Sink, input: seq<Bytes>)
    modifies w
    ensures w.out == old(w.out) + Concat(input)
  {
    var slices := input;
    var n := |Concat(slices)|;
    ghost var done: Bytes := [];
    while true
      invariant n == |Concat(slices)| && done + Concat(slices) == Concat(input)
      invariant w.out == old(w.out) + done
      decreases n
    {
      ghost var left := Concat(slices);
      var didWrite := w.WriteVectored(slices);
      done := done + left[..didWrite];
      if didWrite == n {
        assert left[..didWrite] == left;
        return;
      }
      n := n - didWrite;
      slices := Advance(slices, didWrite);
      assert left == left[..didWrite] + left[didWrite..];
    }
  }

  /** Drops bytes that are fewer than there are: entire slices first, then part of one. */
  method Advance(input: seq<Bytes>, count: nat) returns (slices: seq<Bytes>)
    requires count < |Concat(input)|
    ensures Concat(slices) == Concat(input)[count..]
  {
    slices := input;
    var k: nat := count;
    while k >= |slices[0]|
      invariant slices != [] && k < |Concat(slices)| && Concat(slices)[k..] == Concat(input)[count..]
      decreases |slices|
    {
      DropFirst(slices, k);
      k := k - |slices[0]|;
      slices := slices[1..];
    }
    ghost var before := slices;
    slices := [slices[0][k..]] + slices[1..];
    assert slices[1..] == before[1..];
    assert Concat(before)[k..] == before[0][k..] + Concat(before[1..]);
  }

  lemma DropFirst(slices: seq<Bytes>, k: nat)
    requires slices != [] && |slices[0]| <= k < |Concat(slices)|
    ensures slices[1..] != [] && k - |slices[0]| < |Concat(slices[1..])|
    ensures Concat(slices)[k..] == Concat(slices[1..])[k - |slices[0]|..]
  {
  }

  datatype QueuedPacket = Raw(bytes: Bytes) | WithHeader(header: Bytes, body: Bytes)

  function Slices(p: QueuedPacket): seq<Bytes> {
    match p
    case Raw(b) => [b]
    case WithHeader(h, b) => [h, b]
  }

  function OnWire(p: QueuedPacket): Bytes {
    match p
    case Raw(b) => b
    case WithHeader(h, b) => h + b
  }

  lemma SlicesOnWire(p: QueuedPacket)
    ensures Concat(Slices(p)) == OnWire(p)
  {
    match p
    case Raw(b) =>
      assert Concat([b]) == b + Concat([]);
    case WithHeader(h, b) =>
      assert [h, b][1..] == [b];
      assert Concat([h, b]) == h + Concat([b]);
      assert Concat([b]) == b + Concat([]);
  }

  /** The bytes of a queue on the wire. */
  function QueueBytes(queue: seq<QueuedPacket>): Bytes {
    if queue == [] then [] else OnWire(queue[0]) + QueueBytes(queue[1..])
  }

  lemma {:induction false} QueueConcat(a: seq<QueuedPacket>, b: seq<QueuedPacket>)
    ensures QueueBytes(a + b) == QueueBytes(a) + QueueBytes(b)
  {
    if a == [] {
      assert a + b == b;
    } else {
      assert (a + b)[0] == a[0] && (a + b)[1..] == a[1..] + b;
      QueueConcat(a[1..], b);
      Reassociate(OnWire(a[0]), QueueBytes(a[1..]), QueueBytes(b));
    }
  }

  lemma QueueFirst(p: QueuedPacket, queue: seq<QueuedPacket>)
    ensures QueueBytes([p] + queue) == OnWire(p) + QueueBytes(queue)
  {
    assert ([p] + queue)[1..] == queue;
  }

  lemma QueuePush(queue: seq<QueuedPacket>, p: QueuedPacket)
    ensures QueueBytes(queue + [p]) == QueueBytes(queue) + OnWire(p)
  {
    QueueConcat(queue, [p]);
    QueueFirst(p, []);
    assert [p] + [] == [p];
  }

  /** `queued_packet_slices` */
  method QueuedSlices(queue: seq<QueuedPacket>) returns (slices: seq<Bytes>)
    ensures Concat(slices) == QueueBytes(queue)
    ensures queue == [] <==> slices == []
  {
    slices := [];
    for i := 0 to |queue|
      invariant Concat(slices) == QueueBytes(queue[..i])
      invariant i == 0 <==> slices == []
    {
      ConcatAppend(slices, Slices(queue[i]));
      SlicesOnWire(queue[i]);
      QueuePush(queue[..i], queue[i]);
      assert queue[..i + 1] == queue[..i] + [queue[i]];
      slices := slices + Slices(queue[i]);
    }
    assert queue[..|queue|] == queue;
  }

  /** The chunks of a payload. */
  ghost function Cut(packet: Bytes, seqId: Byte): seq<QueuedPacket>
    decreases |packet|
  {
    if |packet| >= U24_MAX then
      [WithHeader(Header(U24_MAX, seqId), packet[..U24_MAX])] + Cut(packet[U24_MAX..], NextId(seqId))
    else
      [WithHeader(Header(|packet|, seqId), packet)]
  }

  lemma {:induction false} CutFrames(packet: Bytes, seqId: Byte)
    ensures QueueBytes(Cut(packet, seqId)) == Frames(packet, seqId)
    decreases |packet|
  {
    if |packet| >= U24_MAX {
      CutFrames(packet[U24_MAX..], NextId(seqId));
      QueueFirst(WithHeader(Header(U24_MAX, seqId), packet[..U24_MAX]), Cut(packet[U24_MAX..], NextId(seqId)));
    } else {
      QueueFirst(WithHeader(Header(|packet|, seqId), packet), []);
    }
  }

  lemma CutNext(queue: seq<QueuedPacket>, packet: Bytes, seqId: Byte)
    requires |packet| >= U24_MAX
    ensures queue + Cut(packet, seqId) ==
            queue + [WithHeader(Header(U24_MAX, seqId), packet[..U24_MAX])] + Cut(packet[U24_MAX..], NextId(seqId))
  {
  }

  class PacketWriter {
    const w: Sink
    var seqId: Byte
    var queue: seq<QueuedPacket>

    constructor (w: Sink, seqId: Byte)
      ensures this.w == w && this.seqId == seqId && queue == []
    {
      this.w := w;
      this.seqId := seqId;
      queue := [];
    }

    /** Queues a payload, cut into chunks. */
    method EnqueuePacket(input: Bytes)
      modifies this
      ensures queue == old(queue) + Cut(input, old(seqId))
      ensures QueueBytes(queue) == old(QueueBytes(queue)) + Frames(input, old(seqId))
      ensures seqId == IdAfter(|input|, old(seqId))
    {
      CutFrames(input, seqId);
      QueueConcat(queue, Cut(input, seqId));
      var packet := input;
      while |packet| >= U24_MAX
        invariant queue + Cut(packet, seqId) == old(queue) + Cut(input, old(seqId))
        invariant IdAfter(|packet|, seqId) == IdAfter(|input|, old(seqId))
        decreases |packet|
      {
        CutNext(queue, packet, seqId);
        queue := queue + [WithHeader(Header(U24_MAX, seqId), packet[..U24_MAX])];
        seqId := NextId(seqId);
        packet := packet[U24_MAX..];
      }
      queue := queue + [WithHeader(Header(|packet|, seqId), packet)];
      seqId := NextId(seqId);
    }

    /** Queues bytes as they are. */
    method EnqueueRaw(bytes: Bytes)
      modifies this`queue
      ensures QueueBytes(queue) == old(QueueBytes(queue)) + bytes && queue == old(queue) + [Raw(bytes)]
    {
      QueuePush(queue, Raw(bytes));
      queue := queue + [Raw(bytes)];
    }

    /** Sends all queued packets. */
    method WriteQueuedPackets()
      requires this != w as object
      modifies this`queue, w
      ensures w.out == old(w.out) + old(QueueBytes(queue)) && queue == []
    {
      var slices := QueuedSlices(queue);
      if slices != [] {
        WriteAllVectored(w, slices);
        queue := [];
      }
    }

    /** The slices of a large payload: a header and a part for each chunk. */
    method LargeSlices(input: Bytes) returns (slices: seq<Bytes>)
      requires |input| >= U24_MAX
      modifies this`seqId
      ensures Concat(slices) == Frames(input, old(seqId)) && seqId == IdAfter(|input|, old(seqId))
    {
      slices := [];
      var packet := input;
      while |packet| >= U24_MAX
        invariant Concat(slices) + Frames(packet, seqId) == Frames(input, old(seqId))
        invariant IdAfter(|packet|, seqId) == IdAfter(|input|, old(seqId))
        decreases |packet|
      {
        TwoSlices(slices, Header(U24_MAX, seqId), packet[..U24_MAX]);
        slices := slices + [Header(U24_MAX, seqId), packet[..U24_MAX]];
        seqId := NextId(seqId);
        packet := packet[U24_MAX..];
      }
      TwoSlices(slices, Header(|packet|, seqId), packet);
      slices := slices + [Header(|packet|, seqId), packet];
      seqId := NextId(seqId);
    }

    /** Sends the queue and a payload of at least one full chunk. */
    method WriteLargePacket(packet: Bytes)
      requires this != w as object && |packet| >= U24_MAX
      modifies this, w
      ensures w.out == old(w.out) + old(QueueBytes(queue)) + Frames(packet, old(seqId))
      ensures seqId == IdAfter(|packet|, old(seqId)) && queue == []
    {
      var slices := QueuedSlices(queue);
      var more := LargeSlices(packet);
      ConcatAppend(slices, more);
      WriteAllVectored(w, slices + more);
      queue := [];
    }

    /** Sends a payload at once, behind what is queued. A queue that is sent along with a payload smaller
        than a chunk is not cleared: it will be sent again. */
    method WritePacket(packet: Bytes)
      requires this != w as object
      modifies this, w
      ensures w.out == old(w.out) + old(QueueBytes(queue)) + Frames(packet, old(seqId))
      ensures seqId == IdAfter(|packet|, old(seqId))
      ensures queue == if |packet| >= U24_MAX then [] else old(queue)
    {
      if |packet| >= U24_MAX {
        WriteLargePacket(packet);
        return;
      }
      var slices := QueuedSlices(queue);
      TwoSlices(slices, Header(|packet|, seqId), packet);
      Reassociate(w.out, QueueBytes(queue), Frames(packet, seqId));
      WriteAllVectored(w, slices + [Header(|packet|, seqId), packet]);
      seqId := NextId(seqId);
    }
  }

  /** Whatever is read from. */
  class Source {
    var data: Bytes

    constructor (data: Bytes)
      ensures this.data == data
    {
      this.data := data;
    }

    /** A read returns some of the bytes that are left, and none only at the end. */
    method Read(room: nat) returns (bytes: Bytes)
      requires room > 0
      modifies this
      ensures bytes + data == old(data) && |bytes| <= room && (old(data) != [] ==> bytes != [])
    {
      if data == [] {
        return [];
      }
      var n: nat :| 0 < n <= room && n <= |data|;
      bytes := data[..n];
      data := data[n..];
    }
  }

  /** What `next` returns: a packet, the end of the stream, or one of its failures. */
  datatype Received = Packet(seqId: Byte, payload: Bytes) | Nothing | Broken | AssertionFailed

  /** The answer of `next` on a stream, and the stream after it. */
  ghost predicate IsNext(checked: bool, stream: Bytes, p: Received, after: Bytes) {
    match ParsePacket(checked, stream)
    case Done(seqId, packet, rest) => p == Received.Packet(seqId, AsRef(packet)) && after == rest
    case Panic => p == AssertionFailed
    case Incomplete => after == stream && p == if stream == [] then Nothing else Broken
  }

  /** One answer more of all that a stream holds. */
  lemma TakeOne(checked: bool, stream: Bytes, got: seq<(int, Bytes)>, p: Received, after: Bytes)
    requires IsNext(checked, stream, p, after)
    ensures match p
            case Packet(seqId, payload) =>
              |after| < |stream| && ParseAll(checked, stream).1 == ParseAll(checked, after).1 &&
              got + ParseAll(checked, stream).0 == got + [(seqId as int, payload)] + ParseAll(checked, after).0
            case Nothing => ParseAll(checked, stream) == ([], AtEnd) && got + [] == got
            case Broken => ParseAll(checked, stream) == ([], UnexpectedEof) && got + [] == got
            case AssertionFailed => ParseAll(checked, stream) == ([], Panicked) && got + [] == got
  {
    if ParsePacket(checked, stream).Done? {
      RestIsEnd(checked, stream, None);
    }
  }

  /** What the parser says of the bytes read so far holds of the whole stream. */
  lemma ParsedSoFar(checked: bool, unread: Bytes, data: Bytes)
    ensures unread == [] ==> ParsePacket(checked, unread).Incomplete?
    ensures match ParsePacket(checked, unread)
            case Done(seqId, packet, rest) =>
              |rest| <= |unread| && rest == unread[|unread| - |rest|..] &&
              IsNext(checked, unread + data, Received.Packet(seqId, AsRef(packet)), rest + data)
            case Panic => forall after :: IsNext(checked, unread + data, AssertionFailed, after)
            case Incomplete => true
  {
    MoreInput(checked, unread, None, data);
    if ParsePacket(checked, unread).Done? {
      RestIsEnd(checked, unread, None);
    }
  }

  class PacketReader {
    const r: Source
    /** Whether arithmetic is checked for overflow in this build. */
    const checked: bool
    var bytes: Bytes
    var start: nat
    var remaining: nat

    constructor (r: Source, checked: bool)
      ensures this.r == r && this.checked == checked && Valid() && Stream() == r.data
    {
      this.r := r;
      this.checked := checked;
      bytes, start, remaining := [], 0, 0;
    }

    ghost predicate Valid()
      reads this
    {
      start <= |bytes| && remaining <= |bytes| && this != r as object
    }

    /** All bytes that were not yet returned as part of a packet. */
    ghost function Stream(): Bytes
      reads this, r
      requires Valid()
    {
      bytes[|bytes| - remaining..] + r.data
    }

    /** Drops what was returned and reads more, into room that doubles. */
    method ReadMore() returns (read: Bytes)
      requires Valid() && remaining == |bytes| - start
      modifies this, r
      ensures Valid() && start == 0 && remaining == |bytes|
      ensures bytes == old(bytes[start..]) + read && read + r.data == old(r.data)
      ensures old(r.data) != [] ==> read != []
    {
      bytes, start := bytes[start..], 0;
      var end := |bytes|;
      var newLen := if 4096 >= end * 2 then 4096 else end * 2;
      read := r.Read(newLen - end);
      bytes := bytes + read;
      remaining := |bytes|;
    }

    /** Parses what was read so far. */
    method Attempt() returns (p: Option<Received>)
      requires Valid() && remaining == |bytes| - start
      modifies this`remaining
      ensures Valid()
      ensures p.Some? ==> IsNext(checked, old(Stream()), p.value, Stream())
      ensures p.None? ==> ParsePacket(checked, bytes[start..]).Incomplete? && remaining == old(remaining)
    {
      var unread := bytes[start..];
      ParsedSoFar(checked, unread, r.data);
      if remaining != 0 {
        var parsed := ParsePacket(checked, unread);
        if parsed.Done? {
          remaining := |parsed.rest|;
          assert bytes[|bytes| - remaining..] == unread[|unread| - remaining..];
          return Some(Received.Packet(parsed.seqId, AsRef(parsed.packet)));
        } else if parsed.Panic? {
          return Some(AssertionFailed);
        }
      }
      return None;
    }

    /** The next packet, however the source cuts its bytes into reads. */
    method Next() returns (p: Received)
      requires Valid()
      modifies this, r
      ensures Valid() && IsNext(checked, old(Stream()), p, Stream())
    {
      start := |bytes| - remaining;
      while true
        invariant Valid() && remaining == |bytes| - start && Stream() == old(Stream())
        decreases |r.data|
      {
        var decided := Attempt();
        if decided.Some? {
          return decided.value;
        }
        ghost var unread := bytes[start..];
        var read := ReadMore();
        assert Stream() == unread + (read + r.data);
        if read == [] {
          assert Stream() == bytes == unread;
          return if bytes == [] then Nothing else Broken;
        }
      }
    }

    /** Takes packets until there are no more. */
    method Drain() returns (got: seq<(int, Bytes)>, end: End)
      requires Valid()
      modifies this, r
      ensures (got, end) == ParseAll(checked, old(Stream()))
    {
      got := [];
      ghost var stream := Stream();
      assert [] + ParseAll(checked, stream).0 == ParseAll(checked, stream).0;
      while true
        invariant Valid() &&
                  ParseAll(checked, stream) == (got + ParseAll(checked, Stream()).0, ParseAll(checked, Stream()).1)
        decreases |Stream()|
      {
        ghost var before := Stream();
        var p := Next();
        TakeOne(checked, before, got, p, Stream());
        match p {
          case Packet(seqId, payload) =>
            got := got + [(seqId as int, payload)];
          case Nothing => return got, AtEnd;
          case Broken => return got, UnexpectedEof;
          case AssertionFailed => return got, Panicked;
        }
      }
    }
  }

  lemma TwoSlices(slices: seq<Bytes>, h: Bytes, b: Bytes)
    ensures Concat(slices + [h, b]) == Concat(slices) + (h + b)
  {
    ConcatAppend(slices, [h, b]);
    SlicesOnWire(WithHeader(h, b));
  }

  function IdAfterAll(payloads: seq<Bytes>, seqId: Byte): Byte
    decreases payloads
  {
    if payloads == [] then seqId else IdAfterAll(payloads[1..], IdAfter(|payloads[0]|, seqId))
  }

  lemma {:induction false} WireSnoc(payloads: seq<Bytes>, p: Bytes, seqId: Byte)
    ensures Wire(payloads + [p], seqId) == Wire(payloads, seqId) + Frames(p, IdAfterAll(payloads, seqId))
    ensures IdAfterAll(payloads + [p], seqId) == IdAfter(|p|, IdAfterAll(payloads, seqId))
    decreases payloads
  {
    if payloads == [] {
      assert [p][1..] == [] && payloads + [p] == [p];
      assert Wire([p], seqId) == Frames(p, seqId) + Wire([], IdAfter(|p|, seqId));
      assert IdAfterAll([p], seqId) == IdAfterAll([], IdAfter(|p|, seqId));
    } else {
      var next := IdAfter(|payloads[0]|, seqId);
      WireSnoc(payloads[1..], p, next);
      assert (payloads + [p])[1..] == payloads[1..] + [p];
      assert Frames(payloads[0], seqId) + (Wire(payloads[1..], next) + Frames(p, IdAfterAll(payloads[1..], next))) ==
             Frames(payloads[0], seqId) + Wire(payloads[1..], next) + Frames(p, IdAfterAll(payloads[1..], next));
    }
  }

  /** Payloads through a writer, a wire and a reader: whatever is flushed when, however much each write
      takes and each read gives, every payload arrives once and in order, unless arithmetic is checked and
      sequence ids wrap inside a payload. */
  method Transfer(checked: bool, payloads: seq<Bytes>, seqId: Byte) returns (got: seq<(int, Bytes)>, end: End)
    ensures (checked ==> NoWraps(payloads, seqId)) ==> got == Expected(payloads, seqId)
    ensures end.AtEnd? <==> (checked ==> NoWraps(payloads, seqId))
  {
    var wire := SendAll(payloads, seqId);
    var source := new Source(wire);
    var reader := new PacketReader(source, checked);
    got, end := reader.Drain();
    ReceivedIffNoWraps(checked, payloads, seqId);
    if checked ==> NoWraps(payloads, seqId) {
      RoundTrip(checked, payloads, seqId);
    }
  }

  /** Queues a payload, and sends the queue or does not yet. */
  method SendOne(writer: PacketWriter, payload: Bytes)
    requires writer != writer.w as object
    modifies writer, writer.w
    ensures writer.w.out + QueueBytes(writer.queue) ==
            old(writer.w.out + QueueBytes(writer.queue)) + Frames(payload, old(writer.seqId))
    ensures writer.seqId == IdAfter(|payload|, old(writer.seqId))
  {
    ghost var out, queued, more := writer.w.out, QueueBytes(writer.queue), Frames(payload, writer.seqId);
    Reassociate(out, queued, more);
    writer.EnqueuePacket(payload);
    if * {
      writer.WriteQueuedPackets();
    }
  }

  lemma Reassociate(a: Bytes, b: Bytes, c: Bytes)
    ensures a + b + c == a + (b + c) == a + (b + c) + []
  {
  }

  method SendAll(payloads: seq<Bytes>, seqId: Byte) returns (wire: Bytes)
    ensures wire == Wire(payloads, seqId)
  {
    var sink := new Sink();
    var writer := new PacketWriter(sink, seqId);
    for i := 0 to |payloads|
      invariant fresh(sink) && fresh(writer) && writer.w == sink && writer != sink as object
      invariant sink.out + QueueBytes(writer.queue) == Wire(payloads[..i], seqId)
      invariant writer.seqId == IdAfterAll(payloads[..i], seqId)
    {
      WireSnoc(payloads[..i], payloads[i], seqId);
      assert payloads[..i + 1] == payloads[..i] + [payloads[i]];
      SendOne(writer, payloads[i]);
    }
    writer.WriteQueuedPackets();
    assert payloads[..|payloads|] == payloads;
    wire := sink.out;
  }
}

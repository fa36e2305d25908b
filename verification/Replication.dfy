/** Replication offsets in motion: batches are applied once however often they are delivered, and read
    handles see the table as of their own offset or miss. */
module Replication {
  import opened Options
  import opened StateTypes
  import opened ReplicationOffsets

  datatype Batch = Batch(records: seq<Record>, offset: ReplicationOffset)

  // ---------------------------------------------------------------- exactly once

  /** A base table, however it is kept, and the offset it has reached. */
  datatype Replica<T> = Replica(table: T, offset: Option<ReplicationOffset>)

  /** What writing records makes of a table. */
  type Apply<!T> = (T, seq<Record>) -> T

  function Deliver<T>(apply: Apply<T>, s: Replica<T>, b: Batch): Replica<T> {
    if Dropped(s.offset, Some(b.offset)) then s
    else Replica(apply(s.table, b.records), Some(b.offset))
  }

  /** All batches of one log, each after the one before. */
  ghost predicate IsLog(name: string, log: seq<Batch>) {
    (forall i :: 0 <= i < |log| ==> log[i].offset.log == name) &&
    forall i, j :: 0 <= i < j < |log| ==> log[i].offset.pos < log[j].offset.pos
  }

  /** The log delivered once up to its `n`-th batch. */
  ghost function OnePass<T>(apply: Apply<T>, s: Replica<T>, log: seq<Batch>, n: nat): Replica<T>
    requires n <= |log|
  {
    if n == 0 then s else Deliver(apply, OnePass(apply, s, log, n - 1), log[n - 1])
  }

  /** Positions of the log in the order of their delivery: it starts at the first batch, and after each
      delivery goes on with the next batch or back to any earlier one. */
  ghost predicate IsDelivery(order: seq<nat>, log: seq<Batch>) {
    (order != [] ==> order[0] == 0) &&
    (forall i :: 0 <= i < |order| ==> order[i] < |log|) &&
    forall i :: 1 <= i < |order| ==> order[i] <= order[i - 1] + 1
  }

  ghost function DeliverAll<T>(apply: Apply<T>, s: Replica<T>, log: seq<Batch>, order: seq<nat>): Replica<T>
    requires forall i :: 0 <= i < |order| ==> order[i] < |log|
  {
    if order == [] then s
    else Deliver(apply, DeliverAll(apply, s, log, order[..|order| - 1]), log[order[|order| - 1]])
  }

  /** How much of the log was delivered at least once. */
  ghost function Reached(order: seq<nat>): nat {
    if order == [] then 0
    else
      var r := Reached(order[..|order| - 1]);
      var last := order[|order| - 1];
      if r <= last then last + 1 else r
  }

  lemma {:induction false} ReachedBounds(order: seq<nat>, log: seq<Batch>)
    requires IsDelivery(order, log)
    ensures Reached(order) <= |log|
    ensures order != [] ==> order[|order| - 1] < Reached(order)
  {
    if order != [] {
      DeliveryPrefix(order, log);
      ReachedBounds(order[..|order| - 1], log);
    }
  }

  lemma DeliveryPrefix(order: seq<nat>, log: seq<Batch>)
    requires IsDelivery(order, log) && order != []
    ensures IsDelivery(order[..|order| - 1], log)
    ensures |order| > 1 ==> order[|order| - 1] <= order[..|order| - 1][|order| - 2] + 1
  {
    assert |order| > 1 ==> order[|order| - 1] <= order[|order| - 2] + 1;
  }

  /** After one pass the replica stands at the last batch delivered. */
  lemma {:induction false} OnePassOffset<T>(name: string, apply: Apply<T>, s: Replica<T>, log: seq<Batch>, n: nat)
    requires IsLog(name, log) && n <= |log| && s.offset == None
    ensures OnePass(apply, s, log, n).offset == if n == 0 then None else Some(log[n - 1].offset)
  {
    if n > 0 {
      OnePassOffset(name, apply, s, log, n - 1);
    }
  }

  /** A batch delivered again changes nothing; the next one is one more of the pass. */
  lemma {:induction false} DeliveredAgain<T>(name: string, apply: Apply<T>, s: Replica<T>, log: seq<Batch>, n: nat,
                                             i: nat)
    requires IsLog(name, log) && s.offset == None && n <= |log| && i < |log| && i <= n
    ensures Deliver(apply, OnePass(apply, s, log, n), log[i]) == OnePass(apply, s, log, if i < n then n else n + 1)
  {
    OnePassOffset(name, apply, s, log, n);
  }

  /** A table after the records of the first `n` batches of a log, each applied once and in order. */
  ghost function AppliedOnce<T>(apply: Apply<T>, table: T, log: seq<Batch>, n: nat): T
    requires n <= |log|
  {
    if n == 0 then table else apply(AppliedOnce(apply, table, log, n - 1), log[n - 1].records)
  }

  lemma {:induction false} OnePassApplies<T>(name: string, apply: Apply<T>, s: Replica<T>, log: seq<Batch>, n: nat)
    requires IsLog(name, log) && n <= |log| && s.offset == None
    ensures OnePass(apply, s, log, n) ==
            Replica(AppliedOnce(apply, s.table, log, n), if n == 0 then None else Some(log[n - 1].offset))
  {
    if n > 0 {
      OnePassApplies(name, apply, s, log, n - 1);
    }
  }

  /** However delivery is rewound, every batch delivered is applied once and in order, and the offset is that of
      the last one reached. */
  lemma {:induction false} ExactlyOnce<T>(name: string, apply: Apply<T>, s: Replica<T>, log: seq<Batch>,
                                          order: seq<nat>)
    requires IsLog(name, log) && s.offset == None && IsDelivery(order, log)
    ensures Reached(order) <= |log|
    ensures DeliverAll(apply, s, log, order) == OnePass(apply, s, log, Reached(order))
    ensures var n := Reached(order);
            DeliverAll(apply, s, log, order) ==
            Replica(AppliedOnce(apply, s.table, log, n), if n == 0 then None else Some(log[n - 1].offset))
  {
    ReachedBounds(order, log);
    OnePassApplies(name, apply, s, log, Reached(order));
    if order != [] {
      var front, last := order[..|order| - 1], order[|order| - 1];
      DeliveryPrefix(order, log);
      ExactlyOnce(name, apply, s, log, front);
      ReachedBounds(front, log);
      DeliveredAgain(name, apply, s, log, Reached(front), last);
    }
  }

  /** No delivery takes the offset back. */
  lemma OffsetNeverDecreases<T>(apply: Apply<T>, s: Replica<T>, b: Batch)
    requires s.offset.Some? ==> s.offset.value.log == b.offset.log
    ensures Deliver(apply, s, b).offset.Some?
    ensures !Behind(Deliver(apply, s, b).offset, s.offset) && !Behind(Deliver(apply, s, b).offset, Some(b.offset))
  {
  }

  // ---------------------------------------------------------------- read handles

  /** The table after the batch with this offset was written; without an offset, before all batches. */
  datatype Version = Version(offset: Option<ReplicationOffset>, table: Bag)

  /** The writer, the state it shares with its read handles, and the messages on their way.
      `shared` is set first, under the write lock; the database is written afterwards. */
  datatype System = System(
    own: Option<ReplicationOffset>,
    shared: Option<ReplicationOffset>,
    table: Bag,
    writing: Option<Batch>,
    sent: set<ReplicationOffset>,
    handles: seq<Option<ReplicationOffset>>,
    versions: seq<Version>)

  datatype Event =
    | BeginWrite(batch: Batch)
    | Commit
    | NewHandle
    | Forward(handle: nat, offset: ReplicationOffset)

  ghost predicate Enabled(s: System, e: Event) {
    match e
    case BeginWrite(_) => s.writing.None?
    case Commit => s.writing.Some?
    case NewHandle => s.writing.None?
    case Forward(h, o) => h < |s.handles| && o in s.sent
  }

  /** A batch is forwarded once it is processed, also when it was dropped. */
  ghost function Next(s: System, e: Event): System
    requires Enabled(s, e)
  {
    match e
    case BeginWrite(b) =>
      if Dropped(s.own, Some(b.offset)) then s.(sent := s.sent + {b.offset})
      else s.(own := Some(b.offset), shared := Some(b.offset), writing := Some(b))
    case Commit =>
      var b := s.writing.value;
      var table := BatchTruth(s.table, b.records);
      s.(table := table, writing := None, sent := s.sent + {b.offset},
         versions := s.versions + [Version(Some(b.offset), table)])
    case NewHandle => s.(handles := s.handles + [s.own])
    case Forward(h, o) => s.(handles := s.handles[h := Some(o)])
  }

  function Initial(table: Bag): System {
    System(None, None, table, None, {}, [], [Version(None, table)])
  }

  ghost predicate Happens(s: System, events: seq<Event>)
    decreases |events|, 0
  {
    events != [] ==>
      var n := |events| - 1;
      Happens(s, events[..n]) && Enabled(After(s, events[..n]), events[n])
  }

  /** The system after these events. */
  ghost function After(s: System, events: seq<Event>): System
    requires Happens(s, events)
    decreases |events|, 1
  {
    if events == [] then s
    else Next(After(s, events[..|events| - 1]), events[|events| - 1])
  }

  lemma {:induction false} HappensUpTo(s: System, events: seq<Event>, n: nat)
    requires Happens(s, events) && n <= |events|
    ensures Happens(s, events[..n])
    decreases |events|
  {
    if n < |events| {
      HappensUpTo(s, events[..|events| - 1], n);
      assert events[..|events| - 1][..n] == events[..n];
    } else {
      assert events[..n] == events;
    }
  }

  /** A lookup through a handle at an offset, under the read lock: `None` is a miss. */
  function LookupAt(s: System, o: Option<ReplicationOffset>): Option<Bag> {
    if Behind(o, s.shared) then None else Some(s.table)
  }

  function HandleLookup(s: System, h: nat): Option<Bag>
    requires h < |s.handles|
  {
    LookupAt(s, s.handles[h])
  }

  // ---------------------------------------------------------------- what always holds

  /** The table is the last version written, and handles stand where writes were announced. */
  ghost predicate SystemInv(s: System) {
    s.versions != [] && s.own == s.shared &&
    var last := s.versions[|s.versions| - 1];
    last.table == s.table &&
    (s.writing.None? ==> s.shared == last.offset) &&
    (s.writing.Some? ==> s.shared == Some(s.writing.value.offset)) &&
    (forall i :: 0 <= i < |s.versions| ==> (s.versions[i].offset.None? <==> i == 0)) &&
    (forall i :: 1 <= i < |s.versions| ==> s.versions[i].offset.value in s.sent) &&
    forall h :: 0 <= h < |s.handles| ==> s.handles[h].Some? ==> s.handles[h].value in s.sent
  }

  lemma NextKeepsInv(s: System, e: Event)
    requires SystemInv(s) && Enabled(s, e)
    ensures SystemInv(Next(s, e))
    ensures s.versions <= Next(s, e).versions
  {
    if e.Commit? {
      var s' := Next(s, e);
      assert s'.versions[|s'.versions| - 1] == Version(Some(s.writing.value.offset), s'.table);
    }
  }

  lemma {:induction false} EventsKeepInv(s: System, events: seq<Event>)
    requires SystemInv(s) && Happens(s, events)
    ensures SystemInv(After(s, events))
  {
    if events != [] {
      var n := |events| - 1;
      EventsKeepInv(s, events[..n]);
      NextKeepsInv(After(s, events[..n]), events[n]);
    }
  }

  // ---------------------------------------------------------------- one log

  /** Every batch accepted so far, written or being written, is of this log. */
  ghost predicate AllOfLog(log: string, s: System) {
    (forall i :: 0 <= i < |s.versions| && s.versions[i].offset.Some? ==> s.versions[i].offset.value.log == log) &&
    (s.writing.Some? ==> s.writing.value.offset.log == log)
  }

  /** Over one log, offsets announced are not after the last one written, which is before one being
      written. */
  ghost predicate InStep(log: string, s: System)
    requires s.versions != []
  {
    var last := s.versions[|s.versions| - 1].offset;
    (s.writing.Some? && last.Some? ==> last.value.pos < s.writing.value.offset.pos) &&
    forall o :: o in s.sent ==> o.log == log && last.Some? && o.pos <= last.value.pos
  }

  lemma StaysInStep(log: string, s: System, e: Event)
    requires SystemInv(s) && Enabled(s, e) && AllOfLog(log, s) && InStep(log, s) && AllOfLog(log, Next(s, e))
    ensures InStep(log, Next(s, e))
  {
    var s' := Next(s, e);
    if e.Commit? {
      assert s'.versions[|s'.versions| - 1] == Version(Some(s.writing.value.offset), s'.table);
    }
  }

  /** If all batches accepted in the end are of one log, they were all along. */
  lemma {:induction false} OneLogInStep(log: string, table: Bag, events: seq<Event>)
    requires Happens(Initial(table), events) && AllOfLog(log, After(Initial(table), events))
    ensures After(Initial(table), events).versions != [] && InStep(log, After(Initial(table), events))
  {
    EventsKeepInv(Initial(table), events);
    if events != [] {
      var n := |events| - 1;
      var s := After(Initial(table), events[..n]);
      EventsKeepInv(Initial(table), events[..n]);
      NextKeepsInv(s, events[n]);
      EarlierOfLog(log, s, events[n]);
      OneLogInStep(log, table, events[..n]);
      StaysInStep(log, s, events[n]);
    }
  }

  lemma EarlierOfLog(log: string, s: System, e: Event)
    requires SystemInv(s) && Enabled(s, e) && AllOfLog(log, Next(s, e))
    ensures AllOfLog(log, s)
  {
    var s' := Next(s, e);
    assert s.versions <= s'.versions;
    forall i | 0 <= i < |s.versions| && s.versions[i].offset.Some? ensures s.versions[i].offset.value.log == log {
      assert s'.versions[i] == s.versions[i];
    }
    if e.Commit? {
      assert s'.versions[|s.versions|].offset == Some(s.writing.value.offset);
    }
  }

  // ---------------------------------------------------------------- what the events say

  /** The offset of the last of some batches. */
  function LastOffset(bs: seq<Batch>): Option<ReplicationOffset> {
    if bs == [] then None else Some(bs[|bs| - 1].offset)
  }

  /** A batch is accepted if it is not dropped after those accepted before. */
  function AcceptedMore(bs: seq<Batch>, e: Event): seq<Batch> {
    if e.BeginWrite? && !Dropped(LastOffset(bs), Some(e.batch.offset)) then bs + [e.batch] else bs
  }

  /** The batches that are accepted, in their order. */
  function Accepted(events: seq<Event>): seq<Batch> {
    if events == [] then []
    else AcceptedMore(Accepted(events[..|events| - 1]), events[|events| - 1])
  }

  /** The last accepted batch is not written yet. */
  predicate StillWriting(events: seq<Event>) {
    events != [] &&
    var n := |events| - 1;
    if events[n].BeginWrite? then Accepted(events) != Accepted(events[..n])
    else !events[n].Commit? && StillWriting(events[..n])
  }

  /** A table after the first `n` of some batches. */
  function TableAfter(table: Bag, bs: seq<Batch>, n: nat): Bag
    requires n <= |bs|
  {
    if n == 0 then table else BatchTruth(TableAfter(table, bs, n - 1), bs[n - 1].records)
  }

  /** ... and the offset that it has then. */
  function OffsetAfter(bs: seq<Batch>, n: nat): Option<ReplicationOffset>
    requires n <= |bs|
  {
    if n == 0 then None else Some(bs[n - 1].offset)
  }

  /** Where the read handles stand: a new one at the last batch accepted, later where it was last told. */
  function HandlesAt(events: seq<Event>): seq<Option<ReplicationOffset>> {
    if events == [] then []
    else
      var n := |events| - 1;
      HandlesMore(HandlesAt(events[..n]), Accepted(events[..n]), events[n])
  }

  function HandlesMore(before: seq<Option<ReplicationOffset>>, bs: seq<Batch>, e: Event)
    : seq<Option<ReplicationOffset>>
  {
    if e.NewHandle? then before + [LastOffset(bs)]
    else if e.Forward? && e.handle < |before| then before[e.handle := Some(e.offset)]
    else before
  }

  /** The offsets of the batches that were processed, dropped ones included. */
  function Announced(events: seq<Event>): set<ReplicationOffset> {
    if events == [] then {}
    else
      var n := |events| - 1;
      AnnouncedMore(Announced(events[..n]), Accepted(events[..n]), events[n])
  }

  function AnnouncedMore(before: set<ReplicationOffset>, bs: seq<Batch>, e: Event): set<ReplicationOffset> {
    if e.BeginWrite? && Dropped(LastOffset(bs), Some(e.batch.offset)) then before + {e.batch.offset}
    else if e.Commit? && bs != [] then before + {bs[|bs| - 1].offset}
    else before
  }

  /** How many of the accepted batches are written. */
  function WrittenCount(events: seq<Event>): int {
    |Accepted(events)| - if StillWriting(events) then 1 else 0
  }

  /** The versions are the table after each of the accepted batches that is written. */
  ghost predicate VersionsOf(versions: seq<Version>, table: Bag, bs: seq<Batch>, written: int) {
    0 <= written <= |bs| && |versions| == written + 1 &&
    forall i :: 0 <= i <= written ==> versions[i] == Version(OffsetAfter(bs, i), TableAfter(table, bs, i))
  }

  /** The system after these batches were accepted, the last of which may still be written. */
  ghost predicate Says(s: System, table: Bag, bs: seq<Batch>, writing: bool, handles: seq<Option<ReplicationOffset>>,
                       sent: set<ReplicationOffset>) {
    var written := |bs| - if writing then 1 else 0;
    VersionsOf(s.versions, table, bs, written) && s.table == s.versions[written].table &&
    s.own == LastOffset(bs) && s.shared == LastOffset(bs) && s.handles == handles && s.sent == sent &&
    s.writing == if writing then Some(bs[|bs| - 1]) else None
  }

  /** The system is what its events say. */
  ghost predicate SaysEvents(s: System, table: Bag, events: seq<Event>) {
    Says(s, table, Accepted(events), StillWriting(events), HandlesAt(events), Announced(events))
  }

  lemma {:induction false} TableOfMore(table: Bag, bs: seq<Batch>, b: Batch, n: nat)
    requires n <= |bs|
    ensures TableAfter(table, bs + [b], n) == TableAfter(table, bs, n)
    ensures OffsetAfter(bs + [b], n) == OffsetAfter(bs, n)
  {
    if n > 0 {
      TableOfMore(table, bs, b, n - 1);
    }
  }

  lemma VersionsOfMore(versions: seq<Version>, table: Bag, bs: seq<Batch>, b: Batch, written: int)
    requires VersionsOf(versions, table, bs, written)
    ensures VersionsOf(versions, table, bs + [b], written)
  {
    var more := bs + [b];
    forall i | 0 <= i <= written ensures versions[i] == Version(OffsetAfter(more, i), TableAfter(table, more, i)) {
      TableOfMore(table, bs, b, i);
    }
  }

  /** What one more event adds. */
  lemma OneMoreEvent(events: seq<Event>, e: Event)
    ensures Accepted(events + [e]) == AcceptedMore(Accepted(events), e)
    ensures StillWriting(events + [e]) <==>
            if e.BeginWrite? then Accepted(events + [e]) != Accepted(events) else !e.Commit? && StillWriting(events)
    ensures HandlesAt(events + [e]) == HandlesMore(HandlesAt(events), Accepted(events), e)
    ensures Announced(events + [e]) == AnnouncedMore(Announced(events), Accepted(events), e)
  {
    var all := events + [e];
    assert all[..|events|] == events && all[|events|] == e;
  }

  lemma BeginSays(s: System, table: Bag, bs: seq<Batch>, handles: seq<Option<ReplicationOffset>>,
                  sent: set<ReplicationOffset>, e: Event)
    requires Says(s, table, bs, false, handles, sent) && e.BeginWrite? && Enabled(s, e)
    ensures Says(Next(s, e), table, AcceptedMore(bs, e), AcceptedMore(bs, e) != bs, handles, AnnouncedMore(sent, bs, e))
  {
    if !Dropped(s.own, Some(e.batch.offset)) {
      VersionsOfMore(s.versions, table, bs, e.batch, |bs|);
    }
  }

  lemma VersionWritten(versions: seq<Version>, table: Bag, bs: seq<Batch>, written: int, v: Version)
    requires VersionsOf(versions, table, bs, written) && written < |bs|
    requires v == Version(Some(bs[written].offset), BatchTruth(versions[written].table, bs[written].records))
    ensures VersionsOf(versions + [v], table, bs, written + 1)
  {
  }

  lemma CommitSays(s: System, table: Bag, bs: seq<Batch>, handles: seq<Option<ReplicationOffset>>,
                   sent: set<ReplicationOffset>)
    requires Says(s, table, bs, true, handles, sent)
    ensures Says(Next(s, Commit), table, bs, false, handles, AnnouncedMore(sent, bs, Commit))
  {
    var n := |bs| - 1;
    VersionWritten(s.versions, table, bs, n,
                   Version(Some(bs[n].offset), BatchTruth(s.versions[n].table, bs[n].records)));
  }

  lemma HandleEventSays(s: System, table: Bag, bs: seq<Batch>, writing: bool, handles: seq<Option<ReplicationOffset>>,
                        sent: set<ReplicationOffset>, e: Event)
    requires Says(s, table, bs, writing, handles, sent) && Enabled(s, e) && (e.NewHandle? || e.Forward?)
    ensures Says(Next(s, e), table, bs, writing, HandlesMore(handles, bs, e), sent)
  {
  }

  lemma EventSays(s: System, table: Bag, events: seq<Event>, e: Event, all: seq<Event>)
    requires SaysEvents(s, table, events) && Enabled(s, e) && all == events + [e]
    ensures SaysEvents(Next(s, e), table, all)
  {
    OneMoreEvent(events, e);
    var bs, handles, sent := Accepted(events), HandlesAt(events), Announced(events);
    match e
    case BeginWrite(b) => BeginSays(s, table, bs, handles, sent, e);
    case Commit => CommitSays(s, table, bs, handles, sent);
    case _ => HandleEventSays(s, table, bs, StillWriting(events), handles, sent, e);
  }

  /** Over every run: version `i` is the initial table with the records of the first `i` accepted batches
      applied in order; offsets and handles are those of the events. */
  lemma {:induction false} RunSaysEvents(table: Bag, events: seq<Event>)
    requires Happens(Initial(table), events)
    ensures SaysEvents(After(Initial(table), events), table, events)
  {
    if events != [] {
      var n := |events| - 1;
      RunSaysEvents(table, events[..n]);
      EventSays(After(Initial(table), events[..n]), table, events[..n], events[n], events);
    }
  }

  /** A new handle misses nothing: it sees everything written so far. */
  lemma {:induction false} NewHandleSeesAll(table: Bag, events: seq<Event>)
    requires Happens(Initial(table), events) && Enabled(After(Initial(table), events), NewHandle)
    ensures var s, bs := Next(After(Initial(table), events), NewHandle), Accepted(events);
            s.handles != [] && HandleLookup(s, |s.handles| - 1) == Some(TableAfter(table, bs, |bs|))
  {
    RunSaysEvents(table, events);
  }

  // ---------------------------------------------------------------- what a handle sees

  /** A lookup at this offset hits, and sees another version than one written with this very offset. */
  predicate SeesAnother(s: System, o: Option<ReplicationOffset>)
    requires s.versions != []
  {
    LookupAt(s, o).Some? && s.versions[|s.versions| - 1].offset != o
  }

  lemma {:induction false} OneLogSeesOwn(log: string, table: Bag, events: seq<Event>, o: Option<ReplicationOffset>)
    requires Happens(Initial(table), events) && AllOfLog(log, After(Initial(table), events))
    requires o.Some? ==> o.value in After(Initial(table), events).sent
    ensures var s := After(Initial(table), events);
            s.versions != [] && s.versions[|s.versions| - 1].table == s.table && !SeesAnother(s, o)
  {
    EventsKeepInv(Initial(table), events);
    OneLogInStep(log, table, events);
    InStepSeesOwn(log, After(Initial(table), events), o);
  }

  lemma InStepSeesOwn(log: string, s: System, o: Option<ReplicationOffset>)
    requires SystemInv(s) && AllOfLog(log, s) && InStep(log, s) && (o.Some? ==> o.value in s.sent)
    ensures s.versions[|s.versions| - 1].table == s.table && !SeesAnother(s, o)
  {
  }

  /** Some batch was accepted after one of another log. */
  ghost predicate LogSwitched(s: System) {
    (exists i :: SwitchAt(s, i)) || Switching(s)
  }

  /** The batch being written is of another log than the last one written. */
  ghost predicate Switching(s: System) {
    s.versions != [] && s.writing.Some? && s.versions[|s.versions| - 1].offset.Some? &&
    s.versions[|s.versions| - 1].offset.value.log != s.writing.value.offset.log
  }

  ghost predicate SwitchAt(s: System, i: int) {
    2 <= i < |s.versions| && s.versions[i - 1].offset.Some? && s.versions[i].offset.Some? &&
    s.versions[i - 1].offset.value.log != s.versions[i].offset.value.log
  }

  lemma {:induction false} NoSwitchOneLog(s: System, i: nat)
    requires SystemInv(s) && !(exists j :: SwitchAt(s, j)) && 1 <= i < |s.versions|
    ensures s.versions[i].offset.Some? && s.versions[i].offset.value.log == s.versions[1].offset.value.log
  {
    if i > 1 {
      NoSwitchOneLog(s, i - 1);
      assert !SwitchAt(s, i);
    }
  }

  /** Some batch follows one of another log. */
  ghost predicate Switched(bs: seq<Batch>) {
    exists i :: 0 < i < |bs| && bs[i - 1].offset.log != bs[i].offset.log
  }

  /** The versions carry the offsets of the batches, and the batch being written is the last one. */
  ghost predicate OffsetsOf(s: System, bs: seq<Batch>, n: int) {
    0 <= n <= |bs| <= n + 1 && |s.versions| == n + 1 &&
    (forall i :: 1 <= i <= n ==> s.versions[i].offset == Some(bs[i - 1].offset)) && s.versions[0].offset.None? &&
    s.writing == if n < |bs| then Some(bs[n]) else None
  }

  lemma BatchesSwitched(s: System, bs: seq<Batch>, n: int)
    requires OffsetsOf(s, bs, n) && LogSwitched(s)
    ensures Switched(bs)
  {
    if i :| SwitchAt(s, i) {
      assert bs[i - 2].offset.log != bs[i - 1].offset.log;
    } else {
      assert bs[n - 1].offset.log != bs[n].offset.log;
    }
  }

  lemma VersionsSwitched(s: System, bs: seq<Batch>, n: int, i: int)
    requires OffsetsOf(s, bs, n) && 0 < i < |bs| && bs[i - 1].offset.log != bs[i].offset.log
    ensures LogSwitched(s)
  {
    if i < n {
      assert SwitchAt(s, i + 1);
    }
  }

  lemma SwitchesAgree(s: System, bs: seq<Batch>, n: int)
    requires OffsetsOf(s, bs, n)
    ensures LogSwitched(s) <==> Switched(bs)
  {
    if LogSwitched(s) {
      BatchesSwitched(s, bs, n);
    }
    if i :| 0 < i < |bs| && bs[i - 1].offset.log != bs[i].offset.log {
      VersionsSwitched(s, bs, n, i);
    }
  }

  lemma OffsetsSaid(s: System, table: Bag, bs: seq<Batch>, writing: bool, handles: seq<Option<ReplicationOffset>>,
                    sent: set<ReplicationOffset>)
    requires Says(s, table, bs, writing, handles, sent)
    ensures OffsetsOf(s, bs, |bs| - if writing then 1 else 0)
  {
  }

  lemma SwitchedIff(s: System, table: Bag, events: seq<Event>)
    requires SaysEvents(s, table, events)
    ensures LogSwitched(s) <==> Switched(Accepted(events))
  {
    OffsetsSaid(s, table, Accepted(events), StillWriting(events), HandlesAt(events), Announced(events));
    SwitchesAgree(s, Accepted(events), WrittenCount(events));
  }

  /** Of two accepted batches of one log, the second is further on. */
  lemma {:induction false} AcceptedAscend(events: seq<Event>, i: nat)
    requires 0 < i < |Accepted(events)|
    requires Accepted(events)[i - 1].offset.log == Accepted(events)[i].offset.log
    ensures Accepted(events)[i - 1].offset.pos < Accepted(events)[i].offset.pos
  {
    var before := Accepted(events[..|events| - 1]);
    if i < |before| {
      AcceptedAscend(events[..|events| - 1], i);
    }
  }

  lemma {:induction false} OneLogAscends(events: seq<Event>, i: nat, j: nat)
    requires i < j < |Accepted(events)| && !Switched(Accepted(events))
    ensures Accepted(events)[i].offset.pos < Accepted(events)[j].offset.pos
  {
    AcceptedAscend(events, j);
    if i < j - 1 {
      OneLogAscends(events, i, j - 1);
    }
  }

  /** Over one log an offset is that of one batch only. */
  lemma OffsetTells(events: seq<Event>, i: nat, j: nat)
    requires i <= |Accepted(events)| && j <= |Accepted(events)| && !Switched(Accepted(events))
    requires OffsetAfter(Accepted(events), i) == OffsetAfter(Accepted(events), j)
    ensures i == j
  {
    if 0 < i < j {
      OneLogAscends(events, i - 1, j - 1);
    } else if 0 < j < i {
      OneLogAscends(events, j - 1, i - 1);
    }
  }

  /** In every interleaving of writes, forwards and lookups, of whatever logs, in which every batch accepted
      is of the same log as the one before: a lookup through a handle that does not miss returns the table
      with the records of all batches up to the handle's own offset applied in order. */
  lemma {:induction false} HandleSeesItsOffset(table: Bag, events: seq<Event>, h: nat)
    requires Happens(Initial(table), events) && h < |HandlesAt(events)| && !Switched(Accepted(events))
    ensures var s, bs, o := After(Initial(table), events), Accepted(events), HandlesAt(events)[h];
            h < |s.handles| && s.handles[h] == o && s.versions != [] && !SeesAnother(s, o) &&
            (HandleLookup(s, h).Some? ==>
               s.versions[|s.versions| - 1] == Version(o, HandleLookup(s, h).value) &&
               IsTableOf(table, bs, o, HandleLookup(s, h).value))
  {
    var s, o := After(Initial(table), events), HandlesAt(events)[h];
    RunSaysEvents(table, events);
    EventsKeepInv(Initial(table), events);
    SeesOwnUnswitched(table, events, o);
    if HandleLookup(s, h).Some? {
      HitIsOwnTable(s, table, events, o, HandleLookup(s, h).value);
    }
  }

  lemma SeesOwnUnswitched(table: Bag, events: seq<Event>, o: Option<ReplicationOffset>)
    requires Happens(Initial(table), events) && !Switched(Accepted(events))
    requires o.Some? ==> o.value in After(Initial(table), events).sent
    ensures var s := After(Initial(table), events);
            s.versions != [] && s.versions[|s.versions| - 1].table == s.table && !SeesAnother(s, o)
  {
    var s := After(Initial(table), events);
    EventsKeepInv(Initial(table), events);
    RunSaysEvents(table, events);
    SwitchedIff(s, table, events);
    var log := CommonLog(s);
    OneLogSeesOwn(log, table, events, o);
  }

  /** The offset was reached, and this was the table whenever it was reached. */
  ghost predicate IsTableOf(table: Bag, bs: seq<Batch>, o: Option<ReplicationOffset>, seen: Bag) {
    (exists i :: 0 <= i <= |bs| && OffsetAfter(bs, i) == o) &&
    forall i :: 0 <= i <= |bs| && OffsetAfter(bs, i) == o ==> seen == TableAfter(table, bs, i)
  }

  lemma HitIsOwnTable(s: System, table: Bag, events: seq<Event>, o: Option<ReplicationOffset>, seen: Bag)
    requires SaysEvents(s, table, events) && !Switched(Accepted(events))
    requires s.versions[|s.versions| - 1] == Version(o, seen)
    ensures IsTableOf(table, Accepted(events), o, seen)
  {
    var bs, n := Accepted(events), WrittenCount(events);
    assert OffsetAfter(bs, n) == o;
    forall i | 0 <= i <= |bs| && OffsetAfter(bs, i) == o ensures seen == TableAfter(table, bs, i) {
      OffsetTells(events, i, n);
    }
  }

  lemma {:induction false} CommonLog(s: System) returns (log: string)
    requires SystemInv(s) && !LogSwitched(s)
    ensures AllOfLog(log, s)
  {
    if |s.versions| == 1 {
      log := if s.writing.Some? then s.writing.value.offset.log else "";
    } else {
      log := s.versions[1].offset.value.log;
      forall i | 0 <= i < |s.versions| && s.versions[i].offset.Some? ensures s.versions[i].offset.value.log == log {
        NoSwitchOneLog(s, i);
      }
      NoSwitchOneLog(s, |s.versions| - 1);
    }
  }

  /** At some moment of these events a handle could stand at an announced offset, hit, and see another
      version. */
  ghost predicate CanSeeAnother(table: Bag, events: seq<Event>) {
    exists n, o :: SeesAnotherAfter(table, events, n, o)
  }

  ghost predicate SeesAnotherAfter(table: Bag, events: seq<Event>, n: int, o: ReplicationOffset) {
    0 <= n <= |events| && Happens(Initial(table), events[..n]) &&
    var s := After(Initial(table), events[..n]);
    s.versions != [] && o in s.sent && SeesAnother(s, Some(o))
  }

  /** Where the log was switched, a handle could see another version right after that write. */
  lemma {:induction false} SwitchIsSeen(table: Bag, events: seq<Event>, i: int)
    requires Happens(Initial(table), events) && SwitchAt(After(Initial(table), events), i)
    ensures CanSeeAnother(table, events)
  {
    var s := After(Initial(table), events);
    EventsKeepInv(Initial(table), events);
    var n := |events| - 1;
    var before := After(Initial(table), events[..n]);
    EventsKeepInv(Initial(table), events[..n]);
    NextKeepsInv(before, events[n]);
    if i < |before.versions| {
      assert before.versions[i] == s.versions[i] && before.versions[i - 1] == s.versions[i - 1];
      SwitchIsSeen(table, events[..n], i);
      SeenEarlier(table, events, n);
    } else {
      var o := s.versions[i - 1].offset.value;
      assert events[..|events|] == events;
      assert SeesAnotherAfter(table, events, |events|, o);
    }
  }

  lemma {:induction false} SeenEarlier(table: Bag, events: seq<Event>, m: nat)
    requires m <= |events| && CanSeeAnother(table, events[..m])
    ensures CanSeeAnother(table, events)
  {
    var n, o :| SeesAnotherAfter(table, events[..m], n, o);
    assert events[..m][..n] == events[..n];
    assert SeesAnotherAfter(table, events, n, o);
  }

  /** Every offset announced is of the log of some version. */
  ghost predicate SentOfVersions(s: System) {
    forall o :: o in s.sent ==> OfSomeVersion(s, o.log)
  }

  ghost predicate OfSomeVersion(s: System, log: string) {
    exists i :: 0 <= i < |s.versions| && s.versions[i].offset.Some? && s.versions[i].offset.value.log == log
  }

  lemma SentStaysOfVersions(s: System, e: Event)
    requires SystemInv(s) && Enabled(s, e) && SentOfVersions(s)
    ensures SentOfVersions(Next(s, e))
  {
    var s' := Next(s, e);
    assert s.versions <= s'.versions;
    forall o | o in s'.sent ensures OfSomeVersion(s', o.log) {
      if o in s.sent {
        var i :| 0 <= i < |s.versions| && s.versions[i].offset.Some? && s.versions[i].offset.value.log == o.log;
        assert s'.versions[i] == s.versions[i];
      } else {
        assert s'.versions[|s'.versions| - 1].offset.value.log == o.log;
      }
    }
  }

  lemma {:induction false} EventsKeepSent(table: Bag, events: seq<Event>)
    requires Happens(Initial(table), events)
    ensures SentOfVersions(After(Initial(table), events))
  {
    if events != [] {
      var n := |events| - 1;
      EventsKeepInv(Initial(table), events[..n]);
      EventsKeepSent(table, events[..n]);
      SentStaysOfVersions(After(Initial(table), events[..n]), events[n]);
    }
  }

  lemma SwitchLasts(p: System, s: System, i: int)
    requires SwitchAt(p, i) && p.versions <= s.versions
    ensures SwitchAt(s, i)
  {
    assert s.versions[i] == p.versions[i] && s.versions[i - 1] == p.versions[i - 1];
  }

  /** The system is the same but for its handles. */
  ghost predicate SameWrite(p: System, s: System) {
    p.versions == s.versions && p.sent == s.sent && p.writing == s.writing
  }

  lemma SwitchingStep(s: System, e: Event)
    requires SystemInv(s) && Enabled(s, e) && Switching(s)
    ensures SwitchAt(Next(s, e), |s.versions|) || SameWrite(s, Next(s, e))
  {
  }

  /** A write that switches the log goes on until the end, or the switch is among the versions. */
  lemma {:induction false} StaysSwitching(table: Bag, events: seq<Event>, n: nat)
    requires Happens(Initial(table), events) && n <= |events| && Happens(Initial(table), events[..n])
    requires Switching(After(Initial(table), events[..n]))
    ensures var p, s := After(Initial(table), events[..n]), After(Initial(table), events);
            (exists i :: SwitchAt(s, i)) || SameWrite(p, s)
    decreases |events|
  {
    var p, s := After(Initial(table), events[..n]), After(Initial(table), events);
    if n == |events| {
      assert events[..n] == events;
    } else {
      var m := |events| - 1;
      var before := After(Initial(table), events[..m]);
      assert events[..m][..n] == events[..n];
      StaysSwitching(table, events[..m], n);
      EventsKeepInv(Initial(table), events[..m]);
      NextKeepsInv(before, events[m]);
      if i :| SwitchAt(before, i) {
        SwitchLasts(before, s, i);
      } else {
        assert SameWrite(p, before);
        SwitchingStep(before, events[m]);
      }
    }
  }

  /** A batch was written after one of another log; or one is being written, and an offset other than that of
      the last version was announced. */
  ghost predicate Misleading(s: System)
    requires s.versions != []
  {
    (exists i :: SwitchAt(s, i)) ||
    (Switching(s) && exists o :: o in s.sent && Some(o) != s.versions[|s.versions| - 1].offset)
  }

  lemma OtherLogHits(s: System, o: ReplicationOffset)
    requires SystemInv(s) && SentOfVersions(s) && Switching(s) && !(exists i :: SwitchAt(s, i)) && o in s.sent
    ensures LookupAt(s, Some(o)).Some?
  {
    assert OfSomeVersion(s, o.log);
    var i :| 0 <= i < |s.versions| && s.versions[i].offset.Some? && s.versions[i].offset.value.log == o.log;
    NoSwitchOneLog(s, i);
    NoSwitchOneLog(s, |s.versions| - 1);
  }

  /** While the first write of another log is under way, handles at all other offsets still hit. */
  lemma {:induction false} SwitchingIsSeen(table: Bag, events: seq<Event>, o: ReplicationOffset)
    requires Happens(Initial(table), events)
    requires var s := After(Initial(table), events);
             s.versions != [] && Switching(s) && !(exists i :: SwitchAt(s, i)) && o in s.sent &&
             Some(o) != s.versions[|s.versions| - 1].offset
    ensures CanSeeAnother(table, events)
  {
    var s := After(Initial(table), events);
    EventsKeepInv(Initial(table), events);
    EventsKeepSent(table, events);
    OtherLogHits(s, o);
    assert events[..|events|] == events;
    assert SeesAnotherAfter(table, events, |events|, o);
  }

  lemma SameWriteMisleads(p: System, s: System, o: ReplicationOffset)
    requires p.versions != [] && o in p.sent && SeesAnother(p, Some(o)) && Switching(p) && SameWrite(p, s)
    ensures Misleading(s)
  {
  }

  lemma NotMisled(table: Bag, events: seq<Event>, o: ReplicationOffset)
    requires Happens(Initial(table), events) && !LogSwitched(After(Initial(table), events))
    requires o in After(Initial(table), events).sent
    ensures After(Initial(table), events).versions != [] && !SeesAnother(After(Initial(table), events), Some(o))
  {
    EventsKeepInv(Initial(table), events);
    var log := CommonLog(After(Initial(table), events));
    OneLogSeesOwn(log, table, events, Some(o));
  }

  /** What a handle saw at some moment shows in the end. */
  lemma {:induction false} SeenIsMisleading(table: Bag, events: seq<Event>, n: int, o: ReplicationOffset)
    requires Happens(Initial(table), events) && SeesAnotherAfter(table, events, n, o)
    ensures var s := After(Initial(table), events);
            s.versions != [] && Misleading(s)
  {
    var p, s := After(Initial(table), events[..n]), After(Initial(table), events);
    EventsKeepInv(Initial(table), events);
    EventsKeepInv(Initial(table), events[..n]);
    if i :| SwitchAt(p, i) {
      VersionsGrow(table, events, n);
      SwitchLasts(p, s, i);
    } else if Switching(p) {
      StaysSwitching(table, events, n);
      if SameWrite(p, s) {
        SameWriteMisleads(p, s, o);
      }
    } else {
      NotMisled(table, events[..n], o);
    }
  }

  lemma {:induction false} VersionsGrow(table: Bag, events: seq<Event>, n: nat)
    requires Happens(Initial(table), events) && n <= |events| && Happens(Initial(table), events[..n])
    ensures After(Initial(table), events[..n]).versions <= After(Initial(table), events).versions
    decreases |events|
  {
    if n == |events| {
      assert events[..n] == events;
    } else {
      var m := |events| - 1;
      assert events[..m][..n] == events[..n];
      VersionsGrow(table, events[..m], n);
      EventsKeepInv(Initial(table), events[..m]);
      NextKeepsInv(After(Initial(table), events[..m]), events[m]);
    }
  }

  /** Exactly when handles can be misled, over every run: a handle at an announced offset can hit and see
      another version at some moment if and only if the run misleads. Once no write is under way, that is if
      and only if some batch was accepted after one of another log. */
  lemma {:induction false} SeesAnotherIffLogSwitched(table: Bag, events: seq<Event>)
    requires Happens(Initial(table), events)
    ensures var s := After(Initial(table), events);
            s.versions != [] && (CanSeeAnother(table, events) <==> Misleading(s)) &&
            (s.writing.None? ==> (Misleading(s) <==> LogSwitched(s))) &&
            (LogSwitched(s) <==> Switched(Accepted(events)))
  {
    var s := After(Initial(table), events);
    EventsKeepInv(Initial(table), events);
    RunSaysEvents(table, events);
    SwitchedIff(s, table, events);
    if i :| SwitchAt(s, i) {
      SwitchIsSeen(table, events, i);
    } else if Misleading(s) {
      var o :| o in s.sent && Some(o) != s.versions[|s.versions| - 1].offset;
      SwitchingIsSeen(table, events, o);
    } else if CanSeeAnother(table, events) {
      var n, o :| SeesAnotherAfter(table, events, n, o);
      SeenIsMisleading(table, events, n, o);
    }
  }

  /** A handle that has been told of everything written does not miss, unless a write is under way. */
  lemma CurrentHandleHits(s: System, h: nat)
    requires SystemInv(s) && h < |s.handles| && s.handles[h] == s.versions[|s.versions| - 1].offset
    requires exists log :: AllOfLog(log, s) && InStep(log, s)
    ensures HandleLookup(s, h).Some? <==> s.writing.None?
  {
  }

  /** Positions can even go back this way: after a write of another log, an older position of the first one
      is accepted again, and a handle there sees the rows of both. */
  lemma PositionsGoBack(row: Row, a: string, b: string)
    requires a != b
    ensures var s1 := Next(Initial(multiset{}), BeginWrite(Batch([], ReplicationOffset(a, 5))));
            var s2 := Next(Next(s1, Commit), BeginWrite(Batch([Positive(row)], ReplicationOffset(b, 1))));
            var s3 := Next(Next(s2, Commit), BeginWrite(Batch([], ReplicationOffset(a, 2))));
            s3.writing.Some? && LookupAt(s3, Some(ReplicationOffset(a, 5))) == Some(multiset{row}) &&
            SeesAnother(s3, Some(ReplicationOffset(a, 5)))
  {
    assert BatchTruth(multiset{}, []) == multiset{};
    assert BatchTruth(multiset{}, [Positive(row)]) == BatchTruth(multiset{row}, []);
  }
}

/** Which writes survive a crash while a base table is snapshotted.

    In snapshot mode a batch without an offset bypasses the write-ahead log, so its part in a column
    family survives only if that column family is flushed later. The batch that sets the offset first
    flushes every column family and is then written to the log and synced. Leaving snapshot mode compacts
    the column families of all indices; whether a compaction flushes what is still in memory is up to the
    database, and a parameter here. */
module SnapshotDurability {
  import opened Options
  import opened StateTypes
  import opened ReplicationOffsets

  /** One write batch: `logged` if it is in the synced write-ahead log. */
  datatype Written = Written(records: seq<Record>, offset: Option<ReplicationOffset>, logged: bool)

  /** Where the writer is: between batches, flushing column families one by one for a batch that sets
      an offset, about to write that batch, or compacting column families one by one. */
  datatype Phase =
    | Idle
    | Flushing(next: nat, records: seq<Record>, offset: ReplicationOffset)
    | Flushed(records: seq<Record>, offset: ReplicationOffset)
    | Compacting(next: nat)

  /** `files[i]` counts the leading writes whose part in the column family of index `i` is in files;
      `meta` counts those for the default column family, which holds the offset. */
  datatype Disk = Disk(snapshot: bool, writes: seq<Written>, files: seq<nat>, meta: nat, phase: Phase)

  datatype Step =
    | WriteRows(records: seq<Record>)
    | SetOffset(records: seq<Record>, offset: ReplicationOffset)
    | FlushNext
    | FlushDefault
    | WriteOffset
    | Background(cf: nat)
    | BackgroundDefault
    | LeaveSnapshot
    | CompactNext
    | CompactDone

  ghost predicate Enabled(d: Disk, step: Step) {
    match step
    case WriteRows(_) => d.phase.Idle?
    case SetOffset(_, _) => d.phase.Idle?
    case FlushNext => d.phase.Flushing? && d.phase.next < |d.files|
    case FlushDefault => d.phase.Flushing? && d.phase.next == |d.files|
    case WriteOffset => d.phase.Flushed?
    case Background(cf) => cf < |d.files|
    case BackgroundDefault => true
    case LeaveSnapshot => d.phase.Idle?
    case CompactNext => d.phase.Compacting? && d.phase.next < |d.files|
    case CompactDone => d.phase.Compacting? && d.phase.next == |d.files|
  }

  /** `flushes`: a compaction writes what is in memory to files first. */
  ghost function Next(flushes: bool, d: Disk, step: Step): Disk
    requires Enabled(d, step)
  {
    match step
    case WriteRows(records) => d.(writes := d.writes + [Written(records, None, !d.snapshot)])
    case SetOffset(records, o) =>
      if d.snapshot then d.(phase := Flushing(0, records, o))
      else d.(writes := d.writes + [Written(records, Some(o), true)])
    case FlushNext =>
      d.(files := d.files[d.phase.next := |d.writes|], phase := d.phase.(next := d.phase.next + 1))
    case FlushDefault => d.(meta := |d.writes|, phase := Flushed(d.phase.records, d.phase.offset))
    case WriteOffset =>
      d.(writes := d.writes + [Written(d.phase.records, Some(d.phase.offset), true)], phase := Idle)
    case Background(cf) => d.(files := d.files[cf := |d.writes|])
    case BackgroundDefault => d.(meta := |d.writes|)
    case LeaveSnapshot => d.(snapshot := false, phase := Compacting(0))
    case CompactNext =>
      d.(files := if flushes then d.files[d.phase.next := |d.writes|] else d.files,
         phase := Compacting(d.phase.next + 1))
    case CompactDone => d.(phase := Idle)
  }

  // ---------------------------------------------------------------- after a crash

  predicate Survives(d: Disk, w: nat, cf: nat)
    requires w < |d.writes| && cf < |d.files|
  {
    d.writes[w].logged || w < d.files[cf]
  }

  predicate SurvivesEverywhere(d: Disk, w: nat)
    requires w < |d.writes|
  {
    forall cf :: 0 <= cf < |d.files| ==> Survives(d, w, cf)
  }

  /** A crash now leaves the offset of this write on disk. */
  predicate OffsetSurvives(d: Disk, w: nat)
    requires w < |d.writes|
  {
    d.writes[w].offset.Some? && (d.writes[w].logged || w < d.meta)
  }

  /** An offset found after a crash covers only rows that are there too, in every index. */
  ghost predicate CrashSafe(d: Disk) {
    forall w, v :: 0 <= v <= w < |d.writes| && OffsetSurvives(d, w) ==> SurvivesEverywhere(d, v)
  }

  // ---------------------------------------------------------------- the invariant

  ghost predicate AllFlushed(d: Disk, n: nat) {
    n <= |d.files| && forall i :: 0 <= i < n ==> d.files[i] == |d.writes|
  }

  /** Everything written so far would survive. */
  ghost predicate AllSafe(d: Disk) {
    forall v :: 0 <= v < |d.writes| ==> SurvivesEverywhere(d, v)
  }

  /** What the compaction has done so far, or will have done in the end, makes everything safe. */
  ghost predicate SafeByCompaction(flushes: bool, d: Disk)
    requires d.phase.Compacting?
  {
    AllSafe(d) || (flushes && AllFlushed(d, d.phase.next))
  }

  ghost predicate Inv(flushes: bool, d: Disk) {
    (forall i :: 0 <= i < |d.files| ==> d.files[i] <= |d.writes|) &&
    (forall w :: 0 <= w < |d.writes| && d.writes[w].offset.Some? ==> d.writes[w].logged) &&
    (forall w, v :: 0 <= v < w < |d.writes| && d.writes[w].offset.Some? ==> SurvivesEverywhere(d, v)) &&
    (!d.snapshot && d.phase.Idle? ==> AllSafe(d)) &&
    (d.phase.Flushing? ==> d.snapshot && AllFlushed(d, d.phase.next)) &&
    d.meta <= |d.writes| && (d.phase.Flushed? ==> d.snapshot && AllFlushed(d, |d.files|) && d.meta == |d.writes|) &&
    (d.phase.Compacting? ==> !d.snapshot && SafeByCompaction(flushes, d))
  }

  lemma InvIsCrashSafe(flushes: bool, d: Disk)
    requires Inv(flushes, d)
    ensures CrashSafe(d)
  {
    forall w, v | 0 <= v <= w < |d.writes| && OffsetSurvives(d, w) ensures SurvivesEverywhere(d, v) {
      if v == w {
        assert d.writes[w].logged;
      }
    }
  }

  /** What would survive still does after a step that writes at most one more batch. */
  lemma StillSurvives(d: Disk, d': Disk, v: nat)
    requires v < |d.writes| && d.writes <= d'.writes && |d.files| == |d'.files|
    requires forall i :: 0 <= i < |d.files| ==> d.files[i] <= d'.files[i]
    requires SurvivesEverywhere(d, v)
    ensures v < |d'.writes| && SurvivesEverywhere(d', v)
  {
    assert d'.writes[v] == d.writes[v];
    forall cf | 0 <= cf < |d'.files| ensures Survives(d', v, cf) {
      assert Survives(d, v, cf);
    }
  }

  lemma SurvivalIsOfFiles(d: Disk, d': Disk)
    requires d.writes == d'.writes && d.files == d'.files
    ensures forall v :: 0 <= v < |d.writes| ==> (SurvivesEverywhere(d, v) <==> SurvivesEverywhere(d', v))
  {
    forall v | 0 <= v < |d.writes| ensures SurvivesEverywhere(d, v) <==> SurvivesEverywhere(d', v) {
      if SurvivesEverywhere(d, v) {
        StillSurvives(d, d', v);
      }
      if SurvivesEverywhere(d', v) {
        StillSurvives(d', d, v);
      }
    }
  }

  lemma AppendKeepsInv(flushes: bool, d: Disk, d': Disk, w: Written)
    requires Inv(flushes, d) && (d.phase.Idle? || d.phase.Flushed?)
    requires d' == d.(writes := d.writes + [w], phase := Idle)
    requires w.offset.Some? ==> w.logged && AllSafe(d)
    requires !d.snapshot ==> w.logged
    ensures Inv(flushes, d')
  {
    forall v | 0 <= v < |d.writes| && SurvivesEverywhere(d, v) ensures SurvivesEverywhere(d', v) {
      StillSurvives(d, d', v);
    }
  }

  lemma FlushKeepsInv(flushes: bool, d: Disk, d': Disk, cf: nat)
    requires Inv(flushes, d) && cf < |d.files| && d' == d.(files := d.files[cf := |d.writes|])
    ensures Inv(flushes, d')
  {
    forall v | 0 <= v < |d.writes| && SurvivesEverywhere(d, v) ensures SurvivesEverywhere(d', v) {
      StillSurvives(d, d', v);
    }
  }

  /** Snapshot mode is left when everything written so far would survive, or compactions flush. */
  ghost predicate LeavesSafely(flushes: bool, d: Disk, step: Step) {
    step.LeaveSnapshot? ==> flushes || AllSafe(d)
  }

  lemma NextKeepsInv(flushes: bool, d: Disk, step: Step)
    requires Inv(flushes, d) && Enabled(d, step) && LeavesSafely(flushes, d, step)
    ensures Inv(flushes, Next(flushes, d, step))
  {
    var d' := Next(flushes, d, step);
    match step
    case WriteRows(records) =>
      AppendKeepsInv(flushes, d, d', Written(records, None, !d.snapshot));
    case SetOffset(records, o) =>
      if !d.snapshot {
        AppendKeepsInv(flushes, d, d', Written(records, Some(o), true));
      } else {
        SurvivalIsOfFiles(d, d');
      }
    case FlushNext =>
      var mid := d.(files := d.files[d.phase.next := |d.writes|]);
      FlushKeepsInv(flushes, d, mid, d.phase.next);
      SurvivalIsOfFiles(mid, d');
    case FlushDefault =>
      SurvivalIsOfFiles(d, d');
    case WriteOffset =>
      AppendKeepsInv(flushes, d, d', Written(d.phase.records, Some(d.phase.offset), true));
    case Background(cf) =>
      FlushKeepsInv(flushes, d, d', cf);
    case BackgroundDefault =>
      SurvivalIsOfFiles(d, d');
    case LeaveSnapshot =>
      SurvivalIsOfFiles(d, d');
    case CompactNext =>
      CompactKeepsInv(flushes, d);
    case CompactDone =>
      SurvivalIsOfFiles(d, d');
  }

  lemma CompactKeepsInv(flushes: bool, d: Disk)
    requires Inv(flushes, d) && Enabled(d, CompactNext)
    ensures Inv(flushes, Next(flushes, d, CompactNext))
  {
    var d' := Next(flushes, d, CompactNext);
    var mid := if flushes then d.(files := d.files[d.phase.next := |d.writes|]) else d;
    if flushes {
      FlushKeepsInv(flushes, d, mid, d.phase.next);
    }
    SurvivalIsOfFiles(mid, d');
  }

  /** Once the offset is set, everything written so far is safe. */
  lemma LastIsSafe(flushes: bool, d: Disk)
    requires Inv(flushes, d) && d.writes != [] && d.writes[|d.writes| - 1].offset.Some?
    ensures AllSafe(d)
  {
    assert d.writes[|d.writes| - 1].logged;
  }

  ghost predicate Happens(flushes: bool, d: Disk, steps: seq<Step>)
    decreases steps
  {
    steps != [] ==> Enabled(d, steps[0]) && Happens(flushes, Next(flushes, d, steps[0]), steps[1..])
  }

  ghost predicate AllLeaveSafely(flushes: bool, d: Disk, steps: seq<Step>)
    requires Happens(flushes, d, steps)
    decreases steps
  {
    steps != [] ==>
      LeavesSafely(flushes, d, steps[0]) && AllLeaveSafely(flushes, Next(flushes, d, steps[0]), steps[1..])
  }

  ghost function After(flushes: bool, d: Disk, steps: seq<Step>): Disk
    requires Happens(flushes, d, steps)
    decreases steps
  {
    if steps == [] then d else After(flushes, Next(flushes, d, steps[0]), steps[1..])
  }

  lemma {:induction false} StepsKeepInv(flushes: bool, d: Disk, steps: seq<Step>)
    requires Inv(flushes, d) && Happens(flushes, d, steps) && AllLeaveSafely(flushes, d, steps)
    ensures Inv(flushes, After(flushes, d, steps))
    decreases steps
  {
    if steps != [] {
      NextKeepsInv(flushes, d, steps[0]);
      StepsKeepInv(flushes, Next(flushes, d, steps[0]), steps[1..]);
    }
  }

  lemma {:induction false} FlushingIsSafe(d: Disk, steps: seq<Step>)
    requires Happens(true, d, steps)
    ensures AllLeaveSafely(true, d, steps)
    decreases steps
  {
    if steps != [] {
      FlushingIsSafe(Next(true, d, steps[0]), steps[1..]);
    }
  }

  /** A table that has just entered snapshot mode: nothing written, any number of indices. */
  function Started(indices: nat): Disk {
    Disk(true, [], seq(indices, _ => 0), 0, Idle)
  }

  /** Where compactions flush: every crash point, between any two steps and with any background flushes,
      that leaves an offset on disk leaves all earlier rows on disk, in the column family of every index. */
  lemma SnapshotIsCrashSafe(indices: nat, steps: seq<Step>)
    requires Happens(true, Started(indices), steps)
    ensures CrashSafe(After(true, Started(indices), steps))
  {
    FlushingIsSafe(Started(indices), steps);
    StepsKeepInv(true, Started(indices), steps);
    InvIsCrashSafe(true, After(true, Started(indices), steps));
  }

  /** Where they do not, snapshot mode must be left only when everything written is safe. */
  lemma CarefulIsCrashSafe(indices: nat, steps: seq<Step>)
    requires Happens(false, Started(indices), steps) && AllLeaveSafely(false, Started(indices), steps)
    ensures CrashSafe(After(false, Started(indices), steps))
  {
    StepsKeepInv(false, Started(indices), steps);
    InvIsCrashSafe(false, After(false, Started(indices), steps));
  }

  // ---------------------------------------------------------------- what is written

  /** A batch that was handed to the state: its records, and its offset if it sets one. */
  datatype Handed = Handed(records: seq<Record>, offset: Option<ReplicationOffset>)

  /** The batches that these steps hand over, in their order. */
  function HandedOver(steps: seq<Step>): seq<Handed> {
    if steps == [] then []
    else
      var rest := HandedOver(steps[1..]);
      match steps[0]
      case WriteRows(records) => [Handed(records, None)] + rest
      case SetOffset(records, o) => [Handed(records, Some(o))] + rest
      case _ => rest
  }

  /** The batches written so far, and the one that waits for flushes. */
  function WrittenOrWaiting(d: Disk): seq<Handed> {
    seq(|d.writes|, i requires 0 <= i < |d.writes| => Handed(d.writes[i].records, d.writes[i].offset)) +
    match d.phase
    case Flushing(_, records, o) => [Handed(records, Some(o))]
    case Flushed(records, o) => [Handed(records, Some(o))]
    case _ => []
  }

  lemma StepHandsOver(flushes: bool, d: Disk, step: Step)
    requires Enabled(d, step)
    ensures WrittenOrWaiting(Next(flushes, d, step)) == WrittenOrWaiting(d) + HandedOver([step])
  {
    assert [step][1..] == [];
    assert HandedOver([]) == [];
  }

  lemma HandedOverCons(step: Step, steps: seq<Step>)
    ensures HandedOver([step] + steps) == HandedOver([step]) + HandedOver(steps)
  {
    assert ([step] + steps)[1..] == steps && [step][1..] == [];
    assert HandedOver([]) == [];
  }

  /** Whatever flushes and compactions come between, what is written or waits to be are the batches handed
      over: none is lost, changed or moved. */
  lemma {:induction false} WritesAreHandedOver(flushes: bool, d: Disk, steps: seq<Step>)
    requires Happens(flushes, d, steps)
    ensures WrittenOrWaiting(After(flushes, d, steps)) == WrittenOrWaiting(d) + HandedOver(steps)
    decreases steps
  {
    if steps != [] {
      StepHandsOver(flushes, d, steps[0]);
      WritesAreHandedOver(flushes, Next(flushes, d, steps[0]), steps[1..]);
      assert steps == [steps[0]] + steps[1..];
      HandedOverCons(steps[0], steps[1..]);
    }
  }

  /** From the start of a snapshot on: these are all batches. */
  lemma SnapshotWrites(flushes: bool, indices: nat, steps: seq<Step>)
    requires Happens(flushes, Started(indices), steps)
    ensures WrittenOrWaiting(After(flushes, Started(indices), steps)) == HandedOver(steps)
  {
    WritesAreHandedOver(flushes, Started(indices), steps);
  }

  // ---------------------------------------------------------------- leaving snapshot mode

  /** Whatever follows, no crash leaves an offset without its rows. */
  ghost predicate SafeFromNowOn(flushes: bool, d: Disk) {
    forall steps :: Happens(flushes, d, steps) && AllLeaveSafely(flushes, d, steps) ==>
      CrashSafe(After(flushes, d, steps))
  }

  /** Snapshot mode can be left exactly when compactions flush or everything written so far is logged or
      flushed. Otherwise the next offset survives a crash that some earlier row does not. */
  lemma LeaveSafeIff(flushes: bool, d: Disk)
    requires Inv(flushes, d) && d.phase.Idle?
    ensures SafeFromNowOn(flushes, Next(flushes, d, LeaveSnapshot)) <==> flushes || AllSafe(d)
  {
    var left := Next(flushes, d, LeaveSnapshot);
    if flushes || AllSafe(d) {
      NextKeepsInv(flushes, d, LeaveSnapshot);
      forall steps | Happens(flushes, left, steps) && AllLeaveSafely(flushes, left, steps)
        ensures CrashSafe(After(flushes, left, steps))
      {
        StepsKeepInv(flushes, left, steps);
        InvIsCrashSafe(flushes, After(flushes, left, steps));
      }
    } else {
      var v :| 0 <= v < |d.writes| && !SurvivesEverywhere(d, v);
      SurvivalIsOfFiles(d, left);
      NextOffsetIsUnsafe(left, v);
    }
  }

  /** The rest of a compaction, and then an offset. */
  function CompactThenOffset(n: nat, records: seq<Record>, o: ReplicationOffset): seq<Step> {
    if n == 0 then [CompactDone, SetOffset(records, o)] else [CompactNext] + CompactThenOffset(n - 1, records, o)
  }

  /** Outside snapshot mode, and with compactions that do not flush, nothing is flushed before an offset is
      written. */
  lemma {:induction false} OffsetAfterCompaction(d: Disk, n: nat, records: seq<Record>, o: ReplicationOffset)
    requires d.phase.Compacting? && !d.snapshot && d.phase.next + n == |d.files|
    ensures var steps := CompactThenOffset(n, records, o);
            Happens(false, d, steps) && AllLeaveSafely(false, d, steps) &&
            After(false, d, steps) == d.(writes := d.writes + [Written(records, Some(o), true)], phase := Idle)
    decreases n
  {
    var steps := CompactThenOffset(n, records, o);
    var d' := Next(false, d, steps[0]);
    if n == 0 {
      assert steps[1..] == [SetOffset(records, o)] && steps[1..][1..] == [];
      var last := Next(false, d', SetOffset(records, o));
      assert Happens(false, last, []) && AllLeaveSafely(false, last, []) && After(false, last, []) == last;
      assert Happens(false, d', steps[1..]) && AllLeaveSafely(false, d', steps[1..]);
      assert After(false, d', steps[1..]) == last;
    } else {
      assert steps[1..] == CompactThenOffset(n - 1, records, o);
      OffsetAfterCompaction(d', n - 1, records, o);
    }
  }

  lemma OffsetCoversLost(d: Disk, v: nat, w: Written)
    requires v < |d.writes| && !SurvivesEverywhere(d, v) && w.offset.Some? && w.logged
    ensures !CrashSafe(d.(writes := d.writes + [w], phase := Idle))
  {
    var d' := d.(writes := d.writes + [w], phase := Idle);
    var cf :| 0 <= cf < |d.files| && !Survives(d, v, cf);
    assert !Survives(d', v, cf);
    assert OffsetSurvives(d', |d.writes|) && !SurvivesEverywhere(d', v);
  }

  lemma NextOffsetIsUnsafe(d: Disk, v: nat)
    requires d.phase == Compacting(0) && !d.snapshot && v < |d.writes| && !SurvivesEverywhere(d, v)
    ensures !SafeFromNowOn(false, d)
  {
    var o := ReplicationOffset([], 0);
    OffsetAfterCompaction(d, |d.files|, [], o);
    OffsetCoversLost(d, v, Written([], Some(o), true));
  }

  /** Rows of a snapshot, the end of snapshot mode, and an offset that is synced. */
  function UnflushedSteps(records: seq<Record>, o: ReplicationOffset): seq<Step> {
    [WriteRows(records), LeaveSnapshot] + CompactThenOffset(1, [], o)
  }

  /** Flushes are needed: where nothing flushes, a synced write alone does not save the rows written before
      it. */
  lemma SyncAloneIsNotEnough(records: seq<Record>, o: ReplicationOffset)
    ensures Happens(false, Started(1), UnflushedSteps(records, o))
    ensures !CrashSafe(After(false, Started(1), UnflushedSteps(records, o)))
  {
    var steps := UnflushedSteps(records, o);
    var written := Next(false, Started(1), steps[0]);
    var left := Next(false, written, LeaveSnapshot);
    assert steps[1..] == [LeaveSnapshot] + CompactThenOffset(1, [], o);
    assert steps[1..][1..] == CompactThenOffset(1, [], o);
    OffsetAfterCompaction(left, 1, [], o);
    assert !Survives(left, 0, 0);
    OffsetCoversLost(left, 0, Written([], Some(o), true));
    assert Happens(false, written, steps[1..]);
    assert After(false, written, steps[1..]) == After(false, left, steps[1..][1..]);
  }
}

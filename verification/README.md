# ReadySet state, wire and expression model

A Dafny model of the parts of ReadySet that keep or move state under hard invariants, with proofs of
those invariants. `dafny verify dfyconfig.toml` checks all of it.

| part | files | what is proved |
|---|---|---|
| merging interval set | `Interval*.dfy` | sorted alternating endpoints stand for a set of points; insert is union, remove is difference, the representation is canonical; both iterators against the point set, up to their first `None` and after it |
| partial in-memory state | `StateTypes`, `Memory*`, `LookupKeys`, `WeakIndices`, `Traces` | in every reachable state every filled key of every index holds exactly the existing rows; what tagged batches do and keep; lookups through any overlapping index; weak indices |
| persistent state | `KeyEncoding`, `PointKeys`, `KeyReading`, `Persistent*` | encoding of keys and reading them back; every index of the store is the table, over batches, late indices, restarts and crashes; exactly which batches are written right, and which point and range lookups are |
| replication | `ReplicationOffsets`, `Replication`, `SnapshotDurability` | exactly-once batches, consistent read handles, crash safety of snapshots |
| MySQL packets | `PacketFrames`, `PacketIO`, `ColumnDefinitions`, `ColumnDecoding` | payloads survive chunking, partial writes and fragmented reads; column definitions, cached or not, are read back by a client |
| expression lowering | `InLowering` | `IN` and `NOT IN` against the evaluator |

Code that updates things in place is a class (`IntervalTreeSet`, `SingleState`, `MemoryState`,
`PersistentState`, `PacketWriter`, `PacketReader`) or a method with loops, proved against a function on
values; the theorems are about those functions. Protocols (read handles, snapshot durability) are state
machines over their steps.

What the environment decides is a parameter or a nondeterministic choice: the order of a hash map and
the key that a random eviction picks, how many bytes a write takes or a read gives, what a RocksDB
iterator walks through (a listing in key order), whether a compaction flushes, the types of columns, the
order of key values, column resolution, type unification and coercion. The store is stated over any
encoding of keys that meets a few laws, and the encoding of the source meets them (`SourceCodecOk`); where
laws are asked of type unification and coercion, a context that meets them is given (`PlainContextOk`).

Behaviour of the code that differs from what its documentation or its callers may expect, kept as it is
and stated exactly:

- the overlap iterator widens an inclusive end where a stored interval ends exclusively, and mostly
  yields nothing for ranges without an upper end (`OverlapsExactIffSafe`);
- after its first `None` each of the two iterators can yield again or panic, under exact conditions on
  the set and the range (`DifferenceLaterIff`, `OverlapsLaterIff`);
- a lookup on columns with a repetition can miss rows that exist, in states that runs reach, when it is
  answered by an index on other columns (`LookupRightIff` has the exact condition,
  `RepeatedColumnIsWrong` an example);
- an eviction from a full in-memory index, which `evict_bytes` can draw, loses rows unless the evicted
  keys hold none (`EvictAllExactIff`);
- evicting keys by name leaves weak indices unequal to the strict one for rows with several copies
  (`EvictKeysKeepsWeak`);
- a batch on the persistent state is written, and written right, exactly if every row whose delete must
  search was there before the batch and is deleted once in it (`BatchRightIff`); otherwise it fails or a
  copy too many is left;
- in a key of several columns NULL and the empty text are the same byte, and a point lookup does not
  compare rows, so it can return rows with another key (`SourceLookupIff` and `SomeWrongIff` have the
  exact conditions, `NullForEmptyText` an example);
- in a key of several columns texts are written without their variant, with which the comparators of
  ordered indices read them: such a key is read back exactly if it holds no text; else the comparator
  compares another key or panics (`ReadsBackIff`, `LongTextUnreadable`; a table reached by a run in
  `OrderedTextPanics`);
- a late index whose construction a crash interrupts is trusted afterwards, and lookups through it miss
  exactly the rows that it lacks, which are those that the construction had not reached and that no later
  batch deleted (`CrashedLookupIff`, `LacksIff`, `CrashLosesRow`);
- a range lookup whose inclusive upper end is below its lower end returns the rows at the upper end, and
  one with an exclusive lower end skips entries by their primary key instead of their own, so that it
  mostly returns the rows at that end (`LookupRange`, `ExclusiveReturnsBound`; a table reached by a run in
  `ExclusiveEndIsWrong`);
- a read handle sees rows written after its own offset exactly if some batch was written after one of
  another replication log, or one is being written and another offset than the last was announced
  (`SeesAnotherIffLogSwitched`);
- a packet queue that `write_packet` sends along with a small payload stays queued (`WritePacket`);
- the sequence id assertion of the packet reader fails when ids wrap inside one payload, in builds that
  check arithmetic for overflow (`ReceivedIffNoWraps`);
- `x IN ()` is TRUE and `x NOT IN ()` is NULL (`NotInIsNotOfInIff`);
- where all types are unknown, `x = ANY (ARRAY L)` fails on values that are not texts, and `x IN L` does
  not (`UnknownIsAnyIff`).

## Model

| member | source | states |
|---|---|---|
| `IntervalEndpoints.CmpIsTheOrder` | merging-interval-tree/src/lib.rs:165-216 | the comparison table of endpoints is the order of cuts on the line, ties between an upper and a lower endpoint at one cut included |
| `IntervalEndpoints.LessIsStrictTotal` | merging-interval-tree/src/lib.rs:165-216 | that order is strict and total |
| `IntervalEndpoints.CheckRangeIffInhabited` | merging-interval-tree/src/lib.rs:366-391 | a range passes the check exactly if some point lies in it |
| `IntervalTree.ValidIffSortedAlternatingInhabited` | merging-interval-tree/src/lib.rs:6-14 | the invariant used here is: sorted, alternating lower and upper, and every stored interval has a point |
| `IntervalTree.ContainsIffOdd` | merging-interval-tree/src/lib.rs:6-14 | a point is in the set exactly if an odd number of endpoints lie before it |
| `IntervalTree.InsertValid` | merging-interval-tree/src/lib.rs:472-517 | inserting any valid range keeps the invariant |
| `IntervalTree.InsertIsUnion` | merging-interval-tree/src/lib.rs:472-517 | inserting a range adds exactly its points, for every mix of inclusive, exclusive and unbounded ends |
| `IntervalTree.RemoveValid` | merging-interval-tree/src/lib.rs:553-597 | removing any valid range keeps the invariant |
| `IntervalTree.RemoveIsDifference` | merging-interval-tree/src/lib.rs:553-597 | removing a range takes away exactly its points |
| `IntervalTreeSets.IntervalTreeSet.InsertInterval` | merging-interval-tree/src/lib.rs:472-517 | the in-place insert leaves a valid set with the union of points |
| `IntervalTreeSets.IntervalTreeSet.RemoveInterval` | merging-interval-tree/src/lib.rs:553-597 | the in-place removal leaves a valid set with the difference of points |
| `IntervalTreeSets.IntervalTreeSet.InsertPoint` | merging-interval-tree/src/lib.rs:529-534 | adds one point |
| `IntervalTreeSets.IntervalTreeSet.RemovePoint` | merging-interval-tree/src/lib.rs:613-619 | takes away one point |
| `IntervalQueries.ContainsPointIsMembership` | merging-interval-tree/src/lib.rs:635-666 | the search for a point answers membership |
| `IntervalQueries.CoversIntervalIsInclusion` | merging-interval-tree/src/lib.rs:683-704 | the search for a range answers inclusion of all its points |
| `IntervalQueries.Canonical` | merging-interval-tree/src/lib.rs:35-41 | equal point sets have equal endpoints |
| `IntervalQueries.InsertAllPoints` | merging-interval-tree/src/lib.rs:472-517 | a sequence of inserts gives the union of all its ranges |
| `IntervalQueries.InsertionOrderIrrelevant` | merging-interval-tree/src/lib.rs:35-41 | inserting the same ranges in any order gives equal trees |
| `IntervalIterators.DifferenceIsUncovered` | merging-interval-tree/src/lib.rs:737-760 | up to its first `None` the difference iterator yields exactly the points of the range that the set misses |
| `IntervalIterators.DifferenceIsOrdered` | merging-interval-tree/src/lib.rs:931-962 | its pieces are non-empty, increasing and separated |
| `IntervalIterators.DifferenceNotFused` | merging-interval-tree/src/lib.rs:931-962 | after its first `None` it can yield a range that the set covers |
| `IntervalExhaustion.DifferenceLaterIff` | merging-interval-tree/src/lib.rs:863-962 | for every set and range: after the first `None` of the difference iterator a later call yields a range, and a later call panics, exactly under the stated conditions on the endpoints |
| `IntervalExhaustion.DifferencePanics` | merging-interval-tree/src/lib.rs:931-962 | a concrete set and range for which a call after the first `None` panics |
| `IntervalExhaustion.OverlapsLaterIff` | merging-interval-tree/src/lib.rs:902-997 | the same two exact conditions for the overlap iterator |
| `IntervalOverlaps.OverlapsBounded` | merging-interval-tree/src/lib.rs:785-813 | with a bounded end the overlap iterator yields the covered part of the range, plus the end point where it is widened |
| `IntervalOverlaps.OverlapsUnbounded` | merging-interval-tree/src/lib.rs:902-921 | what it yields without an upper end |
| `IntervalOverlaps.OverlapsExactIffSafe` | merging-interval-tree/src/lib.rs:902-921 | its points are the covered ones for exactly the ranges that meet the stated condition |
| `IntervalOverlaps.OverlapsOrdered` | merging-interval-tree/src/lib.rs:972-997 | its pieces are non-empty, increasing and separated, for every range |
| `IntervalOverlaps.OverlapsCanWiden` | merging-interval-tree/src/lib.rs:906-914 | a concrete set and range for which it yields a point that is not in the set |
| `IntervalTreeSets.IntervalDiffIter.Next` | merging-interval-tree/src/lib.rs:931-962 | one call changes the iterator and answers as the function on values does |
| `IntervalTreeSets.IntervalDiffIter.Collect` | merging-interval-tree/src/lib.rs:737-760 | draining the iterator gives the uncovered points, in order |
| `IntervalTreeSets.IntervalOverlapIter.Next` | merging-interval-tree/src/lib.rs:972-997 | one call changes the iterator and answers as the function on values does |
| `IntervalTreeSets.IntervalOverlapIter.Collect` | merging-interval-tree/src/lib.rs:785-813 | draining the iterator gives ordered pieces, whose points are the covered ones exactly for safe ranges |
| `MemoryModel.InsertExact` | dataflow-state/src/keyed_state.rs:132-212 | an index that holds exactly the existing rows of its filled keys still does after an insert |
| `MemoryModel.RemoveExact` | dataflow-state/src/keyed_state.rs:224-299 | likewise after removing an existing row |
| `MemoryModel.ApplyUntagged` | dataflow-state/src/memory_state.rs:409-464 | an untagged record keeps every index exact and reports whether it hit a filled key of some index |
| `MemoryRuns.ProcessUntagged` | dataflow-state/src/memory_state.rs:105-152 | a batch keeps every index exact, and on partial state keeps exactly the records that hit some filled key |
| `MemoryRuns.TaggedInserts` | dataflow-state/src/memory_state.rs:409-445 | tagged inserts change the tagged index only, by the rows of its filled keys |
| `MemoryRuns.ReplayKeepsInv` | dataflow-state/src/memory_state.rs:163-169 | filling keys and replaying their rows by tag keeps every index exact |
| `MemoryReplays.TaggedBatch` | dataflow-state/src/memory_state.rs:105-152 | on partial state a tagged batch of any inserts and deletes, whatever the tag: the tagged index sees all its records, every other index only its deletes |
| `MemoryReplays.AllOnIndexExact` | dataflow-state/src/memory_state.rs:409-464 | an exact index that sees these records is exact afterwards, for the table with them applied |
| `MemoryReplays.TaggedKeeps` | dataflow-state/src/memory_state.rs:105-152 | of a tagged batch stay, in order, exactly the inserts whose key is filled in the tagged index and the deletes whose key some index has at their turn, told from the state before the batch |
| `MemoryReplays.UnknownTagKeepsAll` | dataflow-state/src/memory_state.rs:418-426 | on partial state a batch of inserts with an unknown tag stays whole and changes nothing |
| `MemoryReplays.ReplayIsKept` | dataflow-state/src/memory_state.rs:105-169 | a replay of keys that were just filled stays whole |
| `MemoryReplays.FullKeepsAll` | dataflow-state/src/memory_state.rs:105-152 | on full state every batch stays whole |
| `MemoryReplays.FullIgnoresTag` | dataflow-state/src/memory_state.rs:105-152 | and its tag makes no difference |
| `MemoryRuns.AddKeyKeepsInv` | dataflow-state/src/memory_state.rs:61-95 | adding an index, a tag or a full index over existing rows keeps every index exact |
| `MemoryRuns.AddKeyTags` | dataflow-state/src/memory_state.rs:61-95 | after adding an index every tag given leads to it and every other tag where it led before; an index that was there is unchanged, a new one comes last, partial and empty exactly if tags were given |
| `MemoryRuns.StepKeepsInv` | dataflow-state/src/memory_state.rs:60-393 | each of the seven operations keeps every index exact, where evictions lose no row of a full index |
| `MemoryRuns.ReachableIsExact` | dataflow-state/src/memory_state.rs:105-178 | in every state that any run reaches, every filled key holds exactly the existing rows and holes hold nothing; indices stay distinct if those added have distinct columns |
| `MemoryRuns.RunFromEmpty` | dataflow-state/src/memory_state.rs:60-393 | every run that starts with no index and no row ends in an exact state |
| `MemoryRuns.EvictAllExactIff` | dataflow-state/src/memory_state.rs:302-373 | an eviction leaves an index exact exactly if the index is partial or the evicted keys hold no rows |
| `MemoryLookup.LookupSingleExact` | dataflow-state/src/single_state.rs:432-441 | a lookup in one index that does not miss is exact |
| `LookupKeys.ShuffleKey` | dataflow-state/src/memory_state.rs:208-229 | the loop builds the shuffled key, if and only if every looked-up column is one of the index |
| `LookupKeys.ShuffledProjects` | dataflow-state/src/memory_state.rs:206-232 | with distinct columns a key shuffled to the column order of another index names the same values |
| `LookupKeys.RepeatedLeavesNull` | dataflow-state/src/memory_state.rs:221-229 | with any repeated column the shuffled key of some row is not that row's key |
| `LookupKeys.PartOfKey` | dataflow-state/src/memory_state.rs:240-259 | there is a part of the key for a smaller index exactly if as many looked-up columns are in the index as it has; its values are sorted by position |
| `LookupKeys.SortedOnColumnsIff` | dataflow-state/src/memory_state.rs:255-259 | however ties are sorted, the values fall on their own columns exactly if the index is named column for column as often as it has them, equal ones together |
| `LookupKeys.DistinctIsRight` | dataflow-state/src/memory_state.rs:198-273 | distinct looked-up columns ask every index rightly |
| `MemoryLookup.Retain` | dataflow-state/src/lib.rs:544-557 | filtering keeps exactly the rows that satisfy the filter, with multiplicity |
| `MemoryLookup.AnswersRight` | dataflow-state/src/memory_state.rs:198-273 | an index of the other type, of the same columns in another order or of fewer columns answers with exactly the existing rows, if it is rightly asked |
| `MemoryLookup.LookupFinds` | dataflow-state/src/memory_state.rs:179-276 | with distinct columns a lookup misses exactly if no index over some of the columns has that part of the key filled |
| `MemoryColumns.LookupRightIff` | dataflow-state/src/memory_state.rs:179-276 | for every list of different indices: lookups on the columns are right after all runs from the empty state that lead to these indices if and only if each index is rightly asked |
| `MemoryColumns.WronglyAskedIsWrong` | dataflow-state/src/memory_state.rs:198-273 | a run to a wrong lookup, for every index that is wrongly asked: partial indices are added, a row is written into their holes, and the wrong key is filled |
| `MemoryColumns.RepeatedColumnIsWrong` | dataflow-state/src/memory_state.rs:206-232 | with hash indices on columns 0, 0 and 0, 1 lookups on 0, 0 are not always right |
| `MemoryLookup.Lookup` | dataflow-state/src/memory_state.rs:179-276 | a lookup that does not miss returns exactly the existing rows with the key, whichever index served it, if indices are rightly asked; with distinct columns they are, and it misses exactly if no index can serve it |
| `MemoryLookup.LookupAfterRun` | dataflow-state/src/memory_state.rs:60-393 | the same after any run from the empty state whose added indices have distinct columns |
| `WeakIndices.WriteKeepsWeak` | dataflow-state/src/memory_state.rs:409-464 | a write keeps each weak index covering, and equal to, the materialised rows |
| `WeakIndices.TaggedKeepsWeak` | dataflow-state/src/memory_state.rs:409-445 | a replay does too |
| `WeakIndices.EvictRandomKeepsWeak` | dataflow-state/src/memory_state.rs:302-342 | eviction by bytes does too |
| `WeakIndices.EvictKeysKeepsWeak` | dataflow-state/src/memory_state.rs:344-373 | after eviction by keys the weak index still covers, and is still equal exactly if every evicted row had one copy |
| `WeakIndices.WeakStep` | dataflow-state/src/memory_state.rs:302-373 | every step of a run keeps weak indices covering |
| `WeakIndices.WeakRun` | dataflow-state/src/memory_state.rs:302-373 | over every run, each weak index finds every materialised row, and nothing else if rows are distinct at evictions by key |
| `WeakIndices.OnlyByteEvictions` | dataflow-state/src/memory_state.rs:302-342 | runs that evict only by bytes need no distinct rows |
| `WeakIndices.WeakFromEmpty` | dataflow-state/src/memory_state.rs:302-389 | the same from the empty state: a partial index, weak keys, then any writes, replays and evictions |
| `MemoryStates.SingleState.InsertRow` | dataflow-state/src/single_state.rs:64-70 | inserts in place as the function on values |
| `MemoryStates.SingleState.RemoveRow` | dataflow-state/src/single_state.rs:73-79 | removes in place as the function on values |
| `MemoryStates.SingleState.MarkFilled` | dataflow-state/src/single_state.rs:81-224 | a filled point key has an empty bag |
| `MemoryStates.SingleState.MarkHole` | dataflow-state/src/single_state.rs:231-333 | a hole has no bag |
| `MemoryStates.SingleState.EvictKeys` | dataflow-state/src/single_state.rs:365-379 | evicts the keys one by one and returns the distinct rows they had |
| `MemoryStates.SingleState.EvictRandom` | dataflow-state/src/single_state.rs:357-363 | evicts some filled key, none only if there is none |
| `MemoryStates.MemoryState.Insert` | dataflow-state/src/memory_state.rs:409-445 | inserts into the tagged or all strict indices, and into the weak ones if some strict one took the row; with a tag the answer is whether the tagged index took it, and yes for an unknown tag |
| `MemoryStates.MemoryState.Remove` | dataflow-state/src/memory_state.rs:447-464 | removes from all indices |
| `MemoryStates.MemoryState.ProcessRecords` | dataflow-state/src/memory_state.rs:105-152 | the loop over records is the function on values; a full state keeps all of them, a tagged batch on partial state keeps those of `TaggedKeeps`; an untagged batch of possible records is a step of a run |
| `MemoryStates.MemoryState.MarkFilled` | dataflow-state/src/memory_state.rs:163-168 | fills a key of the tagged index |
| `MemoryStates.MemoryState.MarkHole` | dataflow-state/src/memory_state.rs:170-177 | makes a key of the tagged index a hole; a step of a run if no row is lost |
| `MemoryStates.MemoryState.EvictKeys` | dataflow-state/src/memory_state.rs:344-373 | evicts keys of the tagged index, full or partial, and forgets their rows in the weak indices; the state is exact afterwards exactly if no row was lost, and then it is a step of a run |
| `MemoryStates.MemoryState.EvictBytes` | dataflow-state/src/memory_state.rs:302-342 | evicts different keys of the index one by one, with all copies of their rows in the weak indices, each while fewer bytes than asked were freed; it returns the bytes freed, which reach those asked or the index is empty; it is a run of single evictions if no row is lost, and the state is exact afterwards exactly then |
| `MemoryStates.MemoryState.AddKey` | dataflow-state/src/memory_state.rs:61-95 | adds an index, or tags to one that is there, as a step of a run; the tags lead to that index, and nothing else changes |
| `MemoryStates.MemoryState.AddWeakKey` | dataflow-state/src/memory_state.rs:386-389 | adds an empty weak index, as a step of a run |
| `MemoryStates.MemoryState.Lookup` | dataflow-state/src/memory_state.rs:179-276 | the lookup on the object is exact if indices are rightly asked, as with distinct columns |
| `MemoryStates.MemoryState.LookupWeak` | dataflow-state/src/memory_state.rs:391-393 | a weak lookup answers exactly if the weak index has the key; it finds every materialised row with the key and no row with another key, and no further copy where the two bags are equal |
| `KeyEncoding.VarintRoundTrip` | dataflow-state/src/persistent_state.rs:968-971 | the size in front of a key is read back, whatever follows |
| `KeyEncoding.VarintPrefixFree` | dataflow-state/src/persistent_state.rs:968-971 | no encoded size starts another |
| `KeyEncoding.StoredKeyInjective` | dataflow-state/src/persistent_state.rs:968-971 | a stored key tells its key and its extra part |
| `KeyEncoding.StartsWithIffTransformed` | dataflow-state/src/persistent_state.rs:1763-1784 | a stored key starts with a prefix exactly if the prefix transform returns it |
| `KeyEncoding.PrefixExtractorLaws` | dataflow-state/src/persistent_state.rs:1749-1784 | the four laws of a RocksDB prefix extractor, for all stored keys in byte order |
| `PointKeys.ValuesApart` | readyset-data/src/serde.rs:39-74 | the bytes of NULL, a 64-bit number or a text tell the value, whatever follows |
| `PointKeys.SameBytesIff` | dataflow-state/src/key.rs:112-151 | keys of the same typed columns have the same bytes if and only if they are equal or, where there are several columns, differ only in NULL and the empty text |
| `PointKeys.CollidingKeys` | dataflow-state/src/key.rs:117-125 | the keys 1, NULL and 1, '' are both the bytes 1, 2, 0 |
| `PersistentCodec.KeyCodecOk` | dataflow-state/src/persistent_state.rs:952-971 | the sized encoding meets the laws that the store invariants use, on all keys whose size has 64 bits, for any serializer that tells apart the keys without NULL that rows can have at the same columns |
| `PersistentCodec.SourceCodecOk` | dataflow-state/src/key.rs:112-151 | the serializer of the source is such a one, for all column types |
| `PersistentCodec.SourcePrefixIff` | dataflow-state/src/persistent_state.rs:1599-1601 | two keys have one prefix exactly if they are equal or differ only in NULL and the empty text |
| `PersistentCodec.StampReads` | dataflow-state/src/persistent_state.rs:1626-1631 | the bytes after a key tell first the epoch, then the sequence number |
| `PersistentModel.SecondaryKeysClash` | dataflow-state/src/persistent_state.rs:1603-1607 | two rows share a secondary entry only if one key without NULL identifies both, or they have one primary key and the same key bytes |
| `PersistentModel.SecondaryDetermined` | dataflow-state/src/persistent_state.rs:1636-1653 | the primary column family determines the secondary ones |
| `PersistentModel.PutKeepsSecondary` | dataflow-state/src/persistent_state.rs:1636-1653 | a put into a secondary index overwrites nothing and keeps it in step with the rows |
| `PersistentModel.DelKeepsSecondary` | dataflow-state/src/persistent_state.rs:1696-1710 | a delete leaves no dangling entry and takes no other one |
| `PersistentTable.CheckedIndexIsUnique` | dataflow-state/src/persistent_state.rs:1740-1747 | an index that holds all columns of a unique key, in any order and with others, has at most one row per key without NULL |
| `PersistentTable.UniqueIff` | dataflow-state/src/persistent_state.rs:1740-1747 | the check answers yes exactly if in every table that respects the unique keys no two rows share a key of the index without NULL |
| `PersistentTable.NewPkIsFresh` | dataflow-state/src/persistent_state.rs:1626-1633 | a new primary key is that of no row present, over all epochs |
| `PersistentTable.PutKeepsInv` | dataflow-state/src/persistent_state.rs:1612-1656 | inserting a row that the unique keys allow, and whose keys can be encoded, overwrites no entry of any index, and the store is then the table with that row |
| `PersistentTable.DelKeepsInv` | dataflow-state/src/persistent_state.rs:1658-1713 | deleting an entry is deleting its row from the table, in every index |
| `PersistentRuns.FoundIsThere` | dataflow-state/src/persistent_state.rs:1672-1692 | the entry that a delete finds in the database before the batch still holds the row when the batch is written |
| `PersistentRuns.BatchKeepsInv` | dataflow-state/src/persistent_state.rs:555-565 | a batch turns the store of a table into the store of the table with the batch applied |
| `PersistentRuns.SecondDeleteIsLost` | dataflow-state/src/persistent_state.rs:1678-1691 | two deletes of one row in a batch, both searching, find the same entry and take one copy |
| `PersistentBatches.BatchOkIff` | dataflow-state/src/persistent_state.rs:1658-1692 | for batches of possible records that respect the unique keys, the demand of `BatchKeepsInv` is: rows whose delete must search were there before and are deleted once |
| `PersistentBatches.WrittenRightIff` | dataflow-state/src/persistent_state.rs:555-605 | a batch that is built leaves the table with the batch applied exactly if no such row is deleted twice |
| `PersistentBatches.BatchRightIff` | dataflow-state/src/persistent_state.rs:555-605 | a batch can be built and is then written right exactly under that condition |
| `PersistentRuns.ReopenKeepsInv` | dataflow-state/src/persistent_state.rs:177-182 | reopening with the next epoch keeps the invariant although the counter starts over |
| `PersistentRuns.RunKeepsInv` | dataflow-state/src/persistent_state.rs:536-657 | along every run of batches, late indices and restarts between them the store is the table, in all its indices |
| `PersistentLookup.EveryView` | dataflow-state/src/persistent_state.rs:444-505 | behind every index is the whole table with multiplicity, each row under its key |
| `PersistentLookup.LookupExactIff` | dataflow-state/src/persistent_state.rs:444-505 | after every run and through every index, the entries under a key lead to exactly the rows whose key has its bytes, without NULL if one read is enough; these are the rows with that key if and only if none of them has another one |
| `PersistentLookup.Scan` | dataflow-state/src/persistent_state.rs:476-503 | walking from the sought position while the prefix stays the same meets exactly the entries with the prefix |
| `PersistentLookup.LookupVia` | dataflow-state/src/persistent_state.rs:444-505 | one read where the key identifies the row, else a scan: both return those rows, and are exact under that condition only |
| `PersistentCollisions.SourceLookupIff` | dataflow-state/src/persistent_state.rs:444-505 | with the serializer of the source, after every run and through every index: a lookup of a key of its column types is exact if and only if the key is unique and holds no NULL, or no row has a key that differs from it only in NULL and the empty text |
| `PersistentCollisions.SomeWrongIff` | dataflow-state/src/key.rs:117-149 | for every schema and list of columns: some run leads to a wrong lookup through an index on them if and only if there are several and one holds text; for keys without NULL, if moreover the index is not unique |
| `PersistentCollisions.NullForEmptyText` | dataflow-state/src/persistent_state.rs:478-502 | a run of one write, after which a lookup of 1, '' returns the row 1, NULL |
| `PersistentLookup.BuildIndex` | dataflow-state/src/persistent_state.rs:1335-1367 | the nested loop over batches of any positive size ends and builds the index of all rows |
| `PersistentLookup.LateIsEarly` | dataflow-state/src/persistent_state.rs:1290-1376 | after any writes and restarts, adding an index gives the very store that has had it from the start |
| `PersistentCrash.EventKeepsDamaged` | dataflow-state/src/persistent_state.rs:1297-1368 | each batch, late index, restart, and crash inside the construction of an index keeps the primary index the table, and every other index in step with the rows that it does not lack |
| `PersistentCrash.EventsKeepDamaged` | dataflow-state/src/persistent_state.rs:1190-1219 | so does every run of them |
| `PersistentCrash.CrashedLookupIff` | dataflow-state/src/persistent_state.rs:444-505 | after every run with crashes, a lookup through any index is exact if and only if the index lacks no row with the key, and returns none with another key |
| `PersistentCrash.LacksIff` | dataflow-state/src/persistent_state.rs:1297-1368 | after every run with crashes: an index lacks a row exactly if a crash kept the construction of the index from reaching it and no later batch deleted it; restarts repair nothing |
| `PersistentCrash.CrashLosesRow` | dataflow-state/src/persistent_state.rs:1297-1368 | for every table and index: a write and a crash before the construction reaches the row leave an index through which the row is not found |
| `KeyReading.ReadsBackIff` | dataflow-state/src/persistent_state.rs:1797-1824 | the comparator of an ordered index reads every entry under a key back if and only if the key has one column or holds no text |
| `KeyReading.LongTextUnreadable` | readyset-data/src/serde.rs:114-126 | no entry whose key has several columns and a first text of twelve or more characters can be read |
| `KeyReading.EmptyReadAsNull` | readyset-data/src/serde.rs:172-174 | the key 1, '' is read as 1, NULL |
| `KeyReading.LetterReadAsNumber` | readyset-data/src/serde.rs:175-183 | the key 1, 'a' is read as 1, -49 |
| `KeyReading.WordUnreadable` | readyset-data/src/serde.rs:311-321 | the key 1, 'abc' cannot be read, whatever follows it |
| `PersistentExample.OrderedReadsIff` | dataflow-state/src/persistent_state.rs:1804-1832 | the comparator of an ordered index reads all keys of its column types back if and only if the index has one column or none with text |
| `PersistentExample.OrderedTextPanics` | dataflow-state/src/persistent_state.rs:1797-1824 | a run that leads to an ordered index whose only entry cannot be compared with anything |
| `PersistentRange.EarlyCutIsHarmless` | dataflow-state/src/persistent_state.rs:1804-1824 | the comparator cuts entries too early, which changes no result |
| `PersistentRange.BeforeBound` | dataflow-state/src/persistent_state.rs:1804-1824 | an entry sorts before a bare key exactly if its own key does, where both keys are read back |
| `PersistentRange.SkipsByPrimaryKey` | dataflow-state/src/persistent_state.rs:832-846 | the skip loop of an exclusive lower end passes over an entry exactly if the primary key of its row has the bytes of that end |
| `PersistentRange.ExclusiveReturnsBound` | dataflow-state/src/persistent_state.rs:832-846 | a row at an exclusive lower end whose primary key is another one makes the lookup wrong |
| `PersistentRange.FindsRangeIff` | dataflow-state/src/persistent_state.rs:812-890 | where keys are read back, for all kinds of ends the scans find exactly the entries of the range if and only if an upper end below the range has no rows and the skip loop passes over just the entries at the lower end |
| `PersistentRange.RowsRightIff` | dataflow-state/src/persistent_state.rs:848-905 | the rows returned are the wanted ones, with multiplicity, exactly if the entries found are |
| `PersistentRange.LookupRange` | dataflow-state/src/persistent_state.rs:803-905 | where keys are read back, seek, skip loop, scan, second scan of an inclusive end and batches of 128 keys together return the rows of the entries from the first not skipped to the upper end, then those at an inclusive end, in key order; these are exactly the rows of the range if and only if that condition holds |
| `PersistentExample.ExclusiveEndIsWrong` | dataflow-state/src/persistent_state.rs:832-846 | a table of one row, reached by a run from a new one, for which a lookup above an exclusive end can return one thing only, the row at that end |
| `PersistentStates.OpsOfRow` | dataflow-state/src/persistent_state.rs:1637-1653 | the operations that a loop over indices adds to a batch are one write of the row |
| `PersistentStates.PersistentState.NewKey` | dataflow-state/src/persistent_state.rs:1619-1633 | the primary key of a new row and the counter after it |
| `PersistentStates.PersistentState.FindRow` | dataflow-state/src/persistent_state.rs:1672-1692 | the scan finds the first entry in byte order that holds the row, or there is none |
| `PersistentStates.PersistentState.AddRecord` | dataflow-state/src/persistent_state.rs:1612-1713 | adds to the batch the operations of one insert or delete, or fails because the row cannot be found |
| `PersistentStates.PersistentState.WriteRecords` | dataflow-state/src/persistent_state.rs:555-605 | writes all records, each delete having searched the database as it was, or nothing, and then some delete finds no row; a batch of possible records that respect the unique keys succeeds with the right table exactly if it meets the condition of `BatchRightIff`, and is then a step of a run |
| `PersistentStates.PersistentState.ProcessRecords` | dataflow-state/src/persistent_state.rs:536-608 | drops batches already processed, fails without an index, else applies the batch once, with or without an offset: exactly under the condition of `BatchRightIff` all indices are then the table with the batch applied; with an offset it is then one delivery of the replication model |
| `PersistentStates.PersistentState.Reopen` | dataflow-state/src/persistent_state.rs:177-182 | same table and files, next epoch, counter at zero; a step of a run |
| `PersistentStates.PersistentState.AddSecondaryIndex` | dataflow-state/src/persistent_state.rs:1290-1376 | appends one index over exactly the rows there, and keeps the others; a step of a run |
| `PersistentStates.PersistentState.AddKey` | dataflow-state/src/persistent_state.rs:633-657 | leaves the indices as they are if this one is there, else appends it, after a hash index on its columns if it is the first one and ordered |
| `PersistentStates.PersistentState.Lookup` | dataflow-state/src/persistent_state.rs:444-505 | through any hash index, returns exactly the rows of the table whose key has the bytes of the key, without NULL if one read is enough; these are the rows with the key if and only if none of them has another one |
| `PersistentStates.PersistentState.LookupRange` | dataflow-state/src/persistent_state.rs:793-905 | through an ordered index whose keys are read back, the rows that the scans of `PersistentRange.LookupRange` return, in key order: exactly those of the range if and only if the condition of `FindsRangeIff` holds |
| `Replication.ExactlyOnce` | dataflow-state/src/persistent_state.rs:547-553 | however delivery of a log to a table without an offset is rewound, table and offset are those of one pass: each batch reached is applied exactly once, in order |
| `Replication.OffsetNeverDecreases` | readyset-client/src/replication.rs:54-62 | no delivery of the same log takes the offset back |
| `Replication.NextKeepsInv` | dataflow-state/src/persistent_state.rs:1400-1406 | each step of writer, forwards and handles keeps offsets, versions and handles in step, for batches of any logs |
| `Replication.RunSaysEvents` | dataflow-state/src/persistent_state.rs:555-605 | over every run: each version is the initial table with the records of the batches accepted so far applied in order; offsets, announcements and handles are those of the events |
| `Replication.NewHandleSeesAll` | dataflow-state/src/persistent_state.rs:1400-1406 | a new handle hits, and sees the table with every accepted batch applied |
| `Replication.HandleSeesItsOffset` | dataflow-state/src/persistent_state.rs:444-453 | in every interleaving in which no batch was accepted after one of another log, a lookup through a handle that does not miss returns the initial table with the records of all batches up to the handle's own offset applied in order |
| `Replication.SeesAnotherIffLogSwitched` | readyset-client/src/replication.rs:54-62 | over every run, also one that ends inside a write: a handle at an announced offset can hit and see another version if and only if some batch was written after one of another log, or one is being written and an offset other than the last was announced; the log was switched exactly if two batches accepted in succession are of different logs |
| `Replication.CurrentHandleHits` | dataflow-state/src/persistent_state.rs:754-768 | over one log a handle that was told of everything written hits, except while a write is under way |
| `Replication.PositionsGoBack` | readyset-client/src/replication.rs:54-62 | through another log an earlier position of the first one is accepted again, and a handle sees later rows |
| `SnapshotDurability.NextKeepsInv` | dataflow-state/src/persistent_state.rs:567-605 | each step, crash point by crash point, keeps every row before a written offset safe in every column family |
| `SnapshotDurability.SnapshotWrites` | dataflow-state/src/persistent_state.rs:555-605 | over every run: the writes, and the batch that waits for its flushes, are the batches handed over, with their records and offsets, in order |
| `SnapshotDurability.SnapshotIsCrashSafe` | dataflow-state/src/persistent_state.rs:567-605 | where compactions flush: every crash that leaves an offset on disk leaves all earlier rows on disk, in every index, whenever snapshot mode is left |
| `SnapshotDurability.CarefulIsCrashSafe` | dataflow-state/src/persistent_state.rs:567-605 | where they do not: the same, if snapshot mode is left only when everything written is safe |
| `SnapshotDurability.LastIsSafe` | dataflow-state/src/persistent_state.rs:567-605 | which it is once the offset has been written |
| `SnapshotDurability.LeaveSafeIff` | dataflow-state/src/persistent_state.rs:1412-1452 | leaving snapshot mode is safe, whatever follows, exactly if compactions flush or everything written so far is logged or flushed |
| `SnapshotDurability.SyncAloneIsNotEnough` | dataflow-state/src/persistent_state.rs:576-591 | where nothing flushes, a run of five steps in which a synced offset outlives rows before it |
| `PacketFrames.Extend` | mysql-srv/src/packet.rs:338-366 | the payload grows by exactly the new bytes, and the assertion on its two representations never fails |
| `PacketFrames.MoreInput` | mysql-srv/src/packet.rs:316-408 | once the parser has decided, more input only adds to the rest |
| `PacketFrames.FramesParse` | mysql-srv/src/packet.rs:377-408 | a framed payload of any length is parsed back with the id of its last chunk; the parser panics instead exactly if ids wrap inside it and arithmetic is checked |
| `PacketFrames.IdsCount` | mysql-srv/src/packet.rs:100-118 | the ids of the last chunk and after it count chunks modulo 256 |
| `PacketFrames.RoundTrip` | mysql-srv/src/packet.rs:100-118 | a stream of framed payloads parses into exactly those payloads, once each and in order: always where arithmetic wraps, and where it is checked if no payload wraps ids |
| `PacketFrames.ReceivedIffNoWraps` | mysql-srv/src/packet.rs:383-405 | a stream is received to its end exactly if arithmetic is not checked or no payload wraps ids |
| `PacketIO.WriteAllVectored` | mysql-srv/src/packet.rs:30-56 | writes all bytes in order for every pattern of non-zero partial writes, and ends |
| `PacketIO.Advance` | mysql-srv/src/packet.rs:46-54 | skipping slices drops exactly the bytes written, within bounds |
| `PacketIO.QueuedSlices` | mysql-srv/src/packet.rs:59-76 | the slices of a queue hold its bytes |
| `PacketIO.PacketWriter.EnqueuePacket` | mysql-srv/src/packet.rs:100-118 | queues the chunks of a payload and advances the id |
| `PacketIO.PacketWriter.WriteQueuedPackets` | mysql-srv/src/packet.rs:131-139 | sends the queue and clears it |
| `PacketIO.PacketWriter.WriteLargePacket` | mysql-srv/src/packet.rs:142-179 | sends queue and chunks of a large payload and clears the queue |
| `PacketIO.PacketWriter.WritePacket` | mysql-srv/src/packet.rs:196-214 | sends queue and payload; the queue stays where the payload is small |
| `PacketIO.PacketReader.Next` | mysql-srv/src/packet.rs:249-313 | the answer is the parse of the whole stream, however it is cut into reads; at its end it is `None` or an error |
| `PacketIO.PacketReader.Drain` | mysql-srv/src/packet.rs:249-313 | repeated calls give all packets of the stream |
| `PacketIO.Transfer` | mysql-srv/src/packet.rs:30-313 | payloads through writer, wire and reader arrive once and in order, whatever is flushed when, for every pattern of writes and reads, exactly under that condition |
| `ColumnDefinitions.DefinitionLength` | mysql-srv/src/writers.rs:89-146 | the size computed in advance is the size of the encoded definition |
| `ColumnDefinitions.PrepareColumnDefinitions` | mysql-srv/src/writers.rs:149-163 | the prepared buffer is the numbered packets of count and definitions, which `CachedArrive` reads back |
| `ColumnDefinitions.WriteColumnDefinitions` | mysql-srv/src/writers.rs:165-201 | queues count, definitions and end-of-file packet, which `DefinitionsArrive` reads back |
| `ColumnDefinitions.WriteCachedColumnDefinitions` | mysql-srv/src/writers.rs:203-217 | queues the prepared bytes and the end-of-file packet, and skips the ids they use |
| `ColumnDefinitions.CachedIsUncached` | mysql-srv/src/writers.rs:149-217 | both paths give equal bytes and the same next id, if ids start at 1 and every definition is smaller than a full chunk |
| `ColumnDefinitions.CachedIsUncachedIff` | mysql-srv/src/writers.rs:149-217 | the bytes are equal exactly then |
| `ColumnDecoding.DefinitionBack` | mysql-srv/src/writers.rs:113-146 | a client that reads length-encoded strings and little-endian numbers gets from every definition, whatever follows it, the table and name of the column in their places, its character set, length (1024 if none), type and flags |
| `ColumnDecoding.HeaderBack` | mysql-srv/src/writers.rs:165-201 | from the payloads it gets the columns, all of them and in order, and an end of file without warnings |
| `ColumnDecoding.DefinitionsArrive` | mysql-srv/src/writers.rs:165-201 | it gets the same from the bytes on the wire, for columns of any size and number, exactly if arithmetic is not checked or no ids wrap inside a payload |
| `ColumnDecoding.CachedArrive` | mysql-srv/src/writers.rs:203-217 | and from the cached bytes where ids start at 1 and every definition is smaller than a full chunk |
| `InLowering.EvalOpAny` | dataflow-expression/src/eval.rs:271-291 | an error or TRUE from the first member that gives one of them, else FALSE |
| `InLowering.EvalOpAll` | dataflow-expression/src/eval.rs:292-312 | an error or FALSE from the first member that gives an error, FALSE or NULL, else TRUE |
| `InLowering.InMeans` | dataflow-expression/src/lower.rs:533-563 | `IN` is the first of the comparisons of the meaning of `x` with that of each element that is not FALSE, `NOT IN` the first that is not TRUE, after the first error of any comparison; if something cannot be lowered, the error of `x`, or else of the first such element |
| `InLowering.LowerPartsAre` | dataflow-expression/src/lower.rs:553-563 | a list is lowered element by element, in order; it fails with the first error |
| `InLowering.InOfValues` | dataflow-expression/src/lower.rs:533-563 | for values of the types compared, `x IN L` is NULL, TRUE or FALSE as the first element equal to `x` or NULL says |
| `InLowering.ColumnInConstants` | dataflow-expression/src/lower.rs:533-563 | so for a column and a list of constants: the value of that column in the record against those constants |
| `InLowering.NotInIsNotOfIn` | dataflow-expression/src/lower.rs:480-491 | `x NOT IN L` equals `NOT (x IN L)` on every record, NULL and errors included |
| `InLowering.NotInIsNotOfInIff` | dataflow-expression/src/lower.rs:564-576 | and exactly for non-empty lists: `x IN ()` is TRUE and `x NOT IN ()` is NULL |
| `InLowering.AnyMeans` | dataflow-expression/src/eval.rs:271-291 | `x op ANY (a)` by the meanings of `x` and `a`: the error of `x`, then of `a`; NULL if `a` is; an error if `a` is no array, after coercion to one where its type is unknown; else the loop over its members |
| `InLowering.AllMeans` | dataflow-expression/src/eval.rs:292-312 | likewise `x op ALL (a)` |
| `InLowering.InIsAny` | dataflow-expression/src/eval.rs:271-291 | on equal types with values of their type and without NULLs, `IN` and `= ANY` have the same value or error; where types are unknown, on texts |
| `InLowering.ChainIsAnyIff` | dataflow-expression/src/eval.rs:64-67 | with NULLs they agree exactly if `x` is not NULL and no NULL comes before the first match |
| `InLowering.UnknownIsAnyIff` | dataflow-expression/src/lower.rs:48-53 | where all types are unknown and there are no NULLs, they agree exactly if every element up to the first match is a text |
| `InLowering.NotInIsAll` | dataflow-expression/src/eval.rs:292-312 | likewise `NOT IN` and `<> ALL`, without NULLs |
| `InLowering.PlainContextOk` | readyset-data/src/lib.rs:476-560 | a coercion and a unification that meet the laws asked of them |

## Left out

- Points of the interval set are real numbers; orders that are not dense, where "no point between" does not mean "no gap", are not modelled.
- `IntervalTreeSet::intervals`, the borrowing and unsafe layer of the interval set.
- Range fills, range evictions and range lookups of the in-memory state (`PartialMap`): keys are points.
- Random eviction and range lookup for keys of five columns, which the source lacks.
- `row_count`, `key_count`, `mem_size` and `clear`.
- MemoryStates.MemoryState.EvictBytes: how many bytes one key frees is left to chance, as sizes of rows are not modelled; their sum is what is returned.
- Weak indices over several strict indices and across `mark_hole`.
- PersistentRange.LookupRange: leaves out the branch for a primary index, which an ordered index never is.
- PersistentStates.PersistentState.ProcessRecords: after a batch that is written and does not meet the condition of `BatchRightIff` it says what was written, and that the table is wrong, but not that a later batch can follow.
- Keys that cannot be encoded, whose size does not have 64 bits, and rows that are not of the types of their columns: batches and indices are stated for the others.
- Kinds of values other than NULL, 64-bit numbers and text of ASCII characters, and the case-insensitive collation, which is normalised before it is written.
- PersistentRange.LookupRange: says nothing of ordered indices with keys that are not read back, beyond which those are (`ReadsBackIff`). Column families of ordered indices are kept by their bytes, although RocksDB compares their entries in the same way when they are written.
- PersistentCollisions.SomeWrongIff: for fewer than 2^32 columns, so that the keys of the wrong lookups can be encoded.
- PersistentExample.OrderedReadsIff: for fewer than 2^32 columns, for the same reason.
- PersistentRuns.RunKeepsInv: restarts inside the construction of an index are left to `EventsKeepDamaged`.
- PersistentStates.PersistentState.ProcessRecords: the 64-bit sequence counter does not overflow within the batch.
- Rows in the primary column family are kept decoded; the row serializer is taken to be invertible.
- `lookup_multi`, which batches the point lookup over several keys, and failed writes to RocksDB.
- RocksDB options, compaction, log watching and its file formats; a crash keeps whole writes of the log and whole flushes.
- Replication.HandleSeesItsOffset: batches without an offset, and locks below the granularity of one lock acquisition, are not modelled.
- The pool of reusable packet buffers, I/O errors, and writers that accept zero bytes forever.
- `write_prepare_ok` and the other packets of the MySQL protocol, the handshake and authentication.
- InLowering.InMeans: arrays inside arrays, operators other than AND, OR, `=` and `<>`, and the other kinds of expressions; coercion and unification are parameters with the laws of `ContextOk`, which say nothing of coercion between different known types.
- InLowering.PlainContextOk: its coercion leaves out reading texts as numbers and writing numbers or arrays as texts.

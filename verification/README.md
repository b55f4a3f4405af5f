# A model of FeatureBase's data engine

This project models the core of FeatureBase, a distributed bitmap index written
in Go, and proves what its parts promise.  `dafny verify dfyconfig.toml` checks
all of it.

The model has six groups of modules.

- **ID allocation** (`IdRanges`, `IdCodec`, `IdAllocSpec`, `IdAllocRuns`,
  `IdAllocHistory`, `IdAllocator`).  Ranges of 64-bit IDs are reserved,
  committed and returned per key.  A bucket of the embedded store is a map from
  byte strings to byte strings, and an update is atomic.  A specification state
  (central list, reservations, retired IDs) says what every call does, and the
  run theorems are about it.  The class refines it down to the stored bytes,
  keeps the calls made as a history, and answers as the history says.
- **Bit-sliced integers** (`BsiData`, `BsiStorage`, `BsiImport`, `BsiRead`,
  `BsiRange`, `BsiExtremes`, `Pivot`, `BsiField`, `FieldRuns`, `BsiLowering`).
  A shard's storage is a set of positions.  What it means is a map from columns
  to integers.  Writing, bulk import, queries, extremes, the descending pivot,
  the field operations and the lowering of predicates are proved against that map.
- **Distributed execution** (`Reduction`, `MapReduce`, `Failover`,
  `MapperLocal`, `LocalAnswers`, `Truncation`, `GroupMerge`, `Reducers`,
  `GroupQuery`).  The failover protocol is a state machine over outstanding
  requests.  Merges under a limit are proved for any merge tree, and as reducers
  over any run of the protocol.
- **Group-by, container merge and TopK** (`Odometer`, `GroupBy`, `MinHeap`,
  `ContainerMerge`, `RowBuilders`, `TopK`, `TopKQuery`).  A container is a set of
  16-bit values, and its iterator a list with ascending keys.
- **Splitting imports by shard** (`ShardSplit`).  The in-place radix partition of
  parallel arrays.
- **LIKE** (`Like`, `LikeMeaning`).  Patterns are compiled to steps and run by a
  backtracking matcher; both are compared with the recursive meaning of `%` and
  `_`.

Shared vocabulary is in `Bits`, `Lexicographic` and `Options`.  The two copies
of the binary heap in the source make the same comparisons and swaps, so
`MinHeap` is written once over an arbitrary key.

Integers are unbounded.  Where the source's 64-bit arithmetic can wrap it is
written out: ID widths and counts, offsets, the bounds of predicate lowering,
merged counts and aggregates.  Elsewhere values stay in range.  The one
exception is harmless: negating the smallest 64-bit number wraps onto itself,
and writing and reading it touch the same 64 magnitude bits as in the model.

## Where the code does less than it says

- *Predicate lowering.*  The bounds `Base +/- (2^BitDepth - 1)` are computed in
  64 bits.  When they leave that range, the field's base value itself is judged
  out of range, and a query for it returns nothing.
  `BsiLowering.RightForAllQueriesIff` shows that this is exactly when lowering
  fails; `BsiLowering.WrappedAbove` and `BsiLowering.WrappedBelow` say what each
  query becomes then.  The comment at field.go:2408-2411 describes an edge case that the code
  below it already corrects; the model follows the code.
- *LIKE.*  A skip before a later literal counts bytes, not characters
  (like.go:156-164).  `LikeMeaning.RightForAllKeysIff` says for exactly which
  patterns this can be noticed.
- *Failover.*  The comment at executor.go:6443-6444 promises retries until all
  nodes are exhausted.  Retries are sent as last attempts, so the second refusal
  of the same shards leaves an error in the error group, which the deferred wait
  returns although every shard was answered.  `Failover.TwoRefusalsFail` is such
  a run, and `Failover.ReturnsIffNoShardRefusedTwice` says exactly when a call
  returns.
- *Local jobs.*  When the executor shuts down, or its context ends, while jobs
  are handed over, the shards answered so far are returned without an error
  (`MapperLocal.CompleteIffUndisturbed`).  The coordinator takes such an answer
  for a full one: `LocalAnswers.DisturbedAnswerReturns` is a query that returns a
  part, and `LocalAnswers.CompleteIffNoneDisturbed` says exactly when a returned
  result is complete.
- *Strict intervals.*  `a < x <= a` with `a` the largest or the smallest 64-bit
  number keeps that one number (`BsiLowering.StrictRightIff`).
- *Bulk clear.*  With clear set, the bulk importer still writes the sign row of a
  negative value, unlike the single write (`BsiImport.BulkClearLeavesSign`).  The
  two leave the same storage if and only if no column's last value is negative
  (`BsiImport.BulkClearIff`).  Nothing reads the sign of a column that does not
  exist, so the values read afterwards are the same in either case.

## Model

| member | source | states |
|---|---|---|
| `MinHeap.SiftUp` | executor.go:2654-2663 | pushing: the last entry rises until its parent is no larger; the prefix is a heap again, permuted, and nothing behind it moves |
| `MinHeap.SiftDown` | executor.go:2684-2701 | minHeapify: a root that may be too large sinks below its smaller children; the prefix is a heap again and permuted |
| `MinHeap.RootIsLeast` | executor.go:2640-2643 | in a heap no entry has a smaller key than the root |
| `IdRanges.ReserveIDs` | idalloc.go:476-525 | succeeds iff enough IDs are available, else reports exactly how many are missing; hands out exactly `count` IDs; whole ranges are consumed in non-decreasing width, none wider than one left over, and the range that is cut is the narrowest one left |
| `IdRanges.ReserveConserves` | idalloc.go:476-525 | the reserved and the unused part together hold every ID exactly as often as before |
| `IdRanges.Heapify` | idalloc.go:477-484 | inserting entry by entry turns the array into a heap over widths and permutes it |
| `IdRanges.PopRoot` | idalloc.go:504-518 | removing the root leaves a heap of exactly the other ranges |
| `IdRanges.MergeIDs` | idalloc.go:553-577 | fails iff an ID would occur twice; otherwise returns the sorted, disjoint, non-adjacent normal form of the union |
| `IdRanges.Coalesce` | idalloc.go:559-576 | the in-place coalescing pass over sorted ranges keeps every ID and leaves a normal form, or finds the overlap |
| `IdRanges.NormalFormUnique` | idalloc.go:553-577 | a set of IDs has only one normal form, so the merge result depends on the IDs alone |
| `IdRanges.TotalBelow2To64` | idalloc.go:172-180 | a duplicate-free list without ID 0 holds fewer than 2^64 IDs, so counting it cannot wrap |
| `IdRanges.DropShifts` | idalloc.go:158-168 | dropping n IDs moves every later ID n places forward and changes none |
| `IdCodec.DecodeRanges` | idalloc.go:380-394 | succeeds exactly on the images of lists of forward ranges and returns that list; otherwise a wrong length is reported first, then a backwards range |
| `IdCodec.EncodeRanges` | idalloc.go:396-407 | writes the image that decoding reads back |
| `IdCodec.RangesImageInjective` | idalloc.go:380-407 | different lists of ranges have different images |
| `IdCodec.DecodeReservation` | idalloc.go:415-438 | reads back exactly the written reservation; a missing entry is the empty reservation; otherwise too few bytes, a wrong length and a backwards range are reported in this order |
| `IdCodec.EncodeReservation` | idalloc.go:440-448 | session, offset and ranges are written so that decoding returns them |
| `IdCodec.ReservationImageInjective` | idalloc.go:410-448 | different reservations have different images |
| `IdCodec.EntryLayout` | idalloc.go:396-448 | every byte of a stored reservation: offset, session, then first and last ID of each range, lowest byte first |
| `IdCodec.NoSessionIsZero` | idalloc.go:128-130 | the session that is refused is the one of 32 zero bytes |
| `IdAllocator.IdAllocator.Reserve` | idalloc.go:127-236 | succeeds, or reports each error, exactly as the earlier calls for this client key and the number of free IDs say; the call joins the history of its index, whose run laws then hold; an error leaves the store as it was and no other index changes |
| `IdAllocator.IdAllocator.Commit` | idalloc.go:238-327 | succeeds, or reports each error, exactly as the earlier calls for this client key say; joins the history; an error leaves the store as it was and no other index changes |
| `IdAllocator.IdAllocator.Reset` | idalloc.go:329-346 | drops the index's bucket and joins the history as a reset; no other index changes |
| `IdAllocator.ReserveTx` | idalloc.go:133-234 | the update inside the transaction stores exactly the specified state, or reports exactly the specified error |
| `IdAllocator.CommitTx` | idalloc.go:244-325 | likewise for a commit, with and without offset control |
| `IdAllocator.DropFirst` | idalloc.go:158-168 | discarding IDs range by range equals dropping that many IDs from the flattened list |
| `IdAllocator.CountIDs` | idalloc.go:172-180 | counts the IDs of a list and detects a count of 2^64 or more |
| `IdAllocator.TakeFirst` | idalloc.go:188-206 | cutting the last range returns the first n IDs of the list |
| `IdAllocator.FillUp` | idalloc.go:182-217 | hands out the first `count` kept IDs, extending the reservation from the central list only if it is too short |
| `IdAllocator.EndReservation` | idalloc.go:294-310 | what is left of a reservation returns to the central list and its entry is deleted; this never fails |
| `IdAllocator.DoReserveIDs` | idalloc.go:450-474 | takes IDs from the stored list, or from all IDs when none is stored yet |
| `IdAllocator.DoReleaseIDs` | idalloc.go:527-551 | fails iff no list is stored or an ID would occur twice |
| `IdAllocSpec.EntriesDiffer` | idalloc.go:142-142 | different client keys have different entries, none of them the central list's |
| `IdAllocSpec.ReserveMovesOwner` | idalloc.go:127-236 | what a reservation does to the owner of every single ID |
| `IdAllocSpec.CommitMovesOwner` | idalloc.go:238-327 | what a commit does to the owner of every single ID |
| `IdAllocSpec.ReleaseIsSafe` | idalloc.go:294-301 | in every reachable state a release meets neither the overlap error nor a missing list |
| `IdAllocRuns.EveryIdHasOneOwner` | idalloc.go:127-327 | in every state of every run each ID in [1, 2^64-1] is in exactly one of the central list, one key's reservation and the retired set |
| `IdAllocRuns.HandedOutToOneKey` | idalloc.go:127-236 | what a call hands out is then reserved for its client key, and neither for another client key nor free |
| `IdAllocRuns.NeverCommittedTwice` | idalloc.go:238-327 | between resets no ID is committed twice, by whatever keys and sessions |
| `IdAllocRuns.RetiredNeverHandedOut` | idalloc.go:127-327 | between resets a retired ID is never handed out again |
| `IdAllocRuns.IdOfOffsetIsStable` | idalloc.go:141-230 | with offset control, over any run, the ID belonging to a message offset never changes while the offset is at or above the base |
| `IdAllocRuns.RepeatIsIdempotent` | idalloc.go:141-230 | repeating a reserve with the same offset and count succeeds, returns identical ranges totalling `count`, and leaves the central list unchanged |
| `IdAllocHistory.RunBooks` | idalloc.go:127-346 | in every run each client key's entry exists, and has its session, offset and number of IDs, exactly as the successful calls so far make it |
| `IdAllocHistory.ReserveOutcome` | idalloc.go:127-236 | a reservation succeeds, or reports each error, exactly as the calls before and the number of free IDs say |
| `IdAllocHistory.CommitOutcome` | idalloc.go:238-287 | a commit succeeds, or reports each of its five errors, exactly as the calls before say |
| `IdAllocHistory.CommitsBySameSession` | idalloc.go:261-264 | a commit succeeds only if the latest successful call for the key since the last reset was of the same session |
| `IdAllocHistory.CommitRefusedWhy` | idalloc.go:238-287 | what each commit error says about the calls before; a lock collision means that the latest call was of another session |
| `IdAllocHistory.HandsOutTheFirst` | idalloc.go:182-217 | over any run the client is given the first `count` IDs of what is then reserved for it, in order |
| `IdAllocHistory.CommitRetiresTheFirst` | idalloc.go:274-287 | over any run a commit retires exactly the first `count` IDs of the reservation |
| `IdAllocHistory.SharedOnlyAfterCommit` | idalloc.go:127-327 | the same ID goes to two client keys only if the first one committed in between, or the index was reset |
| `MapReduce.ShardsByNode` | executor.go:6416-6439 | fails iff some shard has no owner among the nodes that is started or of unknown state; otherwise every node gets each shard of which it is the first such owner exactly as often as requested, and no other |
| `MapReduce.AssignedIs` | executor.go:6426-6437 | the first such owner, said of the snapshot alone: earlier owners are not among the nodes, or neither started nor of unknown state |
| `MapReduce.LaunchCovers` | executor.go:6579-6662 | a mapper call sends every shard out exactly once, to nodes it may use |
| `MapReduce.RunAccounts` | executor.go:6449-6533 | in every run requested shards = reduced plus outstanding plus lost shards plus those missing from answers, `expected` counts outstanding and lost shards, and no shard is outstanding at a node that refused it |
| `MapReduce.RunKeepsInv` | executor.go:6449-6533 | besides, the accumulated value is always the reduction of the reduced shards |
| `MapReduce.CompleteIffNoPartialAnswer` | executor.go:6449-6533 | a call that returns has reduced each requested shard exactly once if and only if no answer covered only a part of its request |
| `MapReduce.SuccessIsComplete` | executor.go:6449-6533 | a returned value is the reduction of what was answered and, without partial answers, of each requested shard exactly once, whatever the order of answers and whichever nodes failed |
| `MapReduce.RunsEnd` | executor.go:6490-6530 | every run ends within one step per shard and node, plus one per shard and one |
| `Failover.RunLast` | executor.go:6479-6513 | in every run a request is a last attempt if and only if there is one replica only or its shards were refused before |
| `Failover.ReturnsIffRefusalsSurvivable` | executor.go:6490-6533 | once nothing is expected any more the call returns if and only if no result was too large and every refusal was the first of its request's shards, with more than one replica |
| `Failover.ReturnsIffNoShardRefusedTwice` | executor.go:6490-6533 | for distinct shards: if and only if no result was too large, nothing was refused with a single replica, and no shard was refused twice |
| `Failover.TwoRefusalsFail` | executor.go:6490-6533 | three owners, two refuse, the third answers: every shard is reduced and the call fails |
| `Failover.RunNodes` | executor.go:6503-6505 | in every run the nodes left are those of the start that never refused |
| `Failover.FailsIff` | executor.go:6490-6533 | a running call fails at a step iff a healthy node reports an error, the context ends, a refused shard has no owner left, or it finishes after an error that was not survivable |
| `MapperLocal.Run` | executor.go:6742-6812 | an error is reported iff the executor was down already or a job handed over failed; otherwise the result reduces the shards answered before the context ended |
| `MapperLocal.CompleteIffUndisturbed` | executor.go:6742-6812 | without an error every shard was reduced exactly once if and only if all jobs were handed over and the context outlived the answers |
| `MapperLocal.UndisturbedReducesAll` | executor.go:6742-6812 | an undisturbed local run reduces all its shards, in whatever order the workers answer |
| `MapperLocal.ShutdownLosesShards` | executor.go:6742-6812 | a shutdown between two jobs: no error and half the answer |
| `LocalAnswers.LocalAnswer` | executor.go:6764-6812 | what a local mapper returns without an error is an answer the coordinator accepts, partial exactly when the mapper was disturbed |
| `LocalAnswers.CompleteIffNoneDisturbed` | executor.go:6449-6812 | a query that returns has reduced each requested shard exactly once if and only if no local mapper that answered was disturbed |
| `LocalAnswers.DisturbedAnswerReturns` | executor.go:6449-6812 | one node, two shards, a shutdown after the first job: the query returns one shard's value and no error |
| `Reduction.ReducePermuted` | executor.go:6519-6523 | an associative and commutative reduction depends on the shards only, not on the order of the answers |
| `Reduction.ReduceMore` | executor.go:6519-6523 | each further value is the second argument of the reducer; the first one stands alone |
| `Reducers.ReturnedCarries` | executor.go:6449-6533 | any meaning that the reducer carries from two groups of shards to their sum holds of a returned value for all requested shards, without partial answers |
| `Reducers.RowsReturned` | executor.go:4031-4038 | a rows query over the cluster returns the first `limit` row ids of all requested shards, although its reducer truncates |
| `Reducers.GroupsReturned` | executor.go:3288-3302 | a group-by over the cluster returns the first groups of all requested shards, with counts and aggregates summed over all of them |
| `ShardSplit.SortToShards` | handler.go:326-347 | the arrays are permuted in place and every entry lies in the recorded slice of its column's shard; a shard without entries has no slice |
| `ShardSplit.SortToShardsInto` | handler.go:351-426 | splits a part of the request, in place, terminating, into slices that cover it |
| `ShardSplit.SlicesPartition` | handler.go:326-426 | the slice of a shard holds each entry of that shard exactly as often as the request did, and nothing else |
| `ShardSplit.SlicesDisjoint` | handler.go:326-426 | slices of different shards do not overlap |
| `ShardSplit.Settle` | handler.go:389-406 | every cyclic swap sends an entry to a free place within its own bucket |
| `ShardSplit.Bounds` | handler.go:359-375 | the counted bounds leave each bucket exactly the room it needs |
| `ShardSplit.DiffMask` | handler.go:330-336 | the bits in which neighbouring columns differ are all bits in which any columns differ |
| `ShardSplit.ShardIs` | handler.go:337-346 | the shard found by shifting is the column divided by the shard width |
| `BsiData.PosInjective` | fragment.go:2780-2782 | within a shard a position tells its row and column |
| `BsiRange.RangeOp` | fragment.go:937-950 | for every depth and predicate: exactly the existing columns whose signed value satisfies the comparison |
| `BsiRange.RangeBetween` | fragment.go:1213-1259 | exactly the existing columns with a value in the inclusive interval; only a non-negative lower end with a negative upper one differs, which then counts by its magnitude |
| `BsiRange.RangeEQ` | fragment.go:963-1003 | exactly the existing columns with that value, none when the predicate needs more bits than there are |
| `BsiRange.RangeLT` | fragment.go:1024-1067 | exactly the existing columns below (or at) a signed predicate |
| `BsiRange.RangeGT` | fragment.go:1115-1155 | exactly the existing columns above (or at) a signed predicate |
| `BsiRange.RangeLTUnsigned` | fragment.go:1070-1113 | exactly the filtered columns with a magnitude below (or at) the predicate, despite early loop exits |
| `BsiRange.RangeGTUnsigned` | fragment.go:1157-1205 | exactly the filtered columns with a magnitude above (or at) the predicate, with the predicate's high bits filled by ones |
| `BsiRange.RangeBetweenUnsigned` | fragment.go:1262-1303 | exactly the filtered columns with a magnitude in the interval, through the shared-prefix split |
| `BsiExtremes.Min` | fragment.go:754-780 | the least value of the columns that exist and are in the filter, if there is one, and how many attain it; (0, 0) iff there are none |
| `BsiExtremes.Max` | fragment.go:806-832 | the greatest value of these columns and how many attain it; (0, 0) iff there are none |
| `BsiExtremes.MinUnsigned` | fragment.go:783-802 | the least magnitude in the filter and its exact count |
| `BsiExtremes.MaxUnsigned` | fragment.go:835-853 | the greatest magnitude in the filter and its exact count |
| `Pivot.PivotDescending` | bsi.go:18-62 | emits exactly take(limit, drop(offset, L)) with L ordered by value descending then column ascending, and leaves limit and offset correctly decremented |
| `Pivot.ListingOk` | bsi.go:18-62 | the recursive listing L is every filtered column once, by value descending then column ascending |
| `Pivot.ListingUnique` | bsi.go:18-62 | that order determines the listing |
| `Pivot.WindowConcat` | bsi.go:54-61 | offset and limit of a concatenation are those of its parts, one after the other |
| `Pivot.WindowIs` | bsi.go:36-53 | what is emitted starts at the offset and ends after the limit, or at the end |
| `Pivot.VisitsOnce` | bsi.go:54-61 | no value is visited twice, and none without columns |
| `BsiStorage.SetValueBase` | fragment.go:660-720 | refuses a column of another shard and changes nothing; otherwise writes the column's value bits, exists and sign rows and no other position, and reports a change iff storage changed |
| `BsiStorage.WriteLayout` | fragment.go:660-720 | the exact positions: row 0 exists, row 1 is negative, row 2 + i is bit i of the magnitude, 2^20 positions a row; all others stay |
| `BsiRead.Value` | fragment.go:579-607 | refuses a column of another shard; otherwise reads the signed value, or absence, that the stored rows mean |
| `BsiRead.WrittenReadsBack` | fragment.go:579-720 | a value below 2^depth reads back exactly, with no minus zero |
| `BsiRead.OthersUnchanged` | fragment.go:660-720 | a write changes no other column's value at any depth |
| `BsiRead.ClearedReadsNone` | fragment.go:688-713 | a cleared column has no value |
| `BsiRead.DeeperReadsSame` | fragment.go:590-596 | reading at a larger depth gives the same value when nothing is stored above the smaller one |
| `BsiRead.InOrderReads` | fragment.go:1947-2033 | after writing pairs in order each column holds the last value paired with it |
| `BsiRead.LastOfIs` | fragment.go:1981-1987 | the last value of a column is that of the pair behind which the column does not occur |
| `BsiImport.ImportValue` | fragment.go:1947-2033 | bulk import leaves what writing the pairs one after the other leaves, except that the sign is written even when clearing; it is exactly the single writer's storage if and only if it sets or no column's last value is negative; a length mismatch is refused |
| `BsiImport.WriteOneByOne` | fragment.go:660-720 | what the single writer leaves after all pairs |
| `BsiImport.SortedIsAdjacent` | api.go:1916-1926 | the sorted pairs of one shard, as a request supplies them, have equal columns next to each other |
| `BsiImport.BulkClearIff` | fragment.go:1982-1997 | clearing in bulk leaves the storage of clearing one at a time if and only if no column's last value is negative |
| `BsiImport.BulkClearLeavesSign` | fragment.go:1982-1997 | clearing minus one in bulk sets its sign bit, clearing it singly does not |
| `BsiImport.FillBatch` | fragment.go:1974-2021 | a batch stages exactly the last values that no later batch has, each once |
| `BsiImport.StageBit` | fragment.go:1990-2016 | the set region and the clear region of a row's buffer never collide |
| `BsiImport.ImportRows` | fragment.go:2023-2028 | adding and removing the staged positions row by row writes the staged columns and touches nothing else |
| `BsiStorage.InOrderIsLast` | fragment.go:1947-2033 | writing pairs in order equals writing only the last value of each column |
| `FieldRuns.Run` | field.go:1473-1565 | over any run of sets, clears, imports and depth updates the depth never shrinks and every column holds exactly what was last written, or nothing if cleared since; an import counts iff its lengths agree, its values are in range and its first column is of the shard |
| `FieldRuns.Field.SetValue` | field.go:1495-1544 | too low and too high are refused; otherwise the column holds the value, all others what they held, at the larger of the old and the needed depth |
| `FieldRuns.Field.ClearValue` | field.go:1547-1565 | the column holds nothing, the others what they held; reports a change iff it held something |
| `FieldRuns.Field.ImportValue` | field.go:1976-2077 | errors in the source's order; the depth rises to exactly what the values need, even when the shard is wrong; otherwise each column holds its last imported value, or nothing when clearing, and the caller's values are base-relative |
| `FieldRuns.ImportErrorIs` | field.go:1976-2046 | exactly when an import succeeds or reports each error: the first value out of range decides between too high and too low |
| `FieldRuns.DepthUnique` | field.go:2025-2038 | the values and the old depth determine the new depth |
| `FieldRuns.Field.Value` | field.go:1473-1492 | returns what the field holds for the column |
| `FieldRuns.Field.CacheBitDepth` | field.go:759-775 | raises both depth records to the larger depth and changes no value |
| `FieldRuns.Field.Extremes` | field.go:1994-2012 | no error iff all values are in range, else the first one out of range decides; then least and greatest value |
| `FieldRuns.DepthBetween` | field.go:2025-2029 | the depths of least and greatest value suffice for everything between |
| `BsiField.BaseSide` | field.go:2384-2391 | values in range lie on one side of the base and their difference to it fits 64 bits |
| `BsiField.BaseIsNearestZero` | field.go:2384-2391 | the base is the value in range nearest to zero |
| `BsiField.Deeper` | field.go:1516-1528 | raising the depth of a valid field moves no value |
| `BsiField.OneWrite` | fragment.go:660-720 | one write of a valid field's storage keeps it valid and changes one column |
| `BsiField.ManyWrites` | field.go:2055-2076 | a bulk write of a valid field's storage keeps it valid and gives every listed column its last value |
| `BsiLowering.RightForAllQueriesIff` | field.go:2412-2482 | lowering keeps the meaning of all six comparisons and BETWEEN on all storable values if and only if base +/- (2^depth - 1) stays within 64 bits |
| `BsiLowering.WantsIs` | executor.go:5284-5353 | what each of the six comparisons and BETWEEN asks of a value |
| `BsiLowering.ExecuteRowShard` | executor.go:5284-5353 | a query on one shard returns what the lowered query selects and, where lowering is right, exactly the columns whose field value it wants |
| `BsiLowering.SingleRight` | field.go:2412-2446 | base shift, clamping, edge adjustments and not-null short cuts keep the meaning of a single comparison |
| `BsiLowering.BetweenRight` | field.go:2449-2463 | clamping and the whole-range short cut keep the meaning of BETWEEN |
| `BsiLowering.FitsDepth` | field.go:2475-2482 | where the reach fits, the 64-bit bounds are the true bounds |
| `BsiLowering.BaseIsOut` | field.go:2475-2482 | where it does not fit, the wrapped bounds exclude the base itself |
| `BsiLowering.WrappedAbove` | field.go:2412-2482 | what becomes of every query where the upper bound wraps: nothing at or above the base is found, and bounds from above let everything pass |
| `BsiLowering.WrappedBelow` | field.go:2412-2482 | the same where the lower bound wraps |
| `BsiLowering.LargeRangeMissesItsBase` | field.go:2438-2443 | a field from 5 to the largest number, at the depth 63 that its range needs, does not find the value 5 |
| `BsiLowering.StrictRightIff` | executor.go:8956-8974 | a strict interval turned into an inclusive one keeps its meaning unless both ends are the largest or both the smallest number |
| `BsiLowering.InsideIs` | executor.go:8956-8974 | which ends belong to each of the four intervals |
| `GroupBy.ShardGroups` | executor.go:3945-3964 | the first groups up to the limit, in strict lexicographic order of row ids, each once, exactly those with common columns, with exact counts; whatever is missing comes later |
| `GroupBy.GroupByIterator.Next` | executor.go:8880-8934 | finds the first tuple from the current one on with common columns, its ids and exact count, and moves behind it past nothing that counts |
| `GroupBy.GroupByIterator.NextAtIdx` | executor.go:8842-8876 | moves on to a later tuple, keeping the cached intersections, and skips only tuples without common columns; ends only when none is left |
| `GroupBy.GroupByIterator.constructor` | executor.go:8651-8838 | starts at the first rows with the running intersections, or is done iff a field has no rows |
| `GroupBy.GroupByIterator.IterNext` | fragment.go:2759-2777 | the row iterator's step, its wrap-around and its end |
| `GroupBy.GroupByIterator.Count` | executor.go:8889-8894 | two cached rows give the size of the whole intersection |
| `Odometer.RankIsLexOrder` | executor.go:8842-8876 | the tuple number by which progress is measured orders tuples lexicographically |
| `Odometer.Carry` | executor.go:8855-8860 | when a level wraps and the levels before it move on, no tuple with common columns lies between |
| `Odometer.IdsOrder` | executor.go:8923-8928 | tuples are ordered as their row ids are |
| `Lexicographic.LexIs` | executor.go:3764-3785 | lists of one length compare by the first place where they differ |
| `Odometer.MeetIs` | executor.go:8651-8838 | a tuple's common columns are those in every one of its rows and in the filter, if there is one |
| `ContainerMerge.MergeAll` | executor.go:2570-2627 | every key of the inputs once, in strictly ascending order, with the union of all containers that have it |
| `ContainerMerge.Mergerator.Next` | executor.go:2609-2627 | yields the least key with the union of its containers and advances exactly the iterators at it, keeping the heap |
| `ContainerMerge.Mergerator.Collect` | executor.go:2616-2624 | popped nodes in the array's tail are read before pushed nodes can overwrite them |
| `ContainerMerge.Mergerator.Pusherate` | executor.go:2594-2607 | an iterator's next node joins the heap, or the iterator is exhausted |
| `ContainerMerge.Pop` | executor.go:2667-2681 | leaves a heap of the larger keys and, behind it, exactly the nodes with the least key |
| `ContainerMerge.Push` | executor.go:2654-2663 | adds one node to the heap and leaves the array behind it alone |
| `ContainerMerge.StepYields` | executor.go:2609-2627 | one step yields all bits of its key and leaves exactly the other keys |
| `RowBuilders.RowBuilder.Add` | bsi.go:212-240 | adds the value and nothing else, through key changes and the switch from array to mask; the count stays the number of values |
| `RowBuilders.RowBuilder.FlushKey` | bsi.go:188-208 | moves the current key's values into the bitmap without loss, with the right stored count |
| `RowBuilders.RowBuilder.Build` | bsi.go:244-255 | the bitmap holds exactly the added values, every stored count is its container's size, and the builder is empty |
| `RowBuilders.MaskOf` | bsi.go:231-234 | the bit mask holds exactly the array's values |
| `TopK.BsiBuilder.Insert` | bsi.go:263-272 | adds the column to exactly the rows of its value's set bits |
| `TopK.BsiBuilder.Build` | bsi.go:276-284 | one row per bit, with exactly the inserted columns |
| `TopK.DecodeIs` | bsi.go:263-284 | rows that hold the bits of a number decode to it |
| `TopK.DoTopK` | executor.go:2705-2746 | the data decodes at each row to the number of selected bits in that row's containers |
| `TopK.TotalIsSize` | executor.go:2729-2738 | that number is the size of the set of selected bits |
| `TopK.TopKFragments` | executor.go:2535-2567 | over several fragments: the number of the row's columns that any fragment has and the filter selects |
| `TopK.FillFilter` | executor.go:2752-2775 | the filter passes exactly the bits of the row it was filled from |
| `TopKQuery.TopKShard` | executor.go:2357-2412 | a TopK query on one shard lists the rows with a count by count descending, then by id, up to the limit and without the rows an offset skips (the source passes none); a row's count is the number of columns c with position row * 2^20 + c in some fragment and c in the filter |
| `TopKQuery.ContainersFit` | executor.go:2720-2721 | sixteen containers of 2^16 positions are one row of a shard, and key and bit of a position give its row and column |
| `TopKQuery.RankingUnique` | executor.go:2392-2400 | that order determines the list |
| `TopKQuery.SameNumbers` | executor.go:2392-2400 | the built rows, read as sets of columns, mean the same number at every column |
| `Truncation.Merge` | executor.go:3049-3075 | the first `limit` ids of the union of two sorted lists |
| `Truncation.MergeTree` | executor.go:4031-4038 | if each shard supplies its first `limit` ids, any merge tree gives the first `limit` of all of them |
| `Truncation.TruncatedUnion` | executor.go:3049-3075 | merging lists that were cut off at the limit gives the first items of the uncut union |
| `Truncation.FirstUnique` | executor.go:3049-3075 | the first items of a set are determined |
| `GroupMerge.MergeGroupCounts` | executor.go:3728-3761 | the first groups of two lists in order, each with the 64-bit sums of both lists' counts and aggregates |
| `GroupMerge.MergeGroupTree` | executor.go:3296-3302 | if each shard supplies its first `limit` groups, any merge tree gives the first `limit` groups with the full cross-shard totals |
| `GroupMerge.MergedSupplies` | executor.go:3728-3761 | early truncation loses no contribution to a kept group |
| `GroupMerge.OrderIndependent` | executor.go:3728-3761 | the same shards give the same groups, counts and aggregates in whatever order and grouping they are merged |
| `GroupMerge.TotalIsSum` | executor.go:3728-3761 | a group's totals over any merge tree are the sums over its shards |
| `GroupMerge.Compare` | executor.go:3764-3785 | the first field that differs decides, by value where both groups have one and else by row id |
| `GroupQuery.ShardGroupCounts` | executor.go:3918-3985 | a shard's iterator supplies the merge with the shard's first groups and their full counts |
| `GroupQuery.QueryTree` | executor.go:3288-3302 | whatever the merge order, the first groups of all shards together in the order of their row ids, each with the number of columns that all shards have in every one of its rows and in the filter |
| `LikeMeaning.RightForAllKeysIff` | like.go:65-223 | the matcher is right for every key if and only if the pattern has no run of placeholders with a `%` and two or more `_` before a literal that another placeholder follows |
| `LikeMeaning.CountsBytesIff` | like.go:65-119 | exactly those patterns compile to a plan with a skip of two or more bytes before its end |
| `LikeMeaning.MatchPattern` | like.go:65-223 | planning and matching is right for every key of single-byte characters, and for every key under that condition |
| `LikeMeaning.PlanMeansPattern` | like.go:65-119 | with skipped text counted in characters, the plan, its merged tokens and its suffix step accept exactly the pattern's matches |
| `LikeMeaning.MeaningsAgree` | like.go:141-193 | counting bytes and counting characters agree on single-byte keys and on plans without such runs |
| `LikeMeaning.AsciiIsNarrow` | like.go:141-193 | keys of ASCII characters are of single-byte characters |
| `LikeMeaning.ShortKeyAccepted` | like.go:141-193 | the matcher accepts a key that makes up skipped characters by wide ones |
| `LikeMeaning.WideRuneFoolsTwoUnderscores` | like.go:141-193 | `__%b%` accepts one four-byte character and a b |
| `Like.TokenizeLike` | like.go:13-39 | splits a pattern into maximal runs of placeholders and of other characters |
| `Like.PlanLike` | like.go:65-119 | computes the plan, with the last skip turned into a suffix comparison |
| `Like.MatchLike` | like.go:122-223 | terminates and accepts exactly the meaning of the steps, with skips counted in bytes |
| `Like.SkipAhead` | like.go:144-168 | finds the first place of the literal behind enough skipped bytes, or that there is none |
| `Like.WidthIsLeast` | like.go:150-164 | a character counts as many bytes as section 3 of RFC 3629 gives it |

## Left out

- The bitmap library and the storage engines are abstracted to sets of positions, sets of 16-bit values and atomic updates; container formats and their sorting are not modelled.
- HTTP, clients, tracing, metrics, key translation and cluster membership are not modelled; node states and owners of shards are parameters.
- BsiImport.ImportValue: asks that pairs of the same column are neighbours, as they are in the sorted pairs its callers supply; otherwise a batch can set and clear the same bit. An empty list panics in the source and is excluded.
- BsiLowering.ExecuteRowShard: the comparisons with null are not modelled, and a missing fragment is an empty one.
- BsiRange.RangeOp: asks for a depth of at most 64 and for storage without minus zero, which every write of the model preserves.
- FieldRuns.Field.ImportValue: asks that all columns are of one shard, since only the first is compared with it, and that equal columns are neighbours. Timestamp fields, which keep values relative to an epoch, are not modelled; fields are integer or decimal fields.
- FieldRuns.Run: roaring imports that overwrite the depth are not among the operations; missing views are fields without values.
- GroupBy.GroupByIterator.constructor: the `previous` argument, time ranges and integer fields as group fields are not modelled, so the first step never wraps.
- GroupBy.GroupByIterator.Next: aggregates other than the count are not modelled.
- GroupMerge.MergeGroupCounts: decimal aggregates are not modelled; sorting, offsets and conditions on groups come later in the source and are not modelled.
- GroupMerge.Compare: asks for as many fields in the second group as in the first; the source would panic.
- MapReduce.SuccessIsComplete: a reduction that itself returns an error, and cancellation by the caller, end a run without a result and are not distinguished further. The order of answers matters to a reducer that does not commute.
- MapperLocal.Run: the worker pool is an arbitrary order of answers; memory accounting and reductions that return an error are not modelled.
- Like.MatchLike: keys are sequences of characters with their encoded widths; byte strings that are not valid UTF-8 are not modelled.
- RowBuilders.RowBuilder.Add: values ascend within a key, as the source asks of its callers; the mask is a list of words that is replaced, not an array that is shared.
- TopK.FillFilter: asks for the containers of one shard; the source panics on a second container of the same place.
- GroupQuery.QueryTree: groups by set fields with plain counts; aggregates enter at the merge only.
- TopKQuery.TopKShard: one shard; the addition of the counts of several shards is not modelled.
- TopK.DoTopK: the periodic context check is not modelled.
- Pivot.PivotDescending: the callback is the list of calls made to it; a column's value is below 2^64 because there are at most 64 rows.
- Percentiles, sums over filters, sorted rows, mutex imports and the addition of bit-sliced data rest on library code or on comparisons without a clean contract.
- Caches, directory and node comparers, and request parsing would only add easy members.

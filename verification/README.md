# Verified model of the parallel preprocessor's core

The parallel preprocessor runs geometric operations on pairs of items of an assembly from several
threads, records how items collide, suppresses items until no serious collision is left, and derives
identifiers of shapes from half-precision numbers. This project models that core in Dafny and proves
what the design relies on. `dafny verify dfyconfig.toml` checks everything.

## What is modelled

**The conflict-free pair scheduler.** `Pairs`, `Scheduling` and the classes in `ParallelAccessor` and
`AsynchronousDispatcher` are the lock table, the remaining set and the queue. The iteration order of
the hash sets is arbitrary: the scan picks any pair it has not seen. `Execution` says what it means to
run pairs in interleaved sub-steps, each an arbitrary update of the state of the pair's two items, and
`AsyncProtocol` is the transition system: calls of `next` (atomic because of the mutex), sub-steps, and
workers that leave for good on an empty batch. `SyncProtocol` is the barrier mode on the same execution
layer. `ThreadPoolExecutor` runs the dispatcher object under an arbitrary scheduler and the accessor object
in barrier rounds, and ties every turn and every round to steps of the two transition systems; it also holds
the block partition.

**The collision detector.** The geometry kernel is a pure function of the pair: what each attempt of the
general fuse gives, and the distance. `CollisionDetection` is the first phase (the retry loop, the
clearance, the mirrored entries), `PairRecording` says from the boxes, the attempts and the distance when a
pair records which relation, `BoundBox` is the box test, what it decides and when it is a sound filter,
`CouplingMatrix` the matrix builder. `ScheduleIndependence` shows that every schedule records the rows of a
naive serial loop over all pairs, up to order. `CollisionResolution` is the second phase, `ItemTurn` what one
item's turn does and what becomes of a group of coinciding items, `ResolutionProperties` and
`DetectionResult` what the phase guarantees and that its outcome does not depend on the schedule,
`SharedRelation` when both ends of a relation go.

**Half-precision arithmetic.** `HalfFormat` defines codes, exact magnitudes in units of the smallest
subnormal, and rounding to nearest, ties to even, where the code of infinity stands for 2^16. Exact
values are real numbers, scaled by powers of two through `Shift`. `HalfRounding` shows that a guard bit
and one sticky bit are enough, also when the mantissa itself is a sticky approximation. On top of it
`HalfAdd`, `HalfFma`, `HalfSqrt`, `HalfMod` and `HalfConvert` follow the integer algorithms and are proved
against IEEE 754-2008 (sections 3.4, 4.3.1, 5.3.1, 5.4.1 and 5.4.2) and ISO C11, section 7.12.10.1.
`HalfWiden` is the exact way back to double precision, `UniqueId` the quantiser and the packing of four items
into an identifier.

**Matrix Market text.** `MatrixMarketText` models the C library's printing and scanning, `MatrixMarket` the
banner and the size line, `MatrixMarketSize` when reading sizes never ends, and `MatrixMarketFile` the writer
and the reader of a boolean `SparseMatrix`, in the coordinate format of NISTIR 5935.

## Where the code differs from what one would expect

- The rule for an item with a single relation does not look at the partner of an interference, a
  coincidence or an error, so both ends of a shared relation may go. `SharedRelations.BothSuppressedIff`
  says exactly when, and `SharedRelations.InterferingPairVanishes` is an input.
- The box filter is sound only if the clamped tolerance does not exceed the clamped clearance threshold
  (`BoundBoxes.FilterSoundIff` says when, for all boxes).
- The size line and banner writers compare the number of characters `fprintf` wrote with the number of
  items, so they always report failure; their caller ignores the result
  (`MatrixMarket.WritersAlwaysReportFailure`).
- The size reader scans again after a line with fewer than three numbers, and never returns when a
  character that no number can start with stops it. `MatrixMarketSizes.SizeEndlessIff` says exactly when,
  from the text, and `MatrixMarketSizes.LetterBlocks` is an input.
- The Matrix Market reader keeps the numbers of the last entry when a scan fails, so a text with fewer lines
  than announced repeats its last entry (`MatrixMarketFiles.MissingLinesRepeat`).
- Rounding a 16-bit code to a multiple of eight wraps to zero from 0xFFFC up. Only codes of
  not-a-numbers lie there.
- A row number equal to the row count passes the guard of `insertAt`; the model requires it not to
  happen, and the file reader reports it as undefined.

## Model

| member | source | states |
|---|---|---|
| `ParallelAccessors.ParallelAccessor.SetCouplingMatrix` | src/PPP/ParallelAccessor.h:124-136 | the remaining set gains exactly the index pairs of the matrix entries; locks and queue are untouched |
| `ParallelAccessors.ParallelAccessor.IsPairLocked` | src/PPP/ParallelAccessor.h:209-217 | true exactly if one of the two items is locked |
| `ParallelAccessors.ParallelAccessor.Unlock` | src/PPP/ParallelAccessor.h:226-234 | the items of the returned pairs are free again and the pairs are retired from the remaining set, nothing else changes |
| `ParallelAccessors.ParallelAccessor.Scan` | src/PPP/ParallelAccessor.h:163-179 | for every iteration order: a conflict-free selection of unlocked remaining pairs of at most the limit, its items locked, and nothing selectable left unless the limit was reached |
| `ParallelAccessors.ParallelAccessor.Next` | src/PPP/ParallelAccessor.h:158-180 | unlocks the previous batch, then locks and returns a batch that is full or exhausts what is selectable |
| `ParallelAccessors.ParallelAccessor.UnlockAll` | src/PPP/ParallelAccessor.h:236-242 | no lock is left and exactly the pairs of the previous round are retired |
| `ParallelAccessors.ParallelAccessor.NextAll` | src/PPP/ParallelAccessor.h:187-206 | a round hands out at most one batch per worker, none empty and all but the last full, pairwise item-disjoint; together they hold as many pairs as all workers can take, unless every remaining pair shares an item with the round; locks are exactly the round's items |
| `AsynchronousDispatchers.AsynchronousDispatcher.Produce` | src/PPP/AsynchronousDispatcher.h:86-103 | appends to the queue a conflict-free selection of unlocked remaining pairs and locks it; a bound that is at least the item count makes that a full refill, with nothing selectable left, and a smaller one may cut it short |
| `AsynchronousDispatchers.AsynchronousDispatcher.Prepare` | src/PPP/AsynchronousDispatcher.h:37-41 | the same with the product bound, which is never reached before everything selectable is queued |
| `AsynchronousDispatchers.AsynchronousDispatcher.Consume` | src/PPP/AsynchronousDispatcher.h:72-84 | removes and returns the first entries of the queue, as many as asked for or all |
| `AsynchronousDispatchers.AsynchronousDispatcher.Next` | src/PPP/AsynchronousDispatcher.h:45-69 | one call is exactly one step of the abstract call relation: unlock and retire, refill an empty queue maximally, pop a batch |
| `Scheduling.BoundIsEnough` | src/PPP/AsynchronousDispatcher.h:58-61 | a selection as long as the bound has locked every item, so the bound never cuts a scan short |
| `Scheduling.NextKeepsInFlight` | src/PPP/AsynchronousDispatcher.h:45-69 | every call keeps: queued and held pairs are distinct remaining pairs sharing no item, and their items are exactly the locked items |
| `Scheduling.HandedOut` | src/PPP/AsynchronousDispatcher.h:45-69 | a call hands out the front of the queue, a full batch unless that empties the queue; after a refill no remaining pair has both items free |
| `Scheduling.EmptyHandedOnlyIfBlocked` | src/PPP/AsynchronousDispatcher.h:58-62 | a worker gets an empty batch only if every remaining pair shares an item with a pair another worker holds |
| `Scheduling.NextEnabled` | src/PPP/AsynchronousDispatcher.h:45-69 | from every state the call can return |
| `Execution.BeginKeeps` | src/PPP/ThreadPoolExecutor.h:249-252 | starting a pair on items no running pair touches keeps the simulation by the serial run |
| `Execution.MicroKeeps` | src/Geom/CollisionDetector.cpp:325-331 | an arbitrary update of the two items' state keeps the simulation: items in progress look as if their pair ran alone after the completed ones |
| `Execution.EndKeeps` | src/PPP/ThreadPoolExecutor.h:249-258 | completing a pair appends it to the serial order and keeps the simulation |
| `Execution.Serializable` | src/PPP/ThreadPoolExecutor.h:238-264 | when no pair is in progress the items are as the atomic run of the completed pairs, in completion order, leaves them |
| `AsyncProtocol.CallKeeps` | src/PPP/AsynchronousDispatcher.h:45-69 | a call of next by any worker keeps the whole invariant |
| `AsyncProtocol.SubStepKeeps` | src/PPP/ThreadPoolExecutor.h:249-257 | a sub-step of processing a pair keeps the whole invariant |
| `AsyncProtocol.FinishKeeps` | src/PPP/ThreadPoolExecutor.h:249-258 | finishing a pair keeps the whole invariant |
| `AsyncProtocol.RunKeeps` | src/PPP/ThreadPoolExecutor.h:238-264 | the invariant holds in every state of every run |
| `AsyncProtocol.ConcurrentPairsApart` | src/PPP/ParallelAccessor.h:209-223 | in every reachable state two pairs being processed share no item |
| `AsyncProtocol.LocksAreInFlight` | src/PPP/ParallelAccessor.h:209-234 | in every reachable state the locked items are exactly the items queued or held |
| `AsyncProtocol.ExecutedAtMostOnce` | src/PPP/ThreadPoolExecutor.h:245-259 | no run executes a pair twice or a pair that is not in the matrix |
| `AsyncProtocol.CallsBounded` | src/PPP/ThreadPoolExecutor.h:245-259 | a run calls next at most once per pair plus once per worker |
| `AsyncProtocol.NoLostWork` | src/PPP/ThreadPoolExecutor.h:245-262 | once all workers have left, nothing remains, is queued or locked, every pair was executed exactly once, and the items equal the serial run in completion order |
| `AsyncProtocol.Progress` | src/PPP/ThreadPoolExecutor.h:238-264 | unless all workers have left, a step is possible: the protocol cannot deadlock |
| `SyncProtocol.RoundBatchesApart` | src/PPP/ParallelAccessor.h:187-206 | the batches of one round share no item across workers |
| `SyncProtocol.RoundKeepsCount` | src/PPP/ParallelAccessor.h:236-242 | every round strictly shrinks the remaining set |
| `SyncProtocol.SyncRunKeeps` | src/PPP/ThreadPoolExecutor.h:211-236 | the invariant of the barrier mode holds in every state of every run |
| `SyncProtocol.RoundsBounded` | src/PPP/ThreadPoolExecutor.h:215-235 | the barrier mode starts at most one round per pair and a last, empty one |
| `SyncProtocol.SyncComplete` | src/PPP/ThreadPoolExecutor.h:211-236 | when the loop stops, every pair was executed exactly once and the items equal the serial run in completion order |
| `SyncProtocol.SyncProgress` | src/PPP/ThreadPoolExecutor.h:211-236 | unless the loop has stopped, a worker can take a step or the next round can start |
| `SyncProtocol.ModesAgree` | src/PPP/ThreadPoolExecutor.h:211-264 | both modes execute the same pairs, each the same number of times |
| `ThreadPoolExecutors.RunParallelOnCoupledData` | src/PPP/ThreadPoolExecutor.h:211-236 | the rounds are conflict-free and non-empty, and together are a permutation of the remaining pairs; nothing remains or is locked; the loop follows a run of the barrier system, round by round, to its stop |
| `ThreadPoolExecutors.TakeTurn` | src/PPP/ThreadPoolExecutor.h:245-259 | one turn of a worker on the dispatcher object is one step of the transition system |
| `ThreadPoolExecutors.RunAsynchronouslyOnCoupledData` | src/PPP/ThreadPoolExecutor.h:238-264 | under an arbitrary scheduler the dispatcher object and the workers process a permutation of the pairs and leave nothing behind |
| `ThreadPoolExecutors.RunParallelInBlock` | src/PPP/ThreadPoolExecutor.h:134-172 | at most one block per worker; blocks are non-empty, increasing, disjoint and cover exactly the indices below the item count; no block is longer than an equal share rounded up, and only the last may be shorter than another |
| `CouplingMatrices.CouplingMatrixBuilder.ProcessItemPair` | src/PPP/CouplingMatrixBuilder.h:103-109 | the row gains the column exactly if the pair is coupled; other rows are unchanged |
| `CouplingMatrices.CouplingMatrixBuilder.ProcessItem` | src/PPP/CouplingMatrixBuilder.h:77-85 | the row becomes its coupled columns to the right of the diagonal |
| `CouplingMatrices.CouplingMatrixBuilder.Process` | src/PPP/CouplingMatrixBuilder.h:87-94 | every row is its coupled columns to the right of the diagonal |
| `CouplingMatrices.MatrixPairsAreCoupled` | src/PPP/CouplingMatrixBuilder.h:77-109 | the matrix holds a pair exactly if it lies above the diagonal and is coupled |
| `BoundBoxes.OverlappedIffNear` | src/Geom/OccUtils.cpp:419-441 | for non-empty boxes and a gap that is not negative after clamping: true exactly if some points of the two boxes differ by at most the gap in each of the three coordinates |
| `BoundBoxes.OverlappedIffMeet` | src/Geom/OccUtils.cpp:419-441 | for every gap and all boxes: true exactly if the intervals meet, widened by the clamped gap, on all three axes |
| `BoundBoxes.ClampGapMeaning` | src/Geom/OccUtils.cpp:423-431 | the clamping changes exactly the gaps strictly between zero and the smallest tolerance, which become that tolerance with their sign |
| `BoundBoxes.OverlapMonotone` | src/Geom/OccUtils.cpp:419-441 | boxes that overlap with a gap overlap with every larger clamped gap |
| `BoundBoxes.FilterSoundIff` | src/Geom/OccUtils.cpp:423-440 | overlap for one gap implies overlap for another, for all boxes, exactly if the clamped gaps are ordered |
| `CollisionDetection.CollisionRecorder.CalcClearance` | src/Geom/CollisionDetector.cpp:383-422 | pushes mirrored entries into rows i and j exactly for a distance in (0, threshold] and then returns a clearance; returns no collision exactly for a larger distance, an error otherwise |
| `CollisionDetection.CollisionRecorder.DetectCollision` | src/Geom/CollisionDetector.cpp:210-364 | the retry loop records exactly the finding of the pair: the clearance, or a verdict from face contact up, in both rows |
| `CollisionDetection.CollisionRecorder.ProcessItemPair` | src/Geom/CollisionDetector.h:109-124 | the two rows gain exactly the pair's finding, all other rows are unchanged |
| `CollisionDetection.CollisionRecorder.ProcessItem` | src/Geom/GeometryProcessor.h:189-198 | the serial row loop records the findings of the coupled pairs of that row, in order |
| `PairRecording.PairRecordsIff` | src/Geom/CollisionDetector.cpp:210-364 | from the boxes, the two attempts and the distance alone: the exact condition, for each relation type and value, under which a pair adds exactly that mirrored entry to the two rows |
| `PairRecording.NothingRecordedIff` | src/Geom/CollisionDetector.cpp:210-422 | a pair leaves the rows as they are exactly if none of these conditions holds |
| `CollisionDetection.OrderedGapsAreSound` | src/Geom/CollisionDetector.h:103-124 | if the clamped tolerance does not exceed the clamped clearance threshold, the pair test is sound |
| `CollisionDetection.UncoupledRecordsNothing` | src/Geom/CollisionDetector.h:103-124 | with a sound test an uncoupled pair would have recorded nothing |
| `CollisionDetection.RowRecordsAll` | src/Geom/GeometryProcessor.h:189-198 | with a sound test the filtered row loop records what the unfiltered one would |
| `CollisionDetection.RecordedTypes` | src/Geom/CollisionDetector.cpp:347-410 | only clearances with their distance, face contacts and relations from interference up are recorded, never a weak interference or a vertex or edge contact |
| `ScheduleIndependence.AloneRecords` | src/Geom/CollisionDetector.cpp:350-353 | the two pushes of a pair run as sub-steps record what the atomic recording does |
| `ScheduleIndependence.RowsSymmetric` | src/Geom/CollisionDetector.cpp:350-353 | after any set of processed pairs, row x has (y, type, value) exactly if row y has (x, type, value) |
| `ScheduleIndependence.OneRelationPerPair` | src/Geom/CollisionDetector.cpp:347-355 | a row holds at most one relation to each other item |
| `ScheduleIndependence.MatrixGivesDetectorJob` | src/PPP/ThreadPoolExecutor.h:111-129 | the matrix built from the detector's own pair test yields the coupled pairs above the diagonal |
| `ScheduleIndependence.AnyOrderRecordsTheSame` | src/Geom/GeometryProcessor.h:189-198 | any order of the coupled pairs, each once, gives every row of the naive unfiltered loop up to order |
| `ScheduleIndependence.DetectorScheduleIndependent` | src/PPP/ThreadPoolExecutor.h:238-264 | for every worker count, batch size and interleaving, each row is the naive loop's row up to order |
| `ScheduleIndependence.SyncDetectorScheduleIndependent` | src/PPP/ThreadPoolExecutor.h:211-236 | the same for the barrier mode |
| `CollisionResolution.Resolver.CountTypeOf` | src/Geom/CollisionDetector.cpp:614-621 | the number of entries of the type in the row |
| `CollisionResolution.Resolver.HasAtLeast` | src/Geom/CollisionDetector.cpp:625-632 | true exactly if some entry of the row has a type of at least the given one |
| `CollisionResolution.Resolver.ResolveCollisionError` | src/Geom/CollisionDetector.cpp:765-790 | the item is suppressed exactly if it outweighs all its partners in the type and was not suppressed |
| `CollisionResolution.Resolver.ProcessCollisionInfo` | src/Geom/CollisionDetector.cpp:655-762 | one item's turn, as the specification function whose cases `ItemTurns` states from the relations alone |
| `ItemTurns.SeveralTurn` | src/Geom/CollisionDetector.cpp:716-762 | a free item with two or more relations is suppressed in its turn exactly if it coincides with an item of higher index, or its interferences (or its errors) outnumber, at every partner, the partner's relations of the type they share; with which code, and nothing else changes |
| `ItemTurns.FewTurn` | src/Geom/CollisionDetector.cpp:669-714 | a free item with no relation or one: who is suppressed with which code, type by type |
| `ItemTurns.SuppressedTurn` | src/Geom/CollisionDetector.cpp:655-668 | the turn of an item that was suppressed before changes nothing |
| `ItemTurns.HighestOfGroupSurvives` | src/Geom/CollisionDetector.cpp:655-835 | of three or more items that all coincide and have no other relation exactly the one of highest index is kept, whatever the options; the others carry the coincidence code |
| `CollisionResolution.Resolver.CheckCollisionResolution` | src/Geom/CollisionDetector.cpp:794-851 | gives exactly the ends of relations with two unsuppressed ends the unknown-error code (interference, coincidence, enclosure and error if erroneous items are to be suppressed, unknown unless ignored); true exactly if there was none, and then nothing changes; afterwards there is none |
| `CollisionResolution.Resolver.PrepareOutput` | src/Geom/CollisionDetector.h:88-101 | all items in index order, then the check; afterwards every such relation has a suppressed end, and it returns true exactly if that held before the check |
| `ResolutionProperties.CountPermuted` | src/Geom/CollisionDetector.cpp:614-621 | counts are blind to the order of a row |
| `ResolutionProperties.RowOrderBlind` | src/Geom/CollisionDetector.cpp:655-835 | permuting the entries within rows changes neither the suppressed shapes nor their codes nor the verdict |
| `ResolutionProperties.SuppressionIsFinal` | src/Geom/GeometryProcessor.h:88-92 | no suppression is undone and no code of a suppressed shape is overwritten |
| `CollisionResolution.SettledIffAllResolved` | src/Geom/CollisionDetector.cpp:805-826 | every relation of the types that must be resolved has a suppressed end exactly if the check finds nothing unresolved |
| `ResolutionProperties.SeriousRelationsResolved` | src/Geom/CollisionDetector.cpp:794-851 | after the phase every relation from interference up to error (unknown too unless ignored) has a suppressed end; if that held before the check, it changes nothing; otherwise it forces exactly the ends of the relations that stand |
| `ResolutionProperties.WeakNeverForced` | src/Geom/CollisionDetector.cpp:805-835 | an item joined by weaker relations only is never forced by the check |
| `ResolutionProperties.NeverBothOutweigh` | src/Geom/CollisionDetector.cpp:765-790 | two items joined by a relation of a type are never both suppressed by the count rule for that type |
| `SharedRelations.BothSuppressedIff` | src/Geom/CollisionDetector.cpp:655-835 | of two items related only to each other, both are suppressed exactly for an interference, a coincidence, an error or an unknown relation that is not ignored; exactly one is for an enclosure |
| `SharedRelations.SuppressedIff` | src/Geom/CollisionDetector.cpp:655-835 | each of the two is suppressed exactly in those cases, or as the inner item of an enclosure: the one of smaller volume, of equal volumes the one of higher index |
| `SharedRelations.InterferingPairVanishes` | src/Geom/CollisionDetector.cpp:707-724 | an input at which no end of a shared relation survives: two items that interfere with each other |
| `ResolutionProperties.SuppressionIsJustified` | src/Geom/CollisionDetector.cpp:655-835 | every newly suppressed shape has a relation from interference up, or is floating while floating shapes are to be suppressed |
| `DetectionResult.SuppressionScheduleIndependent` | src/Geom/CollisionDetector.h:88-101 | for every worker count, batch size and interleaving the suppressed shapes and codes are those after the naive loop |
| `DetectionResult.SyncSuppressionScheduleIndependent` | src/Geom/CollisionDetector.h:88-101 | the same for the barrier mode |
| `HalfFormat.MagMonotone` | third-party/half.hpp:821-839 | larger codes are larger magnitudes, across the exponent boundaries and up to infinity, so a carry out of the significand is right |
| `HalfFormat.NearestMonotone` | third-party/half.hpp:821-839 | rounding to nearest, ties to even, is monotone |
| `HalfFormat.NearestUnique` | third-party/half.hpp:821-839 | a magnitude has only one correctly rounded code |
| `HalfRounding.RoundedIsNearest` | third-party/half.hpp:821-839 | adding the guard bit if sticky or odd gives the nearest code, ties to even, when guard and sticky describe the discarded part |
| `HalfRounding.RoundedCodeIsNearest` | third-party/half.hpp:885-898 | the same for a mantissa that only approximates the exact one, its lost bits collapsed into one sticky unit |
| `HalfRounding.StickyShrApproximates` | third-party/half.hpp:2573 | the alignment shift with the lost bits or-ed into the lowest stays within that approximation |
| `HalfRounding.LargeOverflows` | third-party/half.hpp:785-795 | magnitudes from 2^16 up round to infinity |
| `HalfRounding.SmallUnderflows` | third-party/half.hpp:801-809 | magnitudes up to half the smallest subnormal round to zero |
| `HalfUnpacking.Normalize` | third-party/half.hpp:2828-2832 | a positive finite code as an eleven-bit significand and an exponent of the same value, subnormals included |
| `HalfAdd.AlignedOperand` | third-party/half.hpp:2569-2576 | the aligned smaller operand is exact or approximated by one sticky unit, and then the larger one is normal and far larger |
| `HalfAdd.Subtract` | third-party/half.hpp:2577-2582 | subtract, normalise and round: the nearest code to the exact difference of magnitudes, zero if they are equal |
| `HalfAdd.Sum` | third-party/half.hpp:2583-2591 | add, carry and round: the nearest code to the exact sum of magnitudes, infinity on overflow |
| `HalfAdd.Add` | third-party/half.hpp:2552-2593 | the sum of any two codes is the correctly rounded exact sum, with the signs, zeros, infinities and not-a-numbers the standard prescribes |
| `HalfAdd.SumCommutes` | third-party/half.hpp:2552-2593 | the sum does not depend on the order of the operands, signs of zeros and infinities included |
| `HalfFma.Multiply` | third-party/half.hpp:2828-2833 | the product of two codes as an exact normalised 24-bit mantissa and exponent |
| `HalfFma.Combine` | third-party/half.hpp:2847-2862 | aligned sum or difference of two 24-bit mantissas, within the sticky approximation of the exact one, zero exactly if it vanishes |
| `HalfFma.Fixed2Half` | third-party/half.hpp:885-898 | fixed point to half: the nearest code, with further bits cut for subnormal results |
| `HalfFma.Fma` | third-party/half.hpp:2809-2870 | x * y + z rounded once: the correctly rounded code of the exact result for all codes, with the special cases the standard prescribes |
| `HalfFma.FmaByOneIsSum` | third-party/half.hpp:2809-2870 | with y equal to one the fused operation and the addition agree on all codes |
| `HalfMod.Divide` | third-party/half.hpp:1420-1439 | shift and subtract gives the remainder of the aligned significands and the last quotient bit, also when it stops early |
| `HalfMod.Denormalize` | third-party/half.hpp:1446-1447 | the final normalisation and shift lose no bit, even for a subnormal remainder |
| `HalfMod.Reduce` | third-party/half.hpp:1413-1448 | the remainder of a larger by a smaller code is the exact remainder of the magnitudes |
| `HalfMod.DoubledComparison` | third-party/half.hpp:1451-1462 | comparing the adjusted codes compares twice the remainder with the divisor |
| `HalfMod.Complement` | third-party/half.hpp:1464-1467 | the remainder minus the divisor is encoded exactly |
| `HalfMod.Mod` | third-party/half.hpp:1410-1474 | the positive remainder or, in the signed variant, the nearest one with the even quotient on ties |
| `HalfMod.Fmod` | third-party/half.hpp:2743-2756 | exact remainder with the sign of the dividend; special operands as ISO C prescribes |
| `HalfMod.Remainder` | third-party/half.hpp:2764-2775 | exact IEEE remainder, a zero with the sign of the dividend; special operands as the standard prescribes |
| `HalfMod.NearestRemainderIsRemainder` | third-party/half.hpp:1449-1470 | the computed choice is at most half the divisor away with an even quotient on ties |
| `HalfMod.RemainderUnique` | third-party/half.hpp:2758-2775 | no other quotient and remainder meet that definition |
| `HalfMod.RemainderMeaning` | third-party/half.hpp:2764-2775 | the result differs from the dividend by an integer multiple of the divisor and is at most half of it |
| `HalfMod.FmodMeaning` | third-party/half.hpp:2743-2756 | the result differs from the dividend by an integer multiple of the divisor, is smaller than it and has the dividend's sign |
| `HalfSqrt.RootStep` | third-party/half.hpp:1487-1495 | one digit: either branch keeps the radicand as square of the root found plus remainder |
| `HalfSqrt.IntegerSqrt` | third-party/half.hpp:1481-1498 | for every even width the loop ends with m*m + r equal to the radicand (doubled for an odd exponent), r at most 2m, and the exponent halved |
| `HalfSqrt.Sqrt` | third-party/half.hpp:3218-3230 | the code of the square root is correctly rounded using only r > m and r != 0; special operands as the standard prescribes |
| `HalfSqrt.SqrtIsNearest` | third-party/half.hpp:3218-3230 | the result is nearest to every real number whose square is the operand |
| `HalfConvert.FloatToHalfIsNearest` | third-party/half.hpp:908-937 | every finite single-precision pattern becomes the nearest half, ties to even; infinities and not-a-numbers keep their kind, all keep their sign |
| `HalfConvert.DoubleToHalfIsNearest` | third-party/half.hpp:996-1022 | the same for every double-precision pattern, both words of it |
| `HalfConvert.FloatToHalfMonotone` | third-party/half.hpp:908-937 | conversion of non-negative patterns is monotone |
| `HalfConvert.DoubleToHalfMonotone` | third-party/half.hpp:996-1022 | the same for double-precision patterns, ordered by both words |
| `HalfConvert.FormatsAgree` | third-party/half.hpp:996-1022 | a single and a double of ordered values convert to ordered halves, of equal values to the same half |
| `UniqueIds.RoundIsNearestMultiple` | src/PPP/UniqueId.h:72-79 | the result is a nearest multiple of eight exactly for values below 0xFFFC; above it wraps to zero |
| `UniqueIds.NearestFloatMonotone` | src/PPP/UniqueId.h:96 | the cast to single precision is monotone |
| `UniqueIds.QuantiserMonotone` | src/PPP/UniqueId.h:89-101 | larger non-negative numbers get no smaller items |
| `UniqueIds.QuantiserRounds` | src/PPP/UniqueId.h:89-101 | every item is a nearest multiple of eight to the half code |
| `UniqueIds.QuantiserMeaning` | src/PPP/UniqueId.h:89-101 | from a magnitude of one tenth up, the item is a nearest multiple of eight to the half code nearest to the single-precision cast of the number itself, with its sign |
| `UniqueIds.QuantiserZero` | src/PPP/UniqueId.h:92-93 | numbers of a magnitude below one tenth get item zero |
| `UniqueIds.XorDisjoint` | src/PPP/UniqueId.h:164 | or-ing an item exclusively into free bits adds it |
| `UniqueIds.UniqueId` | src/PPP/UniqueId.h:156-167 | the identifier is the number with the four items as 16-bit digits |
| `HalfWiden.HalfToDouble` | third-party/half.hpp:1260-1278 | every half code becomes the double of the same sign and exact value, infinities and not-a-numbers included, and converting that back gives the code |
| `UniqueIds.UniqueIdToGeometry` | src/PPP/UniqueId.h:169-183 | reading an identifier gives four doubles with the exact values of the items it was packed from |
| `UniqueIds.PackedFour` | src/PPP/UniqueId.h:156-167 | the first item is in the lowest sixteen bits, each further one sixteen bits higher |
| `UniqueIds.IdentifiersCoincide` | src/PPP/UniqueId.h:156-167 | two identifiers are equal exactly if all four items are |
| `SparseMatrices.SparseMatrix.Resize` | src/PPP/SparseMatrix.h:43-50 | appends that many empty rows |
| `SparseMatrices.SparseMatrix.ElementSize` | src/PPP/SparseMatrix.h:58-66 | the total number of entries |
| `SparseMatrices.SparseMatrix.InsertAt` | src/PPP/SparseMatrix.h:106-113 | appends the entry to its row, or reports a row beyond the end |
| `MatrixMarketText.ScanPrinted` | src/PPP/SparseMatrix.h:206-236 | scanning a printed integer gives it back, after any blank and before any end |
| `MatrixMarketText.ScanFlag` | src/PPP/SparseMatrix.h:206-207 | scanning a printed flag as a number gives the flag back |
| `MatrixMarketText.ScanFraction` | src/PPP/SparseMatrix.h:206-207 | a number with a fraction is read as true exactly if one of its digits is not zero |
| `MatrixMarket.AnyCase` | third-party/mm_io.cpp:103-184 | a banner line with capital letters and the code it is accepted with, literally |
| `MatrixMarket.BannerAcceptedIff` | third-party/mm_io.cpp:103-184 | a banner is accepted with a type code exactly if its first line starts with the banner and names, in any case, the words of that code; nothing else is accepted |
| `MatrixMarket.BannerRoundTrip` | third-party/mm_io.cpp:594-684 | reading a written banner gives its type code, for every named code |
| `MatrixMarketSizes.SizeEndlessIff` | third-party/mm_io.cpp:456-480 | the size reader never returns exactly if the first line that is no comment has fewer than three numbers and, in the text behind it, a character that is neither digit, sign nor white space comes before any three numbers with no lone sign between them |
| `MatrixMarketSizes.LetterBlocks` | third-party/mm_io.cpp:470-479 | an input on which it never returns: a letter where the sizes should be |
| `MatrixMarket.CommentSkipped` | third-party/mm_io.cpp:456-468 | a comment line in front of the sizes makes no difference |
| `MatrixMarket.SizeRoundTrip` | third-party/mm_io.cpp:419-482 | reading a written size line gives the three sizes |
| `MatrixMarket.WritersAlwaysReportFailure` | third-party/mm_io.cpp:675-684 | the header writers return a failure code for every line although they wrote it |
| `MatrixMarketFiles.WriteMatrixMarketFile` | src/PPP/SparseMatrix.h:216-239 | the text is banner, size line and one 1-based line per entry, row by row |
| `MatrixMarketFiles.SmallText` | src/PPP/SparseMatrix.h:216-239 | the literal text of a matrix of two rows with one entry |
| `MatrixMarketFiles.ReadMatrixMarketFile` | src/PPP/SparseMatrix.h:179-214 | the matrix, or how reading fails, for every text |
| `MatrixMarketFiles.LineRead` | src/PPP/SparseMatrix.h:204-208 | what one entry line does, by its row number: below one or too high it throws, one past the last row is undefined, else the entry is appended to that row, a column number below one wrapped around |
| `MatrixMarketFiles.MissingLinesRepeat` | src/PPP/SparseMatrix.h:203-208 | if the text ends before all announced entries were read, the last one is inserted again for each missing line |
| `MatrixMarketFiles.WrittenIsRead` | src/PPP/SparseMatrix.h:179-239 | reading what was written gives the same rows and entries in order, each column passed through the int it was printed as |
| `MatrixMarketFiles.FileRoundTrip` | src/PPP/SparseMatrix.h:179-239 | with counts that an int can hold, the matrix is read back unchanged exactly if all its column numbers fit an int |

## Left out

- OpenCASCADE calls (general fuse, volumes, distances, bounding boxes, shape files): replaced by pure functions of the pair, and for imprinting by arbitrary updates of the two items' state.
- Exceptions thrown inside `processItemPair` by a task: tasks are assumed to run and finish. An exception of the distance computation in the error repair is modelled: the pair then records nothing.
- The thread pool itself: a task is started at once or later, which the interleaving covers; the mutex makes `next` atomic.
- Memory that two rows of a container share: rows of different items are independent state, as they are different vectors.
- Fixed-width overflow of the bound `itemCount * batchSize * workerCount`: sizes are unbounded numbers.
- Index dimension 1 of the accessor: pairs only, as the detector uses it. Self pairs are allowed by the protocol and excluded by the matrix builder.
- Class inheritance of the dispatcher from the accessor: the dispatcher holds its accessor as a constant field.
- The adjacency matrix the detector fills beside the collision rows, dumps, logs, progress reports and JSON.
- Rows keep the collision record only: the column stored with it is always its second index.
- Shape IDs that collide while imprinting: the protocol keeps item state per index. In the second phase errors are keyed by shape ID as in the code, so equal IDs are covered there.
- The absence of the error map: it is taken to be present, as the detector's set-up makes it.
- `remquo` and the full quotient of `mod`, integer rounding, multiplication and division of halves, the transcendental functions, rounding modes other than to nearest, error flags, and which not-a-number results (only that the result is one).
- `Fixed2Half` in its signed and normalising variants: the fused operation uses neither.
- `nearbyIds` and `uniqueIdEqual`: the code does not compute the neighbourhood it is meant to.
- The conversion of a double to single precision before the conversion to half is the compiler's: it is taken to round to nearest, ties to even. The power and the length scale of `geometryUniqueId` are not modelled.
- Numbers in Matrix Market text that are hexadecimal, infinite or not-a-number, and an exponent that underflows to zero; numbers beyond an int are reported as undefined. Words longer than the reader's buffers.
- Matrix Market matrices that are dense or complex, and `removeAt`, `random` and `toJson` of the sparse matrix: not part of this model.
- File system errors when opening Matrix Market files.

# Verified model of the monitorism monitors

Monitorism (the OP Stack's chain monitors, written in Go) watches withdrawals, dispute games and the
conservation of ETH. This project models its most intricate parts in Dafny and proves what they are
for. Replies of nodes, contracts and callbacks are inputs: a function or a sequence of outcomes,
unrestricted unless a statement says otherwise. An empty sequence of outcomes is a context that has
ended. Code that updates objects in place is a class or a method here, proved against a function
whose own properties are then proved; code made of expressions stays a function.

## Parts

**Withdrawal verdicts** (`withdrawals-v2`). `CallTrace` walks a call trace for successful prove
calls, `GameLookup` recovers the historical game from the same subtree, `Pairing` and
`ProofRecovery` show that the selected call is the one that emitted the event and that its own game
is recovered, and `Assessment` when its proof is valid, in terms of hashes, trie and claims alone.
`PendingEvents` is the pending set in place; `VerdictProtocol` is the processor and the retry loop
as a state machine over their atomic actions, for every interleaving, and `ProtocolRefinement` shows
that the pending set follows it. `Alarms` composes all of this into what the counters say about the
withdrawals themselves. `Replay` and `RestartRecovery` compose the replay cursor, the header search,
the block loop and the pending set into the recovery argument. `Hex` holds the encodings.

**Block processor** (`processor`). `BlockPlan` says what is owed to each block and what an orderly
history of calls is; `BlockProcessor` is the processor with its cursor and counters as big-integer
objects (`BigInts`); `Backoff` is the adaptive delay, `Sorting` the stable sort of filtered logs.

**Fault-proof withdrawals** (`faultproof_withdrawals`). `TimeSearch` is the search for a starting
block, `LruCaches` and `Counters` the state's containers and exported counters, `Ledger` the books
as a function of what was booked, `Enrichment` the validation of one event, `EventPass` what the
events of one pass see when they share games, `Consumption` what a pass does to maps, caches and
books, `WithdrawalMonitor` the state in place, `EventFetch` the event map and the game cache, and
`WithdrawalRuns` whole runs, their progress and the blocks they cover.

**ETH conservation** (`conservation_monitor`): `Conservation`. **Signatures** (`global_events`):
`EventSignature`, whose canonical form is that of section "Function Selector" of the Solidity
Contract ABI Specification, except that type aliases such as `uint` are kept and not widened. The
game tuple of `GameLookup` follows section "Formal Specification of the Encoding" of the same
document. The fee vault addresses are those of the OP Stack predeploys.

## Where the code and its documentation differ

The model follows the code.

- `op-monitorism/withdrawals-v2/monitor.go:1018` equates trace order with emission order. The walk is
  pre-order while an event is emitted inside its call: the two agree exactly when no emitting call
  stands inside another one (`Pairing.PairingOrderExact`, an instance in `Pairing.NestedCallsSwap`).
  `Records` further assumes that each successful prove call whose arguments decode emits one event,
  and no other frame does.
- `op-monitorism/processor/processor.go:187` takes a cursor of 0 for "no start block", so a replay
  whose cursor is 0 begins after the latest block instead (`RestartRecovery.ReplayCoveredExactly`,
  `RestartRecovery.CursorZeroHappens`). A cursor of -1 is fine.
- For the same reason the start block that `op-monitorism/withdrawals-v2/monitor.go:339-347` calls
  inclusive is not scanned first when it is 1, nor when it lies beyond 2^63
  (`BlockProcessor.StartIsInclusiveExactly`, `BlockProcessor.StartOneSkips`).
- The delay of `op-monitorism/processor/processor.go:331-370` can leave its configured bounds when
  step + min does not fit a 64-bit duration (`Backoff.BoundedExactly`).
- The time search (`op-monitorism/faultproof_withdrawals/monitor.go:209-256`) moves its left end to
  the midpoint and need not end, even with an exact hit in range (`TimeSearch.EndsExactly`,
  `TimeSearch.ExactHitMayBeMissed`).
- Events are keyed by transaction, so of several proven withdrawals in one transaction only the last
  is looked at (`EventFetch.LastOfEachExactly`, an instance in `EventFetch.SecondHidesFirst`).
- A withdrawal that is first judged while the L2 node lags behind its game's block counts as not
  trusted for good (`op-monitorism/faultproof_withdrawals/validator/proven_withdrawal_validator.go:141-170`):
  if genuine, it is still booked as an attack once its game resolves (`Enrichment.LaggingNodeCondemns`).
- The next range starts with the block the last one ended with
  (`op-monitorism/faultproof_withdrawals/monitor.go:380`), so the events of that block are booked again
  (`WithdrawalRuns.BoundaryBookedTwice`), and the count of attacks may exceed their list
  (`Ledger.AttackCountExactly`).
- The fetch loop never asks the iterator for its error: a log that does not unpack ends it silently,
  and the height still advances (`EventFetch.MissedExactly`).
- `batchGetBalance` ignores errors of single elements, which then count as balance zero: the verdict
  is reliable exactly if no deciding element failed (`Conservation.GlobalExactlyIfAnswered`).
- The white space of the regular expression in `formatSignature` is narrower than that of the fields
  it splits, and a tuple type is cut at its first closing bracket: `EventSignature.CanonicalExactly`
  gives the exact condition, `EventSignature.NoBreakSpaceFails` a failing input. A name is cut at a
  character that is not of a word, such as `$` (`EventSignature.NameIsCut`).

## Model

| member | source | states |
|---|---|---|
| CallTrace.LivePathsExact | op-monitorism/withdrawals-v2/monitor.go:537-568 | the walk visits exactly the frames with the wanted header that have no error at or above them, each once and in pre-order |
| CallTrace.AscendingUnique | op-monitorism/withdrawals-v2/monitor.go:537-568 | a list of frames in pre-order is determined by its members, so "sound, complete and in order" leaves only one possible result |
| CallTrace.SameEffectSamePaths | op-monitorism/withdrawals-v2/monitor.go:537-568 | two traces that differ only below errored frames have the same live frames |
| CallTrace.SameEffectAt | op-monitorism/withdrawals-v2/monitor.go:537-568 | and those frames carry the same data in both traces |
| CallTrace.CollectProveCalls | op-monitorism/withdrawals-v2/monitor.go:555-568 | the recursive walk appends to the caller's list exactly the specified prove calls of the subtree, behind what the list held before |
| CallTrace.ProveCallExactly | op-monitorism/withdrawals-v2/monitor.go:555-565 | collected are exactly the plain calls to the portal's address, in any letter case, whose calldata is the prove selector followed by argument bytes |
| CallTrace.CollectedOrNot | op-monitorism/withdrawals-v2/monitor.go:547-565 | on concrete frames: such a call is collected, the same frame as a delegate call or of any other kind is not, nor is calldata shorter than the selector |
| GameLookup.GameIsFromFirstLookup | op-monitorism/withdrawals-v2/monitor.go:711-765 | the recovered game is decoded from the first successful gameAtIndex frame for this index, in pre-order, below the prove frame, and no other lookup frame encloses it; without one there is an error |
| GameLookup.LookupExactly | op-monitorism/withdrawals-v2/monitor.go:737-742 | a frame looks an index up exactly if its calldata is the selector followed by the 32-byte word of that index, and nothing else |
| GameLookup.AnswerExactly | op-monitorism/withdrawals-v2/monitor.go:743-757 | an answer is taken for a game exactly if it begins with a type word of 32 bits, any word, and a proxy word, and neither proxy nor the frame's target is zero |
| GameLookup.GameExactly | op-monitorism/withdrawals-v2/monitor.go:711-765 | a game is recovered from a prove call exactly if it is the answer of the first live frame below it, in pre-order, that looks the index up |
| GameLookup.RevertedFramesDoNotChangeGame | op-monitorism/withdrawals-v2/monitor.go:737-765 | changing anything below reverted frames does not change the recovered game |
| GameLookup.LookupRoundTrip | op-monitorism/withdrawals-v2/monitor.go:737-765 | from the ABI encoding of any 32-bit type, timestamp and nonzero proxy, answered by a nonzero factory, exactly that factory, type and proxy come back; a lookup of another index is skipped |
| Hex.FromHexToHex | op-monitorism/withdrawals-v2/monitor.go:555-565 | hex decoding inverts hex encoding, for calldata and outputs of every length |
| Hex.DecodingIgnoresCase | op-monitorism/withdrawals-v2/monitor.go:555-565 | decoding depends neither on the letter case of the digits nor on that of the prefix |
| Hex.PrefixAndZeroAreOptional | op-monitorism/withdrawals-v2/monitor.go:555-565 | the prefix may be missing, and so may a leading zero digit, without changing the bytes |
| Hex.BigEndianWord | op-monitorism/withdrawals-v2/monitor.go:737-765 | reading a big-endian word returns the number it was written from, up to its width |
| Hex.WordBigEndian | op-monitorism/withdrawals-v2/monitor.go:741-747 | and every byte string is the word of the number it spells |
| Hex.AddressOfWord | op-monitorism/withdrawals-v2/monitor.go:737-765 | the address read from a left-padded word is the address written |
| Pairing.EmissionOrderIsCallOrder | op-monitorism/withdrawals-v2/monitor.go:1015-1024 | if no emitting frame stands inside another one, the events enter the receipt in the order the walk meets the calls, whenever in its execution each frame emits |
| Pairing.PairingOrderExact | op-monitorism/withdrawals-v2/monitor.go:1015-1024 | emission order equals call order at every timing if and only if no emitting frame stands inside another one |
| Pairing.SameOrderMeansNoNesting | op-monitorism/withdrawals-v2/monitor.go:1015-1024 | for frames that emit after their subcalls, equal orders already exclude nesting |
| Pairing.NestedCallsSwap | op-monitorism/withdrawals-v2/monitor.go:1015-1024 | an instance: of a prove call inside another one that emits last, the walk meets the outer one first while the receipt has the inner one's event first |
| Pairing.EmittedRestricts | op-monitorism/withdrawals-v2/monitor.go:1024-1096 | of all emissions, those for one withdrawal hash come in the order they have alone |
| Pairing.LivePathsRestrict | op-monitorism/withdrawals-v2/monitor.go:1024-1096 | of all live prove frames, those for one withdrawal hash come in the order they have alone |
| ProofRecovery.TraceProveCalls | op-monitorism/withdrawals-v2/monitor.go:800-812 | a trace gives a nonempty list of calls that point into it, or an error that names the missing call |
| ProofRecovery.EventOrdinal | op-monitorism/withdrawals-v2/monitor.go:1102-1120 | the loop finds the event's position among the portal's logs for the same hash in the receipt, or reports that it is not there |
| ProofRecovery.OrdinalExactly | op-monitorism/withdrawals-v2/monitor.go:1102-1120 | the ordinal of an event is the number of the portal's prove logs for its hash before it in the receipt; without a log of its index there is none |
| ProofRecovery.ProveEventsExactly | op-monitorism/withdrawals-v2/monitor.go:1102-1120 | the prove events of a receipt are exactly the portal's logs of that topic, for whatever hash |
| ProofRecovery.CandidatesFor | op-monitorism/withdrawals-v2/monitor.go:1048-1066 | the loop keeps, in trace order, exactly the calls whose arguments decode and commit to the hash |
| ProofRecovery.RecoverProof | op-monitorism/withdrawals-v2/monitor.go:1024-1096 | retried tracing, candidate collection and selection compute the specified recovery, with the error reason each branch gives |
| ProofRecovery.UsableExactly | op-monitorism/withdrawals-v2/monitor.go:800-812 | an answer to the trace request is usable exactly if some frame that took effect calls the portal with the prove selector |
| ProofRecovery.FirstUsableExactly | op-monitorism/withdrawals-v2/monitor.go:1027-1034 | the first usable answer is used, and without any the last one's error |
| ProofRecovery.TraceReasonExactly | op-monitorism/withdrawals-v2/monitor.go:1035-1042 | tracing failed as unavailable exactly if no answer was usable and the last one was an error whose text does not contain the prove method's name |
| ProofRecovery.SelectedIsCandidate | op-monitorism/withdrawals-v2/monitor.go:1044-1080 | whatever is selected is a traced call whose arguments commit to the event's hash |
| ProofRecovery.ReceiptNotNeeded | op-monitorism/withdrawals-v2/monitor.go:1068-1086 | where only one call of the transaction proves the hash, the recovery does not depend on the receipt |
| ProofRecovery.PairingIsExact | op-monitorism/withdrawals-v2/monitor.go:1015-1096 | the call selected for the k-th prove log is the call that emitted it, through the single-candidate shortcut or the ordinal, if calls proving this hash do not nest |
| ProofRecovery.EmitsExactly | op-monitorism/withdrawals-v2/monitor.go:1048-1066 | a frame counts for a hash exactly if it is a plain call of the portal with the prove selector whose argument bytes decode to a withdrawal of that hash, and its proof is what those bytes decode to |
| ProofRecovery.RecoveredExactly | op-monitorism/withdrawals-v2/monitor.go:1015-1096 | for each prove log exactly this is recovered: the arguments of the very call that emitted it, and the game which that call looked up for the index in its own arguments; without a usable lookup the reason is a game read error |
| ProofRecovery.EncodedGameIsRecovered | op-monitorism/withdrawals-v2/monitor.go:1087-1095 | if that call's first lookup of its own index was answered in the ABI encoding, exactly that factory, type and proxy are recovered |
| ProofRecovery.RevertedFramesDoNotChangeRecovery | op-monitorism/withdrawals-v2/monitor.go:1024-1096 | changing anything below reverted frames changes neither the selected proof nor its game |
| Assessment.ProofDB | op-monitorism/withdrawals-v2/monitor.go:638-671 | every submitted node, and nothing else, is stored under its own hash |
| Assessment.ProofDBExactly | op-monitorism/withdrawals-v2/monitor.go:655-663 | exactly one map holds the nodes under their hashes, with the last one of equal hashes, and the check uses it |
| Assessment.VerifiedExactly | op-monitorism/withdrawals-v2/monitor.go:638-671 | the check passes exactly if the four words hash to the claim and the submitted nodes show the value 1 under the withdrawal's key; it fails for the root exactly if they do not hash to it, and for the inclusion exactly if only that is missing |
| Assessment.ClaimExactly | op-monitorism/withdrawals-v2/monitor.go:673-708 | the claim of a game of type 4, 5, 7 or 9 is the one it makes for this chain's id, that of any other game its own |
| Assessment.NodeOrderIsIrrelevant | op-monitorism/withdrawals-v2/monitor.go:638-671 | without hash collisions among the nodes the verdict does not depend on their order or repetition |
| Assessment.Assess | op-monitorism/withdrawals-v2/monitor.go:878-899 | recovery, root claim and proof check yield the specified verdict; only a failed check is invalid, every missing answer leaves the event open |
| Assessment.VerdictConcernsOwnCall | op-monitorism/withdrawals-v2/monitor.go:878-899 | the verdict on an event is the verdict on the very call that emitted it, against the game that call looked up |
| Assessment.AssessedExactly | op-monitorism/withdrawals-v2/monitor.go:878-899 | the verdict on a prove event, in terms of its transaction and the contracts alone: valid, invalid for its root or invalid for its inclusion, each if and only if the proof in the call that emitted it is so against the claim of the game that call looked up |
| Assessment.JudgedExactly | op-monitorism/withdrawals-v2/monitor.go:878-899 | the same for one call, and it stays open exactly if the game it looked up or that game's claim is not known |
| Assessment.TerminalVerdictIsStable | op-monitorism/withdrawals-v2/monitor.go:870-899 | however often a call is judged, and whatever answers are missing in between, it gets at most one terminal verdict |
| PendingEvents.PendingKeyInjective | op-monitorism/withdrawals-v2/monitor.go:130-132 | two logs share a pending key only if they are the same log of the same transaction |
| PendingEvents.PendingMonitor.EnqueuePending | op-monitorism/withdrawals-v2/monitor.go:933-944 | parking never overwrites: the first sighting is kept, and only a new event reports as added |
| PendingEvents.PendingMonitor.ResolvePending | op-monitorism/withdrawals-v2/monitor.go:947-954 | exactly this event leaves the pending map |
| PendingEvents.PendingMonitor.ApplyAssessment | op-monitorism/withdrawals-v2/monitor.go:903-929 | exactly one book changes; valid + invalid + pending grows by one for an event that was not pending and else stays; unverifiable is counted once per parking |
| PendingEvents.PendingMonitor.RetryPendingOnce | op-monitorism/withdrawals-v2/monitor.go:973-988 | after a pass, complete or cut short, the events left are the untried and the unresolved, as they were parked; each terminal verdict was counted once, in the book of that verdict and reason; nothing is counted unverifiable again |
| PendingEvents.PendingMonitor.UpdatePendingGauges | op-monitorism/withdrawals-v2/monitor.go:993-1013 | the reported age is that of the oldest pending event, unless one carries the zero time the loop uses as a mark |
| PendingEvents.SnapshotOf | op-monitorism/withdrawals-v2/monitor.go:973-979 | the snapshot holds every pending event exactly once |
| VerdictProtocol.StepKeepsInv | op-monitorism/withdrawals-v2/monitor.go:848-988 | the invariant of the pending set and the books is kept by every action of either thread |
| VerdictProtocol.EveryStateInv | op-monitorism/withdrawals-v2/monitor.go:848-988 | and hence holds in every state of every interleaving |
| VerdictProtocol.NoEventLostOrJudgedTwice | op-monitorism/withdrawals-v2/monitor.go:848-988 | under every interleaving no event gets two terminal verdicts or is counted unverifiable twice, and every delivered event is pending or judged unless just being assessed |
| VerdictProtocol.QuietConservation | op-monitorism/withdrawals-v2/monitor.go:903-954 | with no thread inside an evaluation, delivered = valid + invalid + pending, and pending events are not judged |
| VerdictProtocol.VerdictsAreFinal | op-monitorism/withdrawals-v2/monitor.go:903-929 | what was counted valid or invalid stays so for the rest of the run |
| VerdictProtocol.NoFalseOrMissedAlarm | op-monitorism/withdrawals-v2/monitor.go:903-929 | under every interleaving, if each terminal verdict says what the event's own proof is worth, the delivered events neither pending nor being assessed are counted invalid exactly if their proof is unsound |
| VerdictProtocol.OldestNeverGoesBack | op-monitorism/withdrawals-v2/monitor.go:933-1013 | the oldest pending time never decreases over a run, across resolutions, re-parkings and an emptied set |
| VerdictProtocol.FirstSeenIsDelivery | op-monitorism/withdrawals-v2/monitor.go:933-944 | a pending event keeps the time of its delivery, however often it is retried |
| ProtocolRefinement.EvaluationFollowsProtocol | op-monitorism/withdrawals-v2/monitor.go:870-944 | what the method does to pending set and counters is a path of the protocol: counted then released, or parked then counted unverifiable if new |
| ProtocolRefinement.SnapshotFollowsProtocol | op-monitorism/withdrawals-v2/monitor.go:973-979 | a snapshot the method takes is one the protocol allows |
| Alarms.OpenOrWorth | op-monitorism/withdrawals-v2/monitor.go:870-899 | whatever traces, receipts and contract answers are missing, an assessment leaves the event open or gives the one verdict that the proof of its own emitting call is worth; with a trace, the contracts' answers and, where several calls prove the hash, the receipt, it gives that verdict |
| Alarms.WorthExactly | op-monitorism/withdrawals-v2/monitor.go:878-899 | an event's proof is worth the verdict valid exactly if it is genuine, and the verdict invalid exactly if it is forged, both by hashes and trie alone |
| Alarms.EvaluationCountsOutcome | op-monitorism/withdrawals-v2/monitor.go:870-929 | an evaluation counts an event by the outcome of its assessment and counts nothing else |
| Alarms.InvalidIsForged | op-monitorism/withdrawals-v2/monitor.go:870-929 | in every run of assessments, whatever is counted invalid was emitted by a call whose proof is forged: its root is not the claimed one or the withdrawal is not shown to be in it |
| Alarms.AlarmsAreRight | op-monitorism/withdrawals-v2/monitor.go:848-988 | end to end, under every interleaving and with any answers missing: a delivered event that is neither pending nor being assessed is counted invalid exactly if the proof of its own emitting call is forged, and valid exactly if it is genuine; one that is neither, from true answers, stays pending |
| Replay.FirstBlockAtOrAfter | op-monitorism/withdrawals-v2/monitor.go:495-513 | the search returns the least block at or after the target, never reads the head, never reads a block twice, reads at most floor(log2(head)) + 1 headers, and its errors name the block that could not be read |
| Replay.ReplayStartBlockFromHead | op-monitorism/withdrawals-v2/monitor.go:461-491 | the cursor is one below the earlier of the time window's first block and the look-back's, at least -1 and below the head; a head outside 64 bits is refused |
| Replay.ReplayWindow | op-monitorism/withdrawals-v2/monitor.go:348-364 | the window is maturity plus the safety margin, and refused exactly where that sum does not fit 64 bits |
| Replay.CursorPrecedesReplay | op-monitorism/withdrawals-v2/monitor.go:461-491 | every block young enough in time, or within the look-back, comes after the cursor |
| RestartRecovery.ReplayCoveredExactly | op-monitorism/processor/processor.go:185-200 | the scan covers everything to be replayed if and only if the cursor is not 0, which the processor takes for an absent start block |
| RestartRecovery.LogHandedOver | op-monitorism/processor/processor.go:255-308 | every log of every completed block was handed to the callback |
| RestartRecovery.PlanHandsOver | op-monitorism/processor/processor.go:274-308 | a completed block hands over exactly its logs, in their order |
| RestartRecovery.RoundsStream | op-monitorism/processor/processor.go:221-328 | what contiguous completed rounds hand over is in time order and without repetition, if block times do not decrease and no log occurs twice on those blocks |
| RestartRecovery.StreamIsFeed | op-monitorism/withdrawals-v2/monitor.go:848-866 | logs delivered in block order form an event stream with distinct keys and nondecreasing times |
| RestartRecovery.RestartRecovers | op-monitorism/withdrawals-v2/monitor.go:440-491 | after a crash that lost the pending map, every prove event within the replay window or the look-back whose block was completed again is pending, first seen at its block's time, or judged, under every interleaving; of the chain only nondecreasing block times and distinct logs are assumed |
| RestartRecovery.GenesisReplay | op-monitorism/withdrawals-v2/monitor.go:461-491 | all the assumptions of the recovery can be met: for a one-block chain replayed from the cursor -1 there are rounds and a run that hand its event over again and judge it |
| RestartRecovery.CursorZeroHappens | op-monitorism/withdrawals-v2/monitor.go:461-491 | the failing cursor is reached: two blocks a second apart, without look-back, give the cursor 0, and block 1 is not scanned again |
| BigInts.BigInt.AddInt | op-monitorism/processor/processor.go:236-250 | the receiver, and no other big integer, takes the sum |
| Sorting.SortIgnoresOrder | op-monitorism/processor/processor.go:314-328 | with indices that tell the logs apart the sorted list does not depend on the order given |
| BlockPlan.ExactlyOnce | op-monitorism/processor/processor.go:255-308 | in an orderly history that finished its plan every item succeeds in exactly one call, all earlier work coming before it and all later work after it |
| BlockPlan.CallbacksExactly | op-monitorism/processor/processor.go:255-308 | every call for a completed block is work due on it; the block, each of its transactions, the whole block and the log query, where configured, succeed in exactly one call each, every log in some call; and work comes in the order block, transactions ascending, whole block, log query, logs |
| BlockPlan.FilteredLogsInOrder | op-monitorism/processor/processor.go:314-328 | filtered logs are handed over in ascending index order, all of them, however the node ordered them |
| BlockPlan.UnfilteredLogsInOrder | op-monitorism/processor/processor.go:285-312 | without a filter the logs handed over are those of all receipts, receipt by receipt, in their order |
| BlockProcessor.Processor.WithRetry | op-monitorism/processor/processor.go:389-504 | an item is tried until it succeeds or the context ends; each failure is counted, and nothing else is called in between |
| BlockProcessor.Processor.ProcessLogs | op-monitorism/processor/processor.go:285-328 | the log callbacks of a block follow its plan, one log at a time |
| BlockProcessor.Processor.ProcessTransactions | op-monitorism/processor/processor.go:264-272 | so do the transaction callbacks |
| BlockProcessor.Processor.ProcessItems | op-monitorism/processor/processor.go:255-300 | a block is done only when its whole plan is |
| BlockProcessor.Processor.ProcessBlock | op-monitorism/processor/processor.go:255-308 | on success the cursor is a fresh integer with the block's number; on failure the cursor and the record of completed blocks are unchanged |
| BlockProcessor.Processor.UpdateBackoff | op-monitorism/processor/processor.go:331-387 | the new delay and window follow from this block's errors alone, and the error count is cleared |
| BlockProcessor.Processor.ProcessNewBlocks | op-monitorism/processor/processor.go:221-252 | completed blocks continue contiguously from the cursor up to the latest; the in-place counter never moves the cursor; each completed block gives one delay update from its own errors |
| BlockProcessor.Processor.Start | op-monitorism/processor/processor.go:185-214 | the run begins after the start block, or after the latest block if that is absent or 0, and completes every block any tick reported unless the context ends; each completed block gives one delay update from its own errors, and each failed tick one more with errors; unless the context ends exactly those ticks fail for which the node gave no latest block |
| BlockProcessor.StartIsInclusiveExactly | op-monitorism/withdrawals-v2/monitor.go:339-347 | the block named as start is the first one scanned if and only if it is not 1 (or the chain has only block 0) and not beyond 2^63 |
| BlockProcessor.StartOneSkips | op-monitorism/withdrawals-v2/monitor.go:339-347 | an instance: with start block 1 the scan begins after the latest block |
| Backoff.BoundedExactly | op-monitorism/processor/processor.go:331-370 | the delay stays in [min, max] over every run if and only if step + min fits a 64-bit duration (or min = max) |
| Backoff.OversizedStepUnderflows | op-monitorism/processor/processor.go:350-370 | otherwise one error and one stable window bring it below the minimum |
| Backoff.ErrorsDouble | op-monitorism/processor/processor.go:331-348 | k erroring updates from a positive delay d give min(max, d * 2^k) |
| Backoff.ErrorsFromZero | op-monitorism/processor/processor.go:331-348 | from no delay at all k + 1 erroring updates give min(max, step * 2^k) |
| Backoff.ErrorRestartsWindow | op-monitorism/processor/processor.go:331-370 | an error starts the stable window afresh: for the rest of a window of clean updates the raised delay stays |
| Backoff.WrapsOnce | op-monitorism/processor/processor.go:331-370 | 64-bit durations stay in range and are off by at most one turn |
| Backoff.RecoveryIsExact | op-monitorism/processor/processor.go:350-370 | the delay is back at the minimum after exactly window * ceil((d - min) / step) clean updates and not before |
| TimeSearch.GetBlockAtApproximateTime | op-monitorism/faultproof_withdrawals/monitor.go:184-278 | the loop on mutable big integers computes the specified search and leaves the caller's integers alone |
| TimeSearch.EndsExactly | op-monitorism/faultproof_withdrawals/monitor.go:209-256 | on a readable chain with nondecreasing times the search ends if and only if the target is not after block 0, or two neighbouring blocks lie within an hour of it, or halving meets a block within an hour of it |
| TimeSearch.AccurateOnDenseChains | op-monitorism/faultproof_withdrawals/monitor.go:184-278 | with gaps of at most an hour and a target not after the latest block, it ends within latest + 1 iterations at a block within an hour of the target, or at block 0's time for an earlier target |
| TimeSearch.ReturnsFirstClosest | op-monitorism/faultproof_withdrawals/monitor.go:209-278 | whatever the chain, a search that returns a block returns the closest one it looked at, and of equally close ones the first |
| TimeSearch.EarlyTargetEnds | op-monitorism/faultproof_withdrawals/monitor.go:209-256 | a target not after block 0 always ends the search |
| TimeSearch.NothingNearNeverEnds | op-monitorism/faultproof_withdrawals/monitor.go:209-256 | a target after block 0 with no block within an hour never ends it |
| TimeSearch.LoneBlockIsFound | op-monitorism/faultproof_withdrawals/monitor.go:209-256 | a single block within an hour is found if halving the block numbers meets it |
| TimeSearch.LoneBlockIsMissed | op-monitorism/faultproof_withdrawals/monitor.go:209-256 | and never found otherwise |
| TimeSearch.ExactHitMayBeMissed | op-monitorism/faultproof_withdrawals/monitor.go:209-256 | a chain of two blocks on which the search never ends although block 1 is an exact hit |
| Ledger.BooksBalance | op-monitorism/faultproof_withdrawals/state.go:147-213 | at every event boundary: the in-progress counter is the size of the in-progress map and never wraps; processed withdrawals are exactly validated, defender wins, suspicious and pre-Isthmus; events minus withdrawals are exactly those left open |
| Ledger.TrackedByLastBooking | op-monitorism/faultproof_withdrawals/state.go:153-202 | a transaction is in the in-progress map exactly if its last decisive booking left it in progress |
| Ledger.AttackCountExactly | op-monitorism/faultproof_withdrawals/state.go:153-169 | the exported number of attacks is at least that of the transactions listed as attacks, and equal to it if and only if none was booked as an attack twice |
| LruCaches.LruCache.Add | op-monitorism/faultproof_withdrawals/state.go:187-213 | adding renews or appends, and drops the oldest entry only when the cache is over its size |
| LruCaches.CacheHoldsLatest | op-monitorism/faultproof_withdrawals/state.go:187-213 | after any additions the cache holds the values last added for the most recently added keys, in order; a key is missing only if the cache is full of newer ones |
| LruCaches.GetIsAdd | op-monitorism/faultproof_withdrawals/validator/fault_dispute_game_helper.go:107-161 | reading a held key counts like adding its value again; reading another one changes nothing |
| LruCaches.LruCache.Sweep | op-monitorism/faultproof_withdrawals/state.go:444-594 | the metrics sweep yields every entry once, oldest first, and leaves contents and eviction order as they were |
| LruCaches.SweepIsInvisible | op-monitorism/faultproof_withdrawals/state.go:444-594 | reading all keys oldest to newest gives back the same cache |
| Counters.DeltaCounter.Update | op-monitorism/faultproof_withdrawals/state.go:460-493 | an update adds what the count grew by since the last one, in unsigned 64-bit arithmetic |
| Counters.Telescopes | op-monitorism/faultproof_withdrawals/state.go:444-594 | the exported counter shows the count after any updates if and only if that count never went back |
| Counters.CountsNeverDecrease | op-monitorism/faultproof_withdrawals/state.go:147-213 | the processed events, processed withdrawals and pre-Isthmus counts of the state never decrease along a history |
| Counters.ExportShowsState | op-monitorism/faultproof_withdrawals/state.go:460-493 | so whenever the metrics are updated in the course of a run, the three exports show the state's own counts |
| Enrichment.RefreshState | op-monitorism/faultproof_withdrawals/validator/fault_dispute_game_helper.go:165-183 | the status is stored even if the resolution time then cannot be read, and nothing else changes |
| Enrichment.UpdateEnrichedWithdrawalEvent | op-monitorism/faultproof_withdrawals/validator/proven_withdrawal_validator.go:123-180 | one update brings findings and shared game data to the specified values, with every early error return in its place |
| Enrichment.ValidatedExactly | op-monitorism/faultproof_withdrawals/validator/proven_withdrawal_validator.go:123-180 | a new event is validated exactly if it could be judged, the L2 node has the block, its header gives the root claim and the withdrawal is present |
| Enrichment.FoundExactly | op-monitorism/faultproof_withdrawals/validator/proven_withdrawal_validator.go:123-180 | an update without error sets every mark of an event not judged yet as its answers say: blacklisted, too old, trusted and present, the last left alone where the L2 node lags |
| Enrichment.EnrichDecides | op-monitorism/faultproof_withdrawals/validator/proven_withdrawal_validator.go:123-180 | an update without error leaves the event judged and classifiable, a failed one never marks it as judged |
| Enrichment.InProgressIsWatched | op-monitorism/faultproof_withdrawals/monitor.go:429-486 | only events that are judged, not valid and not blacklisted come to be watched |
| Enrichment.WatchedIsFinal | op-monitorism/faultproof_withdrawals/validator/proven_withdrawal_validator.go:123-180 | the findings on a watched event never change again, so it is never validated; with the three known statuses it stays exactly while its game is in progress |
| Enrichment.LaggingNodeCondemns | op-monitorism/faultproof_withdrawals/validator/proven_withdrawal_validator.go:141-170 | with all answers there and true, a genuine withdrawal is validated if and only if the L2 node has reached its game's block when it is first judged; otherwise no later answer changes its findings, and it is booked as an attack when the defender wins |
| WithdrawalMonitor.State.IncrementPotentialAttackOnDefenderWinsGames | op-monitorism/faultproof_withdrawals/state.go:153-169 | the event joins the attacks and leaves the watched map, with its counters |
| WithdrawalMonitor.State.IncrementPotentialAttackOnInProgressGames | op-monitorism/faultproof_withdrawals/state.go:171-185 | the event is watched, counted only if its transaction was not yet |
| WithdrawalMonitor.State.IncrementSuspiciousEventsOnChallengerWinsGames | op-monitorism/faultproof_withdrawals/state.go:187-202 | the event joins the suspicious cache and leaves the watched map, with its counters |
| WithdrawalMonitor.State.IncrementPreIsthmusUnverifiable | op-monitorism/faultproof_withdrawals/state.go:204-213 | the event joins the pre-Isthmus cache; the watched map is not touched |
| WithdrawalMonitor.State.BookEvent | op-monitorism/faultproof_withdrawals/monitor.go:436-483 | an event is booked in exactly one class, with the maps, caches and counters of that class and no other |
| WithdrawalMonitor.State.ConsumeEvent | op-monitorism/faultproof_withdrawals/monitor.go:429-486 | an event is booked once in the class its findings and game status give, and put in the container of that class and no other, or refused with every map, cache and book unchanged |
| WithdrawalMonitor.State.Update | op-monitorism/faultproof_withdrawals/monitor.go:395-402 | bringing an event up to date keeps the state sound, also where it is watched itself: its findings do not change |
| WithdrawalMonitor.State.UpdateAndConsume | op-monitorism/faultproof_withdrawals/monitor.go:395-420 | one step goes through exactly if every answer it needs is there; then it sees what the answers say, and all containers change by its class alone; the status is stored in the game, shared or not; failure leaves maps, caches and books as they were |
| WithdrawalMonitor.State.Visit | op-monitorism/faultproof_withdrawals/monitor.go:388-420 | a step in the course of a pass: its findings, status and effect on all containers follow from the start, the answers and the visits before it, and all events sharing its game see the new status |
| WithdrawalMonitor.State.ConsumeEvents | op-monitorism/faultproof_withdrawals/monitor.go:385-425 | a pass in any order, over a map that may be the one being changed: it ends with all events visited or at the first step that cannot go through; the final status of every game and the exact contents of history, watched map, attacks and both caches follow from start, answers and order |
| Consumption.AlongRecords | op-monitorism/faultproof_withdrawals/monitor.go:385-486 | the contents a pass leaves record each observed event once, in its observed class, and no other; attacks are never forgotten and grow exactly by the defender wins seen; in a pass over the watched map nothing is validated |
| Consumption.AlongTracks | op-monitorism/faultproof_withdrawals/monitor.go:385-486 | of the watched map exactly those events remain that were not closed at their own step, as they were |
| Consumption.AlongCaches | op-monitorism/faultproof_withdrawals/monitor.go:385-486 | each of the two caches gets exactly the events seen in its own class, in the order of the visits, and evicts by its size of 1000 |
| Consumption.AlongAttacks | op-monitorism/faultproof_withdrawals/monitor.go:385-486 | the attacks afterwards are those of before and the very events seen as defender wins |
| EventPass.StatusIsFirstClosingAnswer | op-monitorism/faultproof_withdrawals/validator/fault_dispute_game_helper.go:165-183 | under any sharing of game data a settled game keeps its status, and one in progress takes the first closing answer at a visit to any event sharing it, staying in progress exactly as long as there is none |
| EventPass.SeenAtOwnStep | op-monitorism/faultproof_withdrawals/monitor.go:385-425 | what was observed for an event is what its own step saw, whatever later visits did to its game |
| EventPass.NewClassExactly | op-monitorism/faultproof_withdrawals/validator/proven_withdrawal_validator.go:123-180 | a step goes through for a new event exactly if every question it leads to is answered, and then gives the class written out in the answers: too old, genuine, suspicious if blacklisted or its game was lost, an attack if the defender won, watched while in progress |
| EventPass.NewEventExactly | op-monitorism/faultproof_withdrawals/validator/proven_withdrawal_validator.go:123-180 | a new event of a pass is put in the class its own answers and its game's status at its step give; in particular it is validated if and only if the L2 head has reached its game's block, the header gives the root claim and the withdrawal is present |
| EventPass.PassOutcome | op-monitorism/faultproof_withdrawals/monitor.go:385-486 | with the three known statuses a watched event stays exactly if its game was in progress at the start and no visit to an event of that game, up to its own, was answered otherwise; else it became a defender-wins attack or a suspicious event by its status then |
| EventFetch.GetDisputeGameProxyFromAddress | op-monitorism/faultproof_withdrawals/validator/fault_dispute_game_helper.go:107-161 | a cached game is returned as the same shared object, another is created and cached, a failed lookup caches nothing |
| EventFetch.LastOfEachExactly | op-monitorism/faultproof_withdrawals/validator/proven_withdrawal_validator.go:263-264 | exactly the transactions with a log have an entry, and log i is the one taken if and only if it is the last of its transaction |
| EventFetch.SecondHidesFirst | op-monitorism/faultproof_withdrawals/validator/proven_withdrawal_validator.go:263-264 | an instance: of two withdrawals proven in one transaction only the second is looked at |
| EventFetch.GetEnrichedWithdrawalEvent | op-monitorism/faultproof_withdrawals/validator/proven_withdrawal_validator.go:184-215 | a log's event is new, with nothing found out about it, and carries the game its proof was made against: the very object the cache holds for that address, or one made from the reply and cached from then on; a failed lookup leaves the cache alone |
| EventFetch.GetEnrichedWithdrawalsEventsMap | op-monitorism/faultproof_withdrawals/validator/proven_withdrawal_validator.go:240-268 | for each transaction the map holds a new event with nothing found yet that carries its last readable log and that log's game; the cache is the fold of all lookups, new games have the data of their replies, all others are the cache's own objects; it fails only on a failed query, not on a log that does not unpack |
| EventFetch.SharedWhileHeld | op-monitorism/faultproof_withdrawals/validator/fault_dispute_game_helper.go:107-161 | lookups of one address give one shared object for as long as the cache holds it |
| EventFetch.MissedExactly | op-monitorism/faultproof_withdrawals/validator/proven_withdrawal_validator.go:246-267 | a transaction of the range is missed if and only if all its logs come at or after the first one that does not unpack |
| EventFetch.FirstUndecodableHidesAll | op-monitorism/faultproof_withdrawals/validator/proven_withdrawal_validator.go:246-267 | an instance: if the first log does not unpack, nothing of the range is consumed |
| EventFetch.AllDecodeReadsAll | op-monitorism/faultproof_withdrawals/validator/proven_withdrawal_validator.go:246-267 | if all logs unpack, every transaction is taken by the last of the logs returned |
| WithdrawalRuns.Monitor.constructor | op-monitorism/faultproof_withdrawals/monitor.go:143-157 | the first height is the configured one, pulled back to the head |
| WithdrawalRuns.Monitor.GetMaxBlock | op-monitorism/faultproof_withdrawals/monitor.go:296-315 | a run ends one range ahead, with 64-bit wrap-around, and not past the head |
| WithdrawalRuns.LastBlockExactly | op-monitorism/faultproof_withdrawals/monitor.go:296-315 | with heights that fit, a run ends at its start only if that is the head or the range is 0, else strictly ahead, at most one range ahead and not past the head, and at the head exactly if that is within one range; it ends behind its start exactly if the head is behind or the sum overflows |
| WithdrawalRuns.HeadIsApproached | op-monitorism/faultproof_withdrawals/monitor.go:296-381 | with a standing head the next height is as many whole ranges ahead of the initial one as runs were completed, up to the head |
| WithdrawalRuns.HeadReachedExactly | op-monitorism/faultproof_withdrawals/monitor.go:296-381 | and is at the head exactly from the ceil((head - initial) / range)-th completed run on |
| WithdrawalRuns.Monitor.ReviewWatched | op-monitorism/faultproof_withdrawals/monitor.go:334-342 | going over the watched events is a pass in the above sense, over the watched map itself: all containers are as the pass leaves them, what each event saw was booked once, those not closed remain, and cached games have the statuses the pass left; with every question answered it goes through |
| WithdrawalRuns.Monitor.TakeNew | op-monitorism/faultproof_withdrawals/monitor.go:370-380 | the next height moves to the end of the range only once every fetched event was booked, and the record says which proof was taken by which answers in which class; otherwise height and record stay |
| WithdrawalRuns.Monitor.Fetch | op-monitorism/faultproof_withdrawals/monitor.go:344-368 | the fetched events start with nothing found, their games with the reply's status if new and the cached one otherwise |
| WithdrawalRuns.Monitor.FetchAndTake | op-monitorism/faultproof_withdrawals/monitor.go:344-380 | the fetched events are consumed in a pass over new events told exactly these answers, and all containers are as that pass leaves them; with every question answered the range advances |
| WithdrawalRuns.NewEventsJudged | op-monitorism/faultproof_withdrawals/monitor.go:344-420 | in a finished pass over new events every one is taken, with the class its own answers give: validated exactly if the withdrawal is genuine by them |
| WithdrawalRuns.Monitor.Run | op-monitorism/faultproof_withdrawals/monitor.go:319-381 | a run leaves all containers as its two passes, over the watched and over the new events, leave them; it advances if every question is answered, and only if both passes went over all their events, then exactly to the end of the range whose logs it asked for, which lies ahead and not past the head where heights fit; without a head, or when a question fails, the same start is used again |
| WithdrawalRuns.RunRecorded | op-monitorism/faultproof_withdrawals/monitor.go:319-425 | every event of either pass is booked exactly once more, one of both passes twice, and history and attacks are never forgotten |
| WithdrawalRuns.BlockCoverage | op-monitorism/faultproof_withdrawals/monitor.go:319-381 | after any runs, failures and head movements, every block from the initial height up to the next one lay in a range that was fetched and wholly consumed |
| WithdrawalRuns.SharedBoundary | op-monitorism/faultproof_withdrawals/monitor.go:319-381 | of two consecutive ranges the second starts with the block the first ended with |
| WithdrawalRuns.BoundaryBookedTwice | op-monitorism/faultproof_withdrawals/monitor.go:319-381 | so a withdrawal proven in such a block, all logs being returned and readable, is booked at least twice |
| WithdrawalRuns.TakenExactly | op-monitorism/faultproof_withdrawals/monitor.go:344-380 | a consumed range took exactly the transactions with a log before the first that does not unpack |
| WithdrawalRuns.NoTransactionMissed | op-monitorism/faultproof_withdrawals/monitor.go:319-381 | every proven withdrawal in those blocks was returned for a range over its block, and if all logs of that range unpack, its transaction was consumed by its last event and booked in the class the nodes' answers give: validated exactly if genuine by them |
| Conservation.ExtractAllTouchedAddressesRecursive | op-monitorism/conservation_monitor/monitor.go:234-249 | the walk lists senders and receivers of all frames, outer before inner |
| Conservation.TouchedExactly | op-monitorism/conservation_monitor/monitor.go:234-249 | an address is listed if and only if some frame at some depth has it as sender or receiver |
| Conservation.Deduplicate | op-monitorism/conservation_monitor/monitor.go:252-262 | the loop over the `present` map computes the specified list |
| Conservation.DeduplicatedExactly | op-monitorism/conservation_monitor/monitor.go:252-262 | nothing is lost, nothing is listed twice, and first occurrences keep their order |
| Conservation.ExtractAllTouchedAddresses | op-monitorism/conservation_monitor/monitor.go:220-230 | the lists of all traces are joined and deduplicated |
| Conservation.BatchGetBalance | op-monitorism/conservation_monitor/monitor.go:189-216 | each address gets the balance of its last element; a failed element leaves zero, a failed batch is an error |
| Conservation.TotalOf | op-monitorism/conservation_monitor/monitor.go:159-166 | the sum over a balance map does not depend on the order of iteration |
| Conservation.CheckInvariantHeld | op-monitorism/conservation_monitor/monitor.go:127-186 | the method answers the specified check, with the parent query's error before the current one's |
| Conservation.MintedExactly | op-monitorism/conservation_monitor/monitor.go:127-135 | the minted amount is the sum of the mints over all positions whose transaction is a deposit that mints |
| Conservation.AccountsExactly | op-monitorism/conservation_monitor/monitor.go:137-147 | the check looks at exactly the parties of all frames and the fee vaults |
| Conservation.TotalIsSum | op-monitorism/conservation_monitor/monitor.go:159-168 | a total counts each address once, however often it is listed, and those whose deciding element failed as empty |
| Conservation.VerdictExactly | op-monitorism/conservation_monitor/monitor.go:127-216 | its verdict is the inequality over all accounts, corrected by the accounts not looked at and by those that could not be read |
| Conservation.LocalIsGlobal | op-monitorism/conservation_monitor/monitor.go:127-186 | if every account whose balance changed is touched or a vault, and all could be read, the check holds exactly if the ETH of all accounts did not grow beyond what was minted |
| Conservation.CheckIsConservation | op-monitorism/conservation_monitor/monitor.go:127-186 | end to end for a block after genesis: if every account that changed is touched or a vault and all elements are answered, the check holds exactly if the ETH of all accounts, from the state one height below to its own, grew by no more than its deposits minted |
| Conservation.GenesisAsksForLastHeight | op-monitorism/conservation_monitor/monitor.go:149-156 | an instance: for the genesis block the height below wraps around to the largest there is |
| Conservation.GlobalExactlyIfAnswered | op-monitorism/conservation_monitor/monitor.go:189-216 | for given failing elements, the verdict is the global one for all balances if and only if in both batches the deciding element of every account was answered |
| Conservation.FailedElementsHideCreation | op-monitorism/conservation_monitor/monitor.go:189-216 | an instance: if the elements of the current batch all fail, the check holds whatever was created |
| EventSignature.MatchIsForced | op-monitorism/global_events/monitor.go:118-119 | at any start the regular expression matches in at most one way |
| EventSignature.FindIsLeftmost | op-monitorism/global_events/monitor.go:118-119 | the match used is the leftmost one, and there is none exactly when nothing matches anywhere |
| EventSignature.SplitJoin | op-monitorism/global_events/monitor.go:127-135 | splitting inverts joining for parts without commas |
| EventSignature.FormatSignature | op-monitorism/global_events/monitor.go:115-136 | the loop computes the specified canonical form |
| EventSignature.FormattingUndoesPrinting | op-monitorism/global_events/monitor.go:113-136 | whatever stands before the name without opening a signature, around the types and after the closing bracket, formatting gives name(type,type,...) for types without commas or closing brackets |
| EventSignature.CanonicalExactly | op-monitorism/global_events/monitor.go:113-136 | for any white space before the bracket and types only known to be free of white space, that holds if and only if the expression knows that white space, no type has a closing bracket and none has an empty part between commas; with other white space the result is empty |
| EventSignature.NoBreakSpaceFails | op-monitorism/global_events/monitor.go:113-148 | an instance: a no-break space before the bracket gives the empty result |
| EventSignature.NameIsCut | op-monitorism/global_events/monitor.go:113-136 | a name is cut after every character that is neither a word character, white space nor an opening bracket; the result keeps only what follows |
| EventSignature.DollarCutsName | op-monitorism/global_events/monitor.go:113-136 | an instance: a name with a dollar sign, which Solidity allows, loses its first part |
| EventSignature.OneCloser | op-monitorism/global_events/monitor.go:115-136 | every nonempty result has one closing bracket, its last character |
| EventSignature.FormattingIsIdempotent | op-monitorism/global_events/monitor.go:115-136 | formatting a formatted signature changes nothing, on every string |
| EventSignature.EmptyExactly | op-monitorism/global_events/monitor.go:115-148 | the empty result, on which the caller panics, comes out exactly when nothing matches |

## Left out

- RPC clients, dialing, contexts, timers, logging, command lines and YAML files: input and output; their outcomes are inputs here.
- Prometheus gauges as seen by a scraper: `pending` is set after the mutex is released and may be stale, so the statements are about the map and the counters.
- Keccak, calldata unpacking and the Merkle trie (appendix D of the Ethereum Yellow Paper): functions given as input; hash injectivity is assumed only in NodeOrderIsIrrelevant.
- The cached L2 chain id of withdrawals-v2 and the node reads around it: one answer per assessment.
- The arguments of queries, but for the block ranges of logs and the heights of balances: the other replies are inputs by event or by position.
- Replies that change between two reads of one block: the replay search never asks for a block twice, the time search, which may, is given a fixed chain.
- A withdrawal event that does not parse: it is counted as a decode error and dropped before the pipeline starts.
- Waiting times: the delay is computed; sleeping, with its random jitter, is not modelled.
- Overflow of the counters of clean blocks, errors and exported floats: only the in-progress counter, which is decremented, and the exported differences are modelled in 64 bits.
- GetBlockAtApproximateTime: the loop is cut off after a budget of iterations, because it need not end; EndsExactly says for which chains some budget suffices.
- The conversion of the search result and of configured heights to 64-bit integers in the constructor of the fault-proof monitor.
- NoTransactionMissed: assumes that the node returned all logs of the range's blocks; which of them unpack is not assumed.
- ConsumeEvents: coverage is per transaction, by its last event, since events of one transaction share a key.
- AlarmsAreRight: the contracts' answers are taken to be the same at every attempt, the receipt to belong to the trace, and calls proving one hash not to nest; what is answered is not wrong, only missing.
- ConsumeEvent: the sizes of the suspicious and pre-Isthmus caches limit what stays visible, not what is counted; processing timestamps are left out.
- `nextL1Height` and `latestL1Height` are fields of the monitor here and of its state in the source.
- Root claims, creation times and chain ids of games: not read by the modelled logic beyond the header comparison, whose outcome is an input.
- GetPercentages, DisputeGameFactoryIterator and the backup nodes: not used by the monitor loop, or thin wrappers.
- The monitors fault, withdrawals (first version), drippie, secrets, balances, multisig, transaction_monitor and liveness_expiration: their cursors and searches are simpler versions of what is covered.
- checkEvents of global_events and the hashing of signatures: plumbing around formatSignature.
- FormattingUndoesPrinting: types hold no commas or closing brackets; CanonicalExactly drops this.
- CanonicalExactly: where the white space before the bracket is not of the expression's kind, no further opening bracket may follow in the string, as it could start another signature; parameter names and modifiers hold no commas or closing brackets, which end a parameter.
- Transactions whose trace failed inside a block trace: they show up as an empty call from address zero, which the model covers as any other trace.

# SeekServe: byte serving and piece scheduling

A Dafny model of the part of SeekServe that decides which pieces a torrent should fetch next and turns HTTP range
requests into bytes: the piece scheduler, the availability index and the byte/piece arithmetic under it, the blocking
read, the range parser and the chunked 206 response, and the quota of the offline cache.

| file | what it holds |
|---|---|
| TorrentLayout.dfy, ByteRangeMapper.dfy, Arithmetic.dfy | files laid end to end, pieces, the span of a byte range |
| MetadataCatalog.dfy | the catalogue of files and their piece ranges |
| PieceAvailability.dfy, ConcurrentMarking.dfy | the completion index, its scans, and marking by many threads |
| SchedulerModel.dfy, StreamingScheduler.dfy | one call of the scheduler: specification, and the class with its loops |
| SchedulerRuns.dfy, SchedulerFigures.dfy | what every run keeps; refresh, request and tick in figures |
| SchedulerHandle.dfy, SchedulerBudget.dfy | how many deadlines gather on the handle |
| SchedulerHistory.dfy, SchedulerRecovery.dfy, SchedulerProgress.dfy | mode, stall and boost history; when the scheduler recovers; progress |
| SchedulerRaces.dfy | range requests while pieces are being marked |
| ReadProtocol.dfy, ReadVerdicts.dfy | the blocking read as a step relation; what its verdicts mean |
| ReadProgress.dfy, ReadWakeups.dfy | how soon a read returns; which wakeups are lost |
| ByteSource.dfy, HttpRangeServer.dfy | reading a range from disk and streaming it |
| Decimal.dfy, RangeParser.dfy, Rfc7233.dfy | the Range header parser, and the grammar and meaning of RFC 7233 |
| OfflineCache.dfy | the cache table, its histories, and least-recently-used eviction |
| Engine.dfy | what selecting a file builds, and the alert, request and tick handlers |
| Results.dfy | optional values and error results |

## How the model stands to the program

- Objects that the program updates in place are classes whose methods follow its statements and are proved against
  functions of the old state. Theorems about runs are about those functions. `Engine.TorrentState` states that each
  handler is a step of `SchedulerRuns`, so the run theorems apply to the objects.
- The clock, the download rate, the outcome of each wait, how much of each socket write the peer takes, the status
  snapshot and the order in which the database returns rows are inputs.
- libtorrent appears as the arithmetic of `map_file` and `piece_size` over prefix sums of the file sizes, a growing set
  of finished pieces, and the handle's map from piece to deadline.
- The blocking read has one program counter per reader; each load of the cancel flag or of a piece's bit, each mutex
  operation, each notification and each tick of the clock is a step. Between a failed check and the wait there is a
  step of its own, in which a notification is lost.

## Where the code differs from the documents

The model follows the code.

- A mode is left at `stall_count >= threshold`, not above it, and DownloadFirst goes back to DownloadAssist, not to
  StreamingFirst (seekserve-core/src/streaming_scheduler.cpp:160, 175-179; docs/SCHEDULER_POLICY.md:67-69).
- `deadline_budget` is documented as a maximum of concurrent deadline pieces (docs/SCHEDULER_POLICY.md:41). The code
  bounds each refresh: after any run the handle holds all plans since the last seek (`HandleHoldsPlansSinceSeek`), some
  run takes it over the budget exactly when the budget is positive and the file, or one window if every move is a seek,
  has more missing pieces (`HandleCanExceedBudgetIff`), and `BudgetDoesNotBoundTheHandle` is a run of two requests that does.
- The contiguous figure behind the mode switch is not the buffer ahead of the playhead: it counts bytes past the file's
  end and takes off the offset of the file's first byte in every piece. `SwitchMisjudgesIff` says exactly when it passes
  a threshold the buffer does not and the other way round, `SwitchOverrates` and `SwitchUnderrates` give a run for each,
  and `FigureNeverFallsIff` the one case in which marking a piece lowers it, with a run in `FigureFallsBelowZero`.
- Any mode is documented to return to StreamingFirst once the buffer is healthy again (docs/SCHEDULER_POLICY.md:70).
  Without a request it never is if the bytes from the playhead piece to the torrent's end, less the file's offset in
  its first piece, are fewer than the threshold asks for; `RecoveryIsPossibleIff` has the exact condition, and
  `ShortTorrentIsLost` and `OffsetIsLost` give runs after which no run recovers.
- A finished piece is documented to end the wait of a read (docs/ARCHITECTURE.md:74). Notifications take no lock;
  `WakeupLostIff` says exactly when one is lost, and `NotificationCanBeMissed` gives a reachable state in which one is.
- The range callback ignores which file a range is for, so a scheduler may be given a range of another file;
  `EveryRunIsSafe` says exactly when its playhead is still in its own file.
- The boost extends the window forward from the playhead; README.md of the repository draws boosted pieces before it.
- docs/STORAGE_POLICY.md:78 has the quota enforced after each completed file. Nothing in the engine calls
  `enforce_quota`, so its postcondition is proved and no standing bound on the cache is claimed. A progress update
  also counts as an access.
- RFC 7233 asks for a range whose last position exceeds the file to be cut to the file. A last position or suffix
  beyond 64 bits is refused instead; `GrammarParsesAsRfc` has the exact condition and `OversizedLastIsRefused` an
  input. A header the parser rejects is answered 416, whatever the reason.
- Section 4.3.2 of RFC 7231 leaves the answer to a HEAD without a body. A rejected Range header is answered with a text
  whatever the method: `HeadIsBodylessIff` has the exact condition and `RejectedHeadHasBody` an input.

## Model

| member | source | states |
|---|---|---|
| ReadVerdicts.ReadsOnlyFinishedPieces | seekserve-core/src/byte_source.cpp:24-47 | in every interleaving of alert thread, readers, cancels, spurious wakeups and clock, a read that gets past its wait has every piece of its span finished by libtorrent, then and in every later state, although the scan is a sequence of single loads |
| ReadVerdicts.ReadsOnlyFinishedBytes | seekserve-core/src/byte_source.cpp:24-47 | the same in bytes: every byte of the mapped range lies in a piece that is complete in the index and finished |
| ReadVerdicts.IndexNeverOverReports | seekserve-serve/src/engine.cpp:250-263 | snapshot pre-population followed by alerts never marks a piece libtorrent has not finished |
| ReadVerdicts.IndexIsWhatWasReported | seekserve-serve/src/engine.cpp:250-263 | at every moment of every run a bit is set exactly when the copy of the snapshot has brought it or an alert to this index has marked it: the finished pieces in neither are the ones missed |
| ReadVerdicts.CancelledOnlyAfterCancel | seekserve-core/src/byte_source.cpp:25-27 | the verdict `cancelled` implies an earlier store by some cancel |
| ReadVerdicts.CancelReachesEveryWait | seekserve-core/src/byte_source.cpp:38-40 | a read not yet past its wait when the flag goes up can only return `cancelled` |
| ReadVerdicts.ReadAfterCancelReturnsAtOnce | seekserve-core/src/byte_source.cpp:25-27 | a read begun after a cancel returns `cancelled` on its first own step |
| ReadVerdicts.DeadlineIsTimeoutAfterStart | seekserve-core/src/byte_source.cpp:32-36 | in every run the deadline of a read is its timeout after the clock at which it took the mutex and began its wait |
| ReadVerdicts.TimeoutMeansMissing | seekserve-core/src/byte_source.cpp:34-43 | `timeout` implies four own steps in order: the start of the wait, at least the timeout later a flag load that saw no cancel, a load that found a span piece missing, and the load of the flag that decides the verdict, which saw no cancel |
| ReadVerdicts.CompletionBeatsTimeout | seekserve-core/src/byte_source.cpp:34-46 | a read whose span completes before its final evaluation has found it missing never times out, heard notification or not |
| ReadVerdicts.FewStepsPastDeadline | seekserve-core/src/byte_source.cpp:32-44 | past its deadline a read takes at most 2 x span + 9 further own steps |
| ReadVerdicts.SomeoneCanStep | seekserve-core/src/byte_source.cpp:32-44 | past its deadline an unreturned read can step, or the holder of the mutex can |
| ReadProgress.CompleteReadReturnsBytes | seekserve-core/src/byte_source.cpp:24-46 | once its span is complete and while no cancel comes, a read returns its bytes after an exact number of own steps: its span and five from the start, fewer from further on |
| ReadProgress.CancelledReadEndsSoon | seekserve-core/src/byte_source.cpp:34-40 | with the flag up a read returns within a few own steps, two once it evaluates its predicate anew, whatever its span |
| ReadProgress.SharedStateIsItsHistory | seekserve-core/src/byte_source.cpp:79-82 | the flag is up exactly after some cancel, a piece finished exactly as reported, the clock at its start plus what has passed |
| ReadWakeups.SleeperHearsNotification | seekserve-core/src/byte_source.cpp:75-82 | a notification sent while a reader sleeps leaves it able to go on until it does |
| ReadWakeups.SleepsUnheardIff | seekserve-core/src/byte_source.cpp:34-36 | a reader sleeps unheard exactly when, since the step in which it entered its wait, there has been no notification, spurious wakeup or step of its own; and before its deadline it then cannot go on |
| ReadWakeups.WakeupLostIff | seekserve-core/src/byte_source.cpp:75-82 | a reader sleeps unheard with its wait over and no notification on its way exactly when it entered the wait with its span complete or the flag up and everything notified already, and nothing has been marked, cancelled or notified since |
| ReadWakeups.EveryNotificationCameTooSoon | seekserve-core/src/byte_source.cpp:75-82 | such a reader has missed the notification of every mark and every cancel there was: each came before it entered its wait |
| ReadWakeups.LostBetweenLookAndWait | seekserve-core/src/byte_source.cpp:34-36 | without a cancel, the reader looked at a piece and found it missing, then the piece was marked, then notified, then the reader entered its wait, in this order |
| ReadWakeups.NotificationCanBeMissed | seekserve-core/src/byte_source.cpp:75-82 | a reachable state in which a wakeup is lost before the deadline |
| ReadProtocol.RunKeepsInv | seekserve-core/src/byte_source.cpp:24-47 | the protocol invariant holds in every state of every run: mutex ownership by position, scanned prefix complete, verdicts justified |
| ReadProtocol.RunIsLater | seekserve-core/src/piece_availability.cpp:32-43 | along every run finished pieces, marked bits, the cancel flag and the clock only grow, and a deadline once set stays |
| ReadProtocol.StepSeenBy | seekserve-core/src/byte_source.cpp:75-77 | a step of anyone else changes a reader only by waking it while it sleeps |
| ByteSources.ByteSource.Read | seekserve-core/src/byte_source.cpp:24-47 | the five outcomes of a read, each exactly when; and in every run of the protocol that has a reader of the range with this verdict the outcome is justified: bytes and I/O errors only when all pieces have arrived, `cancelled` only after a cancel, `timeout` only if a piece was found missing past the deadline |
| ByteSources.ReadTellsTheTruth | seekserve-core/src/byte_source.cpp:24-47 | for every reader of every run, the outcome its verdict leads to is justified by the run, and it is `cancelled` whenever the flag was up when the read began |
| ByteSources.ByteSource.ReadFromDisk | seekserve-core/src/byte_source.cpp:49-67 | an I/O error without a file, otherwise the slice the disk holds |
| ByteSources.DiskSlice | seekserve-core/src/byte_source.cpp:61-66 | length and content of what one disk read returns, short or empty past the end |
| ByteSources.ByteSource.IsAvailable | seekserve-core/src/byte_source.cpp:69-73 | true exactly when every byte of the range lies in a complete piece |
| ByteSources.ByteSource.Cancel | seekserve-core/src/byte_source.cpp:79-82 | raises the flag and notifies once |
| ByteSources.ByteSource.NotifyPieceComplete | seekserve-core/src/byte_source.cpp:75-77 | notifies once and touches nothing else |
| StreamingSchedulers.StreamingScheduler.SetDeadlines | seekserve-core/src/streaming_scheduler.cpp:98-149 | the two loops place exactly the plan on the handle and count it, in every mode, boost, availability and playhead |
| SchedulerRaces.PlanAmidMarks | seekserve-core/src/streaming_scheduler.cpp:123-148 | with pieces marked between the loads of the two loops, the plan is the plan of one index lying between the first and the last, and holds exactly the first `budget` window pieces that were missing when looked at |
| SchedulerRaces.RequestAmidMarksIsARun | seekserve-core/src/streaming_scheduler.cpp:20-40 | a range request during which pieces are marked leaves scheduler, index and handle exactly as a run does that marks the same pieces one by one before and after an undisturbed request, so all run theorems cover such races |
| StreamingSchedulers.StreamingScheduler.PlaceHot | seekserve-core/src/streaming_scheduler.cpp:126-135 | the first loop places the plan of the hot part |
| StreamingSchedulers.StreamingScheduler.PlaceLookahead | seekserve-core/src/streaming_scheduler.cpp:137-146 | the second loop completes it with what is left of the budget |
| StreamingSchedulers.StreamingScheduler.OnRangeRequest | seekserve-core/src/streaming_scheduler.cpp:20-40 | whole new state and handle after a range request, with and without a seek, for ranges of the file, of any other, and of an empty file |
| StreamingSchedulers.StreamingScheduler.OnPieceComplete | seekserve-core/src/streaming_scheduler.cpp:42-47 | whole new state after a completion notice |
| StreamingSchedulers.StreamingScheduler.Tick | seekserve-core/src/streaming_scheduler.cpp:49-71 | whole new state and handle after a tick |
| StreamingSchedulers.StreamingScheduler.EvaluateModeSwitch | seekserve-core/src/streaming_scheduler.cpp:151-187 | next mode from mode, stall count, contiguous figure and rate; the count is reset exactly on a change |
| StreamingSchedulers.StreamingScheduler.constructor | seekserve-core/src/streaming_scheduler.cpp:9-18 | initial state: StreamingFirst, playhead on the first piece of the file |
| SchedulerModel.PlanIsFirstMissing | seekserve-core/src/streaming_scheduler.cpp:123-146 | the plan holds a window position exactly when its piece is in the file, missing, and fewer than `budget` such positions precede it; ascending, each once |
| SchedulerModel.DeadlinesRiseIff | seekserve-core/src/streaming_scheduler.cpp:126-146 | deadlines rise strictly along the window if and only if the hot part has at most 38 pieces (or there is no lookahead) |
| SchedulerModel.HotPartIsBounded | seekserve-core/src/streaming_scheduler.cpp:102-121 | size of the hot part in every mode |
| SchedulerFigures.RefreshInFigures | seekserve-core/src/streaming_scheduler.cpp:98-149 | a refresh in figures, for every mode and boost: exactly the first `budget` missing file pieces from the playhead over the hot part and what lies beyond, due after 100 + 50k ms in the hot part and 2000 + 200k beyond; the count of them; everything else as it was |
| SchedulerFigures.RequestInFigures | seekserve-core/src/streaming_scheduler.cpp:20-40 | a range request in figures: the playhead on the piece of its first byte; more than the hot window away, either way, a new boost and just the plan of `RefreshInFigures` on the handle; otherwise boost and deadlines kept, and that plan on top |
| SchedulerFigures.TickInFigures | seekserve-core/src/streaming_scheduler.cpp:49-72 | a tick in figures: playhead kept, the boost on while young enough, the stall count after a missing piece, a complete one and a change of mode, deadlines kept and the plan of the new mode on top |
| SchedulerModel.PlaceMeaning | seekserve-core/src/streaming_scheduler.cpp:132-133 | placing a plan gives each planned piece the deadline of its position and touches nothing else |
| SchedulerModel.HandleHoldsPlanAndStale | seekserve-core/src/streaming_scheduler.cpp:123-148 | one refresh: active deadlines are the plan size and within budget; the handle holds plan plus stale deadlines, just the plan exactly when no stale one was left |
| SchedulerHandle.HandleHoldsPlansSinceSeek | seekserve-core/src/streaming_scheduler.cpp:26-39 | after every run the handle holds a deadline for exactly the pieces of all plans made since the last seek |
| SchedulerBudget.HandleCanExceedBudgetIff | seekserve-core/src/streaming_scheduler.cpp:98-148 | some run takes the handle over the budget if and only if the budget is positive and below the number of missing pieces of the file, or, with a hot window of zero pieces, below that of some window of the widest size any mode has |
| SchedulerHandle.BudgetDoesNotBoundTheHandle | seekserve-core/src/streaming_scheduler.cpp:20-40 | a run of two requests from a fresh scheduler, neither a seek, after which the handle holds two deadlines under a budget of one |
| SchedulerRuns.EveryRunIsSafe | seekserve-core/src/streaming_scheduler.cpp:20-71 | over every run: 0 <= active deadlines <= budget, every deadline on a piece of the file, playhead on the piece of the last requested start, and inside the file exactly when that start lies before the end of the file's last piece |
| SchedulerRuns.OwnRequestsKeepPlayhead | seekserve-core/src/streaming_scheduler.cpp:20-40 | with requests for its own file only, the playhead stays inside the file's pieces |
| SchedulerRuns.SeekLeavesOnlyThePlan | seekserve-core/src/streaming_scheduler.cpp:26-39 | right after a seek the handle holds the new plan, each piece with the deadline of its position, and nothing else |
| SchedulerRuns.CounterIsPlanLessNotices | seekserve-core/src/streaming_scheduler.cpp:42-47 | over every run the counter is the plan size less the notices at or after the playhead, floored at zero |
| SchedulerRuns.ActiveNeverExceedsPending | seekserve-core/src/streaming_scheduler.cpp:42-47 | the counter never exceeds the planned pieces not yet notified; equal exactly when the notices are distinct planned pieces or nothing is pending |
| SchedulerRuns.AvailabilityGrows | seekserve-core/src/piece_availability.cpp:32-38 | along every run complete pieces stay complete |
| SchedulerHistory.StallCountIsCurrentRun | seekserve-core/src/streaming_scheduler.cpp:62-67 | the stall counter is the length of the longest run of stalled, mode-keeping ticks at the end of the tick history; ticks chain by mode |
| SchedulerHistory.ModesArePaidFor | seekserve-core/src/streaming_scheduler.cpp:158-186 | StreamingFirst keeps its count below the threshold; each mode has its number of stalled ticks behind it |
| SchedulerHistory.EveryTickObeysModeLaw | seekserve-core/src/streaming_scheduler.cpp:158-186 | each tick changes mode exactly when the tick history says so: threshold stalled ticks begun in StreamingFirst, 2 x threshold begun in DownloadAssist at a low rate, a buffered unstalled tick, a buffered tick; no jump between the outer modes; DownloadFirst needs 3 x threshold stalled ticks |
| SchedulerHistory.BoostLastsFromSeekToExpiry | seekserve-core/src/streaming_scheduler.cpp:26-60 | the boost is on exactly when there has been a seek and no tick since came as late as its duration |
| SchedulerRecovery.RecoveryTakesTwoTicks | seekserve-core/src/streaming_scheduler.cpp:165-180 | with the figure at a positive threshold, the stall count of StreamingFirst below its own, and no request, at most two ticks lead from any mode to StreamingFirst, for good |
| SchedulerRecovery.RecoveryAfterAnyRun | seekserve-core/src/streaming_scheduler.cpp:49-71 | the stall count is as asked after every run: whatever run has brought the figure to the threshold, two ticks without a request lead to StreamingFirst |
| SchedulerRecovery.HealthLasts | seekserve-core/src/streaming_scheduler.cpp:151-187 | one step keeps the figure at its threshold and each tick comes one mode closer |
| SchedulerRecovery.RecoveryIsPossibleIff | seekserve-core/src/streaming_scheduler.cpp:151-187 | out of StreamingFirst, some run without a request leads back to it if and only if the playhead is in the torrent and the bytes from the playhead piece to the torrent's end, less the file's offset in its first piece, reach the threshold; otherwise none does, even with every piece complete |
| SchedulerRecovery.ShortTorrentIsLost | seekserve-core/src/streaming_scheduler.cpp:151-187 | one stalled tick of a fresh scheduler after which no run without a request recovers |
| SchedulerRecovery.OffsetIsLost | seekserve-core/src/streaming_scheduler.cpp:154-156 | a stalled tick and a move after which none recovers although more bytes of the file follow than the threshold asks for |
| SchedulerRecovery.SwitchFigureAgainstBuffer | seekserve-core/src/streaming_scheduler.cpp:154-156 | the exact difference between the figure and the file bytes buffered ahead of the playhead: overrun past the file end, and the first offset of the file once the playhead has moved on |
| SchedulerRecovery.SwitchMisjudgesIff | seekserve-core/src/streaming_scheduler.cpp:154-180 | figure and buffer are equal exactly when overrun and subtracted offset are; the thresholds passed by one of them alone, exactly, and that there are any exactly when overrun and offset differ |
| SchedulerRecovery.SwitchOverrates | seekserve-core/src/streaming_scheduler.cpp:165-173 | a run that is back in StreamingFirst with fewer bytes of the file buffered than the threshold |
| SchedulerRecovery.SwitchUnderrates | seekserve-core/src/streaming_scheduler.cpp:165-173 | a run that stays in DownloadAssist, unstalled, with as many bytes of the file buffered as the threshold asks for |
| SchedulerRecovery.FigureFallsBelowZero | seekserve-core/src/streaming_scheduler.cpp:154-156 | a move to the shorter last piece, whose completion then takes the figure from 0 to -2 |
| SchedulerProgress.MostUrgentExtendsRun | seekserve-core/src/streaming_scheduler.cpp:98-149 | the planned piece with the smallest deadline is the piece right after the run of complete pieces from the playhead |
| SchedulerProgress.FedRoundGrows | seekserve-core/src/streaming_scheduler.cpp:49-149 | a tick followed by completion of its most urgent piece lengthens that run, unless the whole window was complete |
| SchedulerProgress.FedRoundsFillTheWindow | seekserve-core/src/streaming_scheduler.cpp:49-149 | more such rounds than pieces ahead of the run reach a tick whose whole window is complete, whatever modes and boosts do |
| SchedulerProgress.FedRoundExists | seekserve-core/src/streaming_scheduler.cpp:49-149 | from every safe state such a round exists: the first planned piece arrives |
| SchedulerProgress.PlanEmptyIffWindowComplete | seekserve-core/src/streaming_scheduler.cpp:123-148 | nothing is planned exactly when every file piece of the window is complete |
| PieceAvailability.PieceAvailabilityIndex.MarkComplete | seekserve-core/src/piece_availability.cpp:32-38 | marks in range, keeps the count, ignores the rest |
| PieceAvailability.PieceAvailabilityIndex.IsComplete | seekserve-core/src/piece_availability.cpp:40-43 | in range and marked |
| PieceAvailability.PieceAvailabilityIndex.IsSpanComplete | seekserve-core/src/piece_availability.cpp:45-50 | true exactly when each piece of the span is complete |
| PieceAvailability.PieceAvailabilityIndex.ContiguousFrom | seekserve-core/src/piece_availability.cpp:52-59 | the run of complete pieces from a start |
| PieceAvailability.PieceAvailabilityIndex.ContiguousBytesFrom | seekserve-core/src/piece_availability.cpp:61-77 | the run of bytes from an offset in a piece |
| PieceAvailability.PieceAvailabilityIndex.Progress | seekserve-core/src/piece_availability.cpp:79-83 | the complete share of the pieces, zero without pieces; between 0 and 1, and 1 exactly when there are pieces and all are marked |
| PieceAvailability.PieceAvailabilityIndex.Reset | seekserve-core/src/piece_availability.cpp:21-30 | all pieces unmarked under the new geometry |
| PieceAvailability.PieceAvailabilityIndex.constructor | seekserve-core/src/piece_availability.cpp:9-19 | all pieces unmarked |
| PieceAvailability.LongestCompleteRun | seekserve-core/src/piece_availability.cpp:61-77 | from an offset inside its piece the figure is the length of the longest all-complete byte run there, shorter last piece included, zero exactly when the piece run is |
| PieceAvailability.ContiguousBytesMeaning | seekserve-core/src/piece_availability.cpp:52-77 | the figure is the distance from the offset to the end of the run contiguous_from counts |
| PieceAvailability.FigureNeverFallsIff | seekserve-core/src/piece_availability.cpp:61-77 | no marking lowers the figure, if and only if it is not about the last piece, unmarked, with an offset beyond its length |
| PieceAvailability.PositiveFigureNeverFalls | seekserve-core/src/piece_availability.cpp:61-77 | once positive the figure never falls |
| PieceAvailability.RunsGrow | seekserve-core/src/piece_availability.cpp:52-77 | both runs grow with the marked pieces |
| PieceAvailability.MarkCountsOnce | seekserve-core/src/piece_availability.cpp:34-37 | marking counts the first time only and is idempotent |
| PieceAvailability.ShareBounds | seekserve-core/src/piece_availability.cpp:79-83 | a share times its whole is the part; between 0 and 1, 1 exactly for a whole, 0 without one |
| PieceAvailability.SpanCompleteIffBytesComplete | seekserve-core/src/piece_availability.cpp:45-50 | a mapped span is complete exactly when every byte of the range lies in a complete piece |
| ConcurrentMarking.SetBitsAreCountedOrPending | seekserve-core/src/piece_availability.cpp:32-38 | in every interleaving: set bits = counter + threads between exchange and increment |
| ConcurrentMarking.BitsAreWhatWasAsked | seekserve-core/src/piece_availability.cpp:32-38 | a bit is set exactly when it was at the start or some thread was asked to mark it |
| ConcurrentMarking.CounterExactAtRest | seekserve-core/src/piece_availability.cpp:79-83 | with no thread in between, the counter is exact |
| ConcurrentMarking.RestDoesNotDependOnOrder | seekserve-core/src/piece_availability.cpp:32-38 | two runs asked for the same pieces rest in the same state |
| ByteRangeMapping.SpanIsExact | seekserve-core/src/byte_range_mapper.cpp:18-36 | the clamp never bites; first offset, last length and byte count of the span are those of the range |
| ByteRangeMapping.PieceMeetsRange | seekserve-core/src/byte_range_mapper.cpp:18-36 | the span holds exactly the pieces that hold a byte of the range |
| ByteRangeMapping.SpanStaysInFile | seekserve-core/src/byte_range_mapper.cpp:40-48 | the span lies within [first_piece, end_piece), inside the torrent |
| ByteRangeMapping.FilePieces | seekserve-core/src/byte_range_mapper.cpp:40-48 | [first_piece, end_piece) holds exactly the pieces with a byte of the file; for an empty file it is empty, at the piece of its offset |
| ByteRangeMapping.MapFileTruncates | seekserve-core/src/byte_range_mapper.cpp:18-25 | piece and start make up the torrent byte, by truncating division |
| ByteRangeMapping.OffsetInsidePiece | seekserve-core/src/byte_range_mapper.cpp:27-33 | an offset within a piece is below its size, also in the last piece |
| TorrentLayout.EngineGeometry | seekserve-serve/src/engine.cpp:245-248 | the last piece computed for the index is non-empty and no longer than the others, and the pieces add up to the torrent |
| MetadataCatalogue.MetadataCatalog.OnMetadataReceived | seekserve-core/src/metadata_catalog.cpp:9-45 | first metadata kept; every file described by the piece range its mapper works in |
| MetadataCatalogue.MetadataCatalog.GetFile | seekserve-core/src/metadata_catalog.cpp:61-71 | both error cases exactly, and the description otherwise |
| MetadataCatalogue.MetadataCatalog.SelectFile | seekserve-core/src/metadata_catalog.cpp:73-97 | both error cases exactly; the selection and one file prioritised |
| MetadataCatalogue.MetadataCatalog.Remove | seekserve-core/src/metadata_catalog.cpp:47-50 | forgets one torrent |
| MetadataCatalogue.FilesLieEndToEnd | seekserve-core/src/metadata_catalog.cpp:24-39 | the files described carry their index and lie end to end, from byte zero to the torrent's last |
| MetadataCatalogue.RangesAreOrdered | seekserve-core/src/metadata_catalog.cpp:24-39 | ranges of non-empty files are ordered and share at most one piece |
| MetadataCatalogue.NeighboursLeaveNoGap | seekserve-core/src/metadata_catalog.cpp:24-39 | the next non-empty file begins no later than the previous one ends |
| MetadataCatalogue.RangesCoverTorrent | seekserve-core/src/metadata_catalog.cpp:24-39 | a piece belongs to the torrent exactly when some non-empty file has it |
| RangeParser.ParseRangeHeader | seekserve-serve/src/range_parser.cpp:5-83 | the parsed value for every string, with 0 <= start <= end < size whenever accepted |
| RangeParser.InterpretParts | seekserve-serve/src/range_parser.cpp:34-82 | the three forms and the clamp |
| RangeParser.TrimFront | seekserve-serve/src/range_parser.cpp:19-19 | removes exactly the leading spaces |
| RangeParser.TrimBack | seekserve-serve/src/range_parser.cpp:20-20 | removes exactly the trailing spaces |
| RangeParser.Interpret | seekserve-serve/src/range_parser.cpp:34-82 | an accepted range lies inside the file |
| RangeParser.ParseAtDash | seekserve-serve/src/range_parser.cpp:13-32 | parsing is interpreting the two trimmed sides of the first dash |
| RangeParser.AcceptedHasUnit | seekserve-serve/src/range_parser.cpp:5-29 | only a header that begins with `bytes=`, holds no comma and holds a dash is ever accepted, and for no empty file |
| RangeParser.AcceptedIff | seekserve-serve/src/range_parser.cpp:34-82 | for every text around the first dash, in the grammar or not: accepted as a range exactly when the numbers read from the trimmed sides stand for it |
| RangeParser.PaddingAroundSpec | seekserve-serve/src/range_parser.cpp:19-20 | spaces around any spec change nothing |
| RangeParser.PaddingAroundDash | seekserve-serve/src/range_parser.cpp:31-32 | spaces around the first dash change nothing |
| Decimal.StollMeaning | seekserve-serve/src/range_parser.cpp:37-42 | the integer read from any text with a number: leading white space, sign and digits, whatever follows, or a failure beyond 64 bits |
| Decimal.StollOfDigits | seekserve-serve/src/range_parser.cpp:37-42 | on plain digits the integer read is their value, or a failure beyond 64 bits |
| Decimal.StollNeedsDigits | seekserve-serve/src/range_parser.cpp:37-42 | a text with no digit after white space and a sign has no number |
| Decimal.Print | seekserve-serve/src/http_range_server.cpp:438-440 | decimal digits of a number, without leading zeros |
| Rfc7233.GrammarParsesAsRfc | seekserve-serve/src/range_parser.cpp:5-83 | every single range of the RFC 7233 grammar is accepted exactly when valid, satisfiable (section 4.4) and its last number fits 64 bits, and denotes exactly the bytes of section 2.1 |
| Rfc7233.SatisfiableIffSomeByte | seekserve-serve/src/range_parser.cpp:60-77 | for valid specs the satisfiability condition is that some byte is denoted |
| Rfc7233.PrintedRangeParsesBack | seekserve-serve/src/range_parser.cpp:65-82 | printing a range of the file and parsing it gives it back |
| Rfc7233.ParsePrintParse | seekserve-serve/src/range_parser.cpp:5-83 | parse, print, parse is parse, for every header |
| Rfc7233.SuffixNormalises | seekserve-serve/src/range_parser.cpp:35-47 | suffix form = its closed form |
| Rfc7233.OpenEndedNormalises | seekserve-serve/src/range_parser.cpp:59-63 | open form = its closed form |
| Rfc7233.OverlongNormalises | seekserve-serve/src/range_parser.cpp:79-82 | closed form past the end = the closed form at the end |
| Rfc7233.NegativeSuffixIsRefused | seekserve-serve/src/range_parser.cpp:35-43 | a suffix with a second dash is refused |
| Rfc7233.OversizedLastIsRefused | seekserve-serve/src/range_parser.cpp:66-71 | a satisfiable range whose last number exceeds 64 bits is refused |
| HttpRangeServer.StreamBody | seekserve-serve/src/http_range_server.cpp:311-357 | every read inside the file; output always a prefix of the range, from waits that succeeded; the stream finishes, fails to write or fails to read exactly where and as its header, writes and reads do; when finished all the disk holds of the range is sent, in ceil(length/65536) reads when whole |
| HttpRangeServer.StreamedBytesArrived | seekserve-serve/src/http_range_server.cpp:333-356 | in every run whose reads account for the waits of a stream, all bytes streamed lie in pieces the index has and libtorrent has finished |
| HttpRangeServer.Serve | seekserve-serve/src/http_range_server.cpp:296-454 | for every method, from header to last byte: status, Content-Length, and a body that is a prefix of the announced one; finished exactly when header, reads and writes all go well, as they do with every wait a success, a peer that takes all, no cancel and the file there; a file range lies in finished pieces in every run that accounts for its waits and, when finished, is exactly the slice precisely when the range ends within the file on disk; a text is as long as announced; an empty file has an empty body and a reported range ending at -1 |
| HttpRangeServer.ResponseFollowsRfc | seekserve-serve/src/http_range_server.cpp:421-454 | for the RFC 7233 grammar: 206 or 416 as sections 4.1 and 4.4 ask (oversized last number apart), body and Content-Length the denoted bytes, Content-Range (section 4.2) parsing back to the range; HEAD has the same header, and no body exactly where GET gets a 206, but the text of the 416 elsewhere |
| HttpRangeServer.HeadIsBodylessIff | seekserve-serve/src/http_range_server.cpp:358-454 | the answer to a HEAD has no body if and only if it sends no Range header or one that parses; otherwise it is the answer to a GET, text and all |
| HttpRangeServer.RejectedHeadHasBody | seekserve-serve/src/http_range_server.cpp:421-430 | a HEAD for the bytes from the file's end on is answered with 21 bytes of text, whatever the file |
| HttpRangeServer.UnrangedResponses | seekserve-serve/src/http_range_server.cpp:359-419 | the answers to a GET and a HEAD without a Range header and to other methods, in full |
| HttpRangeServer.OtherHeadersGet416 | seekserve-serve/src/http_range_server.cpp:421-430 | a header in another unit, with a comma, without a dash or for an empty file is answered 416, in full, and reports nothing |
| HttpRangeServer.AnnouncedRangeGetsSameResponse | seekserve-serve/src/http_range_server.cpp:421-454 | for every header answered 206, the grammar's or not, asking for the positions announced gets the identical response |
| HttpRangeServer.ContentRangeIsPrintedRange | seekserve-serve/src/http_range_server.cpp:438-440 | Content-Range prints the range as a Range header would |
| OfflineCache.OfflineCacheManager.EnforceQuota | seekserve-core/src/offline_cache.cpp:233-284 | untouched when unlimited or within quota; otherwise the shortest prefix of the least-recently-used order evicted that meets the quota |
| OfflineCache.OfflineCacheManager.Victims | seekserve-core/src/offline_cache.cpp:260-267 | the greedy loop finds that prefix |
| OfflineCache.OfflineCacheManager.DeleteRows | seekserve-core/src/offline_cache.cpp:276-282 | the delete loop removes exactly it |
| OfflineCache.SecondCallEvictsNothing | seekserve-core/src/offline_cache.cpp:250-250 | a second call evicts nothing |
| OfflineCache.SurvivorsAreNewer | seekserve-core/src/offline_cache.cpp:252-267 | nothing kept is older than anything evicted |
| OfflineCache.KeptIff | seekserve-core/src/offline_cache.cpp:233-282 | the fate of each entry: kept, as it was, exactly when there is no quota or it and those after it in the order fit |
| OfflineCache.SurvivesEveryOrderIff | seekserve-core/src/offline_cache.cpp:253-267 | an entry survives whatever order ties come in if and only if the entries touched no earlier, itself included, fit the quota |
| OfflineCache.SurvivesSomeOrderIff | seekserve-core/src/offline_cache.cpp:253-267 | it survives in some order if and only if it and the entries touched later fit the quota |
| OfflineCache.MostRecentSurvives | seekserve-core/src/offline_cache.cpp:252-267 | the strictly newest entry survives if it fits the quota |
| OfflineCache.AccessedFileSurvives | seekserve-core/src/offline_cache.cpp:156-174 | a file accessed now is safe from the next enforcement, whatever the order of ties, if and only if it and the files accessed in the same second fit the quota; alone in its second, if and only if it fits |
| OfflineCache.LruOrderExists | seekserve-core/src/offline_cache.cpp:253-256 | every table has a least-recently-used order |
| OfflineCache.TotalIsSum | seekserve-core/src/offline_cache.cpp:237-248 | the sum over scanned rows is the total of the table |
| OfflineCache.OfflineCacheManager.OnTorrentAdded | seekserve-core/src/offline_cache.cpp:73-106 | the loop inserts each file in turn that has no row yet |
| OfflineCache.InsertedKeepsKnown | seekserve-core/src/offline_cache.cpp:77-81 | known rows are kept, new rows are those of the files, every file has one |
| OfflineCache.AddingTwiceIsAddingOnce | seekserve-core/src/offline_cache.cpp:77-81 | adding a torrent again changes nothing |
| OfflineCache.OfflineCacheManager.OnAccess | seekserve-core/src/offline_cache.cpp:156-174 | sets the last access of the row, if there is one |
| OfflineCache.ReadyIffCompletedAndKept | seekserve-core/src/offline_cache.cpp:132-154 | over every history of insertions, progress, completions, accesses and evictions a row is ready exactly when it began so or a completion reached it, and it has not been gone since |
| OfflineCache.LastAccessIsLastTouch | seekserve-core/src/offline_cache.cpp:108-174 | over every history the last access of a row that has been touched, which orders eviction, is the time of its last progress update, completion or access |
| OfflineCache.LastAccessOrigin | seekserve-core/src/offline_cache.cpp:73-174 | over every history every row has its last access from its last touch, or without one from its insertion, or from the database |
| OfflineCache.ColumnsStep | seekserve-core/src/offline_cache.cpp:73-174 | what each operation makes of each column of each row that is there afterwards |
| OfflineCache.RowsStep | seekserve-core/src/offline_cache.cpp:73-174 | which rows each operation leaves: updates neither insert nor remove |
| OfflineCache.SizeIsFromInsertion | seekserve-core/src/offline_cache.cpp:73-106 | over every history a row has the size and age it was inserted or stored with |
| OfflineCache.ProgressIsLastReport | seekserve-core/src/offline_cache.cpp:108-154 | over every history a row has the progress last reported for it, 1 from a completion, 0 from its insertion, or the one stored |
| OfflineCache.OfflineCacheManager.IsOfflineReady | seekserve-core/src/offline_cache.cpp:209-231 | true exactly when the row was found ready in the database, or a completion has reached it since, and it has been kept without a break |
| Engine.TorrentState.SelectFile | seekserve-serve/src/engine.cpp:242-278 | index with the geometry of the layout holding exactly the snapshot, and a fresh scheduler over it, empty files included |
| Engine.Prepopulate | seekserve-serve/src/engine.cpp:256-263 | the copy loop marks exactly the pieces of the snapshot |
| Engine.TorrentState.PieceFinished | seekserve-serve/src/engine.cpp:114-127 | a finished piece is a mark, then a notice, of the run model, and one notification of the source |
| Engine.TorrentState.RangeRequested | seekserve-serve/src/engine.cpp:284-291 | the range callback is a request step of the run model, whichever file the range is for |
| Engine.TorrentState.OnTick | seekserve-serve/src/engine.cpp:441-460 | a tick step of the run model, then the complete share of the file's pieces: between 0 and 1, and 1 exactly when there are pieces and all are complete |
| Engine.CompleteShare | seekserve-serve/src/engine.cpp:450-460 | the share written to the cache: share x pieces = complete pieces, between 0 and 1, 1 exactly when there are pieces and all are complete |
| Engine.CountComplete | seekserve-serve/src/engine.cpp:450-456 | the counting loop gives the number of complete pieces of the file |

## Left out

- SchedulerModel.HotPartIsBounded: window sizes, boost and budget are natural numbers; the program reads them as plain integers and negative configuration values are not modelled.
- StreamingSchedulers.StreamingScheduler.SetDeadlines: the index stands still during a call of the class; that marks landing between the loads make no difference a run could not make is the subject of SchedulerRaces. Only range requests race with marks: ticks and notices hold the engine's lock.
- StreamingSchedulers.StreamingScheduler.OnRangeRequest: starts below zero, which the server never sends, are not modelled; offsets outside the torrent follow the division of those inside, truncated as in C++, because libtorrent's own handling of them is not part of this model.
- SchedulerBudget.HandleCanExceedBudgetIff: download rates are any integers, and the case of a hot window of zero pieces asks for an index that covers the file.
- ByteSources.ByteSource.Cancel: the contract says that the flag is up and a notification sent; what readers may see between the two is the subject of ReadProtocol.
- PieceAvailability.PieceAvailabilityIndex.Progress: shares are exact quotients; rounding to single precision is not modelled, here and in the tick handler.
- ReadVerdicts.SomeoneCanStep: fairness of the operating system's scheduler and mutex is not modelled, so termination is a bound on own steps plus the absence of deadlock.
- StreamingSchedulers.StreamingScheduler.EvaluateModeSwitch: the rate threshold is a real number; rounding of the double it is stored in is not modelled.
- OfflineCache.OfflineCacheManager.EnforceQuota: sizes are natural numbers and sums are unbounded; failing SQL statements, the time to live and the torrents table are left out.
- Rfc7233.GrammarParsesAsRfc: headers outside the grammar that the integer reader lets through (plus signs, trailing text) are covered by soundness and by StollMeaning, not compared with the RFC.
- libtorrent itself (sessions, peers, alert delivery, dropping a deadline when its piece arrives) is not part of this model; piece indices are unbounded integers.
- File paths, MIME types, URL and token handling, sockets, accept loops and connection counting, and the registry of byte sources are left out.
- The loops over all torrents in the tick handler and the lookup of a torrent's state: one torrent at a time is modelled.
- Lifetime of the torrent state and of the scheduler captured by the range callback: objects are never freed in the model.
- Memory ordering: loads and stores of the flags are sequentially consistent steps.
- The C API, control API, demo program, Flutter code and build scripts are glue or user interface.

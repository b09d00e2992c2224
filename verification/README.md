# Verification of the diagnostic fault library and the diagnostic fault manager

This project models the fault path of the repository, from a reporter in an application to the
status byte a diagnostic tool reads, and proves what that path guarantees over whole runs.

Records of a fault go through a debouncer in the reporter (`Reporter`), over a retrying worker
(`RetryQueue`, `RetryPasses`, `IpcWorker`), into the receive loop of the manager (`DfmLoop`, `LoopOrder`), through a second
debouncer and an aging policy (`FaultRecordProcessor`, `Aging`, `OperationCycles`) into a keyed
store (`StorageKeys`, `Storage`), and out again as codes, masks and timestamps (`SovdCodes`,
`SovdFaults`, `SovdFaultManager`, `Calendar`, `Timestamps`, `QueryConversion`, `QueryServer`). Enabling
conditions run beside it, between all libraries and one registry (`EnablingConditions`,
`EnablingProtocol`).

Objects that the program updates in place are classes with the same fields, and each method is
proved against a function on values (`Debounce.EventStep`, `FaultProcessing.Step`,
`RetryQueue.QueueStep`, `EnablingConditions.Learn`, ...). What the program promises is then proved
about those functions, over every sequence of inputs:

- `DebounceLaws`, `DebouncePipeline`: the debouncers refine a specification over the full history.
- `FaultRuns`, `FaultHistory`, `FaultAging`, `FaultCounters`, `FaultOccurrences`, `FaultDeletion`,
  `FaultRecurrence`: the stored state of a fault is a function of its own history, bit by bit, counter by
  counter; when deletions and suppressed failures break what is promised of it.
- `LoopOrder`: which received fault is which step of the manager's loop.
- `RetryLaws`, `RetryPasses`, `DeliveryOrder`: conservation, order and timing of retries against an arbitrary publisher,
  and the order in which messages are accepted.
- `EnablingProtocol`: agreement of all libraries when the channels are empty, and alternation.

Clock readings, wall time, the answers of the transport and the polled cycle events are inputs.
A record, a clear, a cycle boundary, a deletion and a restart of the manager are atomic steps.

Verify with `dafny verify dfyconfig.toml`.

## Where the code departs from its documentation

- `should_reset_debouncer` (`src/fault_lib/src/reporter.rs:184-195`) is meant to keep a fresh
  occurrence after Passed from being suppressed. `DebouncePipeline.ReoccurrenceReported` gives the
  exact condition: it holds with no debouncer, a window of count at most 1, or a cooldown of 0, and
  `Reporter.ReoccurrenceCanBeDropped` shows a hold time dropping it.
- The progression documented at `src/fault_lib/src/ipc_worker.rs:90` starts at 100 ms. The count is
  raised before the delay is computed, so the first delay used is that for one attempt, 200 ms
  (`RetryLaws.DefaultDelay`), and the very first retry has no delay.
- A failure whose policy asks for zero cycles clears itself in its own step
  (`FaultAging.FailureResetsItself`), and any accepted record can trigger the reset, not only Passed.
- Any sign of fault activity is meant to keep a fault alive (`src/dfm_lib/src/fault_record_processor.rs:184-186`),
  and a policy to clear it without recurrence (`src/common/src/config.rs:29`). A failure that the debouncer
  suppresses does not restart the wait. `FaultRecurrence.RecurrenceIsIgnored` gives the exact
  configurations: a debouncer that can suppress, with a policy or gate that asks for a cycle, or for a stable
  time longer than the shortest gap after a suppressed failure (one tick for a cooldown or a hold time above 0,
  otherwise 0).
  `FaultRecurrence.SuppressedFailureExample` is such a run.
- Retries keep no order: a Failed that waits for a retry can be accepted after a later Passed sent
  directly, and the manager's status follows the order of acceptance. `DeliveryOrder.OrderIsLost`: some future
  accepts an older message later exactly if an older one is queued now.
- Deleting a fault leaves its aging entry behind, so a later record can count a healing without an
  occurrence. `FaultDeletion.DeletionBreaksAccounting` gives the exact condition, for every policy and
  every debouncer: at the deletion the last failure is not healed, and the policy can still come due
  (never without a policy or with `ToolOnly`). `FaultDeletion.DeletionExample` is such a run.
- The aging window is said to restart from 0 when the manager restarts
  (`src/dfm_lib/src/aging_manager.rs:27-34`). The code keeps no entry at all, so the window does not run
  until the fault fails again: `FaultAging.ConfirmedOutlivesRestart`.
- The worker's first receive (`src/fault_lib/src/ipc_worker.rs:338-342`) expects Start but takes any
  message, and a fault or Exit that comes first is lost (`IpcWorker.IpcWorker.Run`).
- A text identifier that reads as a number or a UUID can be listed but never be addressed by its
  code (`SovdCodes.CodeRoundTrip`, `SovdFaultManager.AmbiguousFaultIsNeverRead`).

## Model

| member | source | states |
|---|---|---|
| Calendar.CivilIsCalendar | src/dfm_lib/src/sovd_fault_manager.rs:294-306 | the div/mod formula gives, for every day from the epoch on, the date a plain Gregorian calendar reaches by stepping day by day; all unsigned subtractions stay non-negative |
| Calendar.CivilSteps | src/dfm_lib/src/sovd_fault_manager.rs:294-306 | for every day number the shifted arithmetic can hold, before the epoch too, one day more is the next calendar date |
| Calendar.DaysOfCalendarDate | src/dfm_lib/src/query_conversion.rs:269-280 | counting days inverts the calendar: the n-th date has day number n |
| Calendar.CalendarOfDays | src/dfm_lib/src/query_conversion.rs:269-280 | every valid date from 1970 on is the date its day number leads back to |
| Calendar.DaysRollOver | src/dfm_lib/src/query_conversion.rs:236-243 | a day past the end of its month, which the parser lets through, counts on into the next month |
| Timestamps.FormatIsLayout | src/dfm_lib/src/sovd_fault_manager.rs:259-282 | the text is the calendar date and time of day in fixed columns, clamped to the last second of 9999 |
| Timestamps.ParseU64 | src/dfm_lib/src/query_conversion.rs:248-257 | the accumulating loop returns the decimal value, or 0 if any byte is no digit, for all bytes on which it does not overflow |
| Timestamps.ParseOfFormat | src/dfm_lib/src/query_conversion.rs:209-244 | 20 characters always, and parsing gives the time back, clamped, for every 64-bit second |
| Timestamps.FormatOfParse | src/dfm_lib/src/query_conversion.rs:209-244 | for every text: parsing and printing gives it back exactly if it is the fixed layout of an existing date from 1970 on, so never with other separators or a day past its month |
| Timestamps.ParseTimestamp | src/dfm_lib/src/query_conversion.rs:209-244 | the parser as it runs, column by column through the accumulating loop, is the function the laws are about; its columns never overflow |
| Timestamps.FormatOrder | src/dfm_lib/src/sovd_fault_manager.rs:259-282 | texts compare byte by byte exactly as the times do |
| Digits.FromStrRadixOfPrint | src/dfm_lib/src/sovd_fault_manager.rs:422-456 | a number printed in base 10 or 16 parses back, in either letter case |
| Debounce.CountWithinWindow.OnEvent | src/common/src/debounce.rs:152-168 | the two popping loops perform one step of the window debouncer |
| Debounce.CountWithinWindow.Reset | src/common/src/debounce.rs:170-172 | forgets every event |
| Debounce.HoldTime.OnEvent | src/common/src/debounce.rs:216-225 | performs one step of the hold-time debouncer |
| Debounce.HoldTime.Reset | src/common/src/debounce.rs:227-229 | forgets the start |
| Debounce.EdgeWithCooldown.OnEvent | src/common/src/debounce.rs:252-275 | performs one step of the cooldown debouncer |
| Debounce.EdgeWithCooldown.Reset | src/common/src/debounce.rs:277-279 | anchors the cooldown at the reset |
| DebounceLaws.SlidingWindowRefines | src/common/src/debounce.rs:152-173 | the capped deque decides exactly as the set of all events since the reset, for every count including 0, and never exceeds the cap |
| DebounceLaws.DebouncerRefines | src/common/src/debounce.rs:134-280 | each of the three modes reports exactly what its specification over the whole history accepts |
| DebounceLaws.CooldownSpacing | src/common/src/debounce.rs:252-280 | run over any history, the debouncer reports at least a cooldown after everything it reported before and after every reset |
| DebounceLaws.CooldownSuppression | src/common/src/debounce.rs:252-280 | an event the debouncer suppresses has a report of its own or a reset within the cooldown before it |
| DebounceLaws.CooldownRateBound | src/common/src/debounce.rs:252-280 | over any history the debouncer reports at most L / cooldown + 1 times in an interval of length L |
| DebouncePipeline.ProcessReaches | src/dfm_lib/src/fault_record_processor.rs:108-123 | after each record, debouncer and last stage again stand for the whole history, suppressed records included |
| DebouncePipeline.ProcessRefines | src/dfm_lib/src/fault_record_processor.rs:232-286 | a record passes exactly when the specification debouncer, restarted at each resetting transition, accepts it |
| DebouncePipeline.HeldRecordPasses | src/dfm_lib/src/fault_record_processor.rs:280-286 | for all 25 pairs of stages on both sides: a hold time that has run out lets the record through exactly if the pair is none of Passed-Failed, Passed-PreFailed and, at the manager, NotTested-Failed |
| DebouncePipeline.ReoccurrenceReported | src/fault_lib/src/reporter.rs:184-195 | the exact condition under which a failure right after Passed is not suppressed |
| Reporter.NewReporter | src/fault_lib/src/reporter.rs:102-123 | the first of sink, catalog and descriptor that is missing is the error; otherwise a new reporter stands for the empty log |
| Reporter.Reporter.Publish | src/fault_lib/src/reporter.rs:146-182 | over every run the sink has been given exactly the records the specification of the reporter-side debounce lets through, in order; a suppressed record is answered with success, a delivered one with the sink's answer |
| Reporter.PublishStandsFor | src/fault_lib/src/reporter.rs:146-182 | the invariant behind it: one publication keeps debouncer, stage and sink in step with the log |
| Reporter.ReoccurrenceCanBeDropped | src/fault_lib/src/reporter.rs:184-195 | a hold-time debouncer always drops the failure right after Passed |
| OperationCycles.OperationCycleTracker.Increment | src/dfm_lib/src/operation_cycle.rs:123-127 | raises the named counter by one, saturating at 64 bits, and returns it |
| OperationCycles.OperationCycleTracker.Get | src/dfm_lib/src/operation_cycle.rs:131-133 | an unknown counter reads as 0 |
| OperationCycles.OperationCycleTracker.Snapshot | src/dfm_lib/src/operation_cycle.rs:137-140 | returns all counters |
| OperationCycles.OperationCycleTracker.ApplyEvents | src/dfm_lib/src/operation_cycle.rs:150-164 | each counter rises by the number of positions of the batch that start or restart its cycle, saturating; the names returned are those of all starts and restarts, in order |
| OperationCycles.ApplyCounts | src/dfm_lib/src/operation_cycle.rs:150-164 | a batch moves a counter by its ticks, saturating, whatever it stood at |
| OperationCycles.TicksArePositions | src/dfm_lib/src/operation_cycle.rs:153-162 | the ticks of a batch are its positions with that cycle id whose type is Start or Restart, never Stop |
| StorageKeys.FillBytes | src/dfm_lib/src/sovd_fault_storage.rs:484-492 | the byte-filling loop parses 16 pairs of hex digits, or fails at the first bad pair |
| StorageKeys.KeyRoundTrip | src/dfm_lib/src/sovd_fault_storage.rs:450-500 | decoding undoes encoding for every identifier of every kind |
| StorageKeys.KeysAreInjective | src/dfm_lib/src/sovd_fault_storage.rs:450-463 | two identifiers never share a key |
| StorageKeys.KeyText | src/dfm_lib/src/sovd_fault_storage.rs:450-463 | the written form: tag n and the decimal number, tag t and the text, tag u and 32 digits that parse as the bytes |
| StorageKeys.OlderKeyReads | src/dfm_lib/src/sovd_fault_storage.rs:465-500 | a key without a tag, as older stores have them, reads as text |
| Storage.KvsRoundTrip | src/dfm_lib/src/sovd_fault_storage.rs:95-268 | a state can be written exactly if its times fit i64, and then reads back as written |
| Storage.ReadsExactly | src/dfm_lib/src/sovd_fault_storage.rs:159-268 | a stored value reads as a state exactly if it is an object that holds each field of it in range |
| Storage.OlderStoreReads | src/dfm_lib/src/sovd_fault_storage.rs:178-212 | values written before the counters existed read with all counters and times 0 |
| Storage.KvsStorage.Put | src/dfm_lib/src/sovd_fault_storage.rs:356-376 | the nested string map stands for the map over (path, fault) with this one state replaced, or unchanged on a serialisation error |
| Storage.UnreadableIsError | src/dfm_lib/src/sovd_fault_storage.rs:395-415 | a read is an error exactly if there is an entry that does not decode, and none exactly if there is no entry |
| Storage.KvsStorage.Get | src/dfm_lib/src/sovd_fault_storage.rs:395-415 | returns the state of that path and fault, none, or the error of an entry that cannot be read |
| Storage.KvsStorage.GetAll | src/dfm_lib/src/sovd_fault_storage.rs:378-393 | lists exactly the path's faults, each once; fails exactly if some entry does not decode |
| Storage.KvsStorage.Delete | src/dfm_lib/src/sovd_fault_storage.rs:427-443 | removes exactly this fault; tells an unknown path from an unknown fault |
| Storage.KvsStorage.DeleteAll | src/dfm_lib/src/sovd_fault_storage.rs:417-425 | removes exactly this path's faults |
| Storage.RepresentsAfterPut | src/dfm_lib/src/sovd_fault_storage.rs:356-376 | the representation survives an insertion because keys are injective and typed |
| FaultRecordProcessor.FaultRecordProcessor.HandleLifecycleTransition | src/dfm_lib/src/fault_record_processor.rs:265-286 | restarts this fault's debouncer exactly from Passed to Failed or PreFailed, and from NotTested to Failed |
| FaultRecordProcessor.FaultRecordProcessor.GetOrCreateDebouncer | src/dfm_lib/src/fault_record_processor.rs:242-261 | a debouncer exists afterwards exactly if there was one or the catalog configures one |
| FaultRecordProcessor.FaultRecordProcessor.CheckDebounce | src/dfm_lib/src/fault_record_processor.rs:232-237 | asks this fault's debouncer, created on first use; without one the record passes |
| FaultRecordProcessor.FaultRecordProcessor.MarkAgingActive | src/dfm_lib/src/fault_record_processor.rs:290-299 | restarts this fault's aging entry at the current counters and time |
| FaultRecordProcessor.FaultRecordProcessor.HasWarningTag | src/dfm_lib/src/fault_record_processor.rs:305-318 | the loop over the tags finds SafetyCritical or EmissionRelevant; a fault without a descriptor has neither |
| FaultRecordProcessor.FaultRecordProcessor.UpdateForStage | src/dfm_lib/src/fault_record_processor.rs:136-199 | the flags, counters and times each lifecycle stage changes; the warning bit for the two tags alone, and a fault stays confirmed past Passed exactly with a reset policy |
| FaultRecordProcessor.FaultRecordProcessor.EvaluateAging | src/dfm_lib/src/fault_record_processor.rs:201-210 | clears the latched flags exactly if the policy fires, and marks the entry healed |
| FaultRecordProcessor.FaultRecordProcessor.ProcessRecord | src/dfm_lib/src/fault_record_processor.rs:94-228 | one record moves all maps, the store and nothing else by exactly one step of the specification |
| FaultRecordProcessor.FaultRecordProcessor.CheckHashSum | src/dfm_lib/src/fault_record_processor.rs:378-391 | true exactly if the path has a catalog and its hash is the one asked about |
| FaultRecordProcessor.FaultRecordProcessor.ClearDtc | src/dfm_lib/src/fault_record_processor.rs:324-338 | the loop of puts clears the two since-last-clear flags of exactly this path's faults |
| FaultRecordProcessor.FaultRecordProcessor.OnNewOperationCycle | src/dfm_lib/src/fault_record_processor.rs:344-357 | the loop of puts clears the two this-cycle flags of exactly this path's faults |
| FaultRuns.KeyProjection | src/dfm_lib/src/fault_record_processor.rs:94-357 | over every run, everything kept about a fault is what its own records, the ticks and the actions on its path leave |
| FaultRuns.StepProjects | src/dfm_lib/src/fault_record_processor.rs:94-357 | seen from one fault, a step of the whole manager is a step of that fault alone |
| FaultRuns.ManagerDebounceRefines | src/dfm_lib/src/fault_record_processor.rs:108-123 | over every run, a record gets through exactly if the specification debouncer accepts it after the fault's records since the restart |
| FaultHistory.StatusByteIsHistory | src/dfm_lib/src/fault_record_processor.rs:136-210 | in every reachable state each of the eight status bits is set exactly if some mark set it and none since unset it |
| FaultHistory.ManagerStatusIsHistory | src/dfm_lib/src/fault_record_processor.rs:94-357 | the same of the whole manager with all its faults and sources |
| FaultHistory.WarningBitIsHistory | src/dfm_lib/src/fault_record_processor.rs:301-318 | in every reachable state bit 7 is set exactly if the registered descriptor is tagged SafetyCritical or EmissionRelevant and a stored failure that did not reset has seen no reset and no deletion since |
| FaultHistory.PendingImpliesTestFailed | src/dfm_lib/src/fault_record_processor.rs:136-199 | a pending fault is failing its test, in every reachable state |
| FaultHistory.ConfirmedStaysLatched | src/dfm_lib/src/fault_record_processor.rs:157-167 | with an aging policy, only a reset or a deletion unconfirms a fault |
| FaultAging.CyclesOverRun | src/dfm_lib/src/operation_cycle.rs:123-164 | over every run each counter shows its ticks since the restart, saturated |
| FaultAging.AgingOverRun | src/dfm_lib/src/aging_manager.rs:25-75 | the aging entry stands for the last accepted failure since the restart: its time, its counters, and whether a reset came since |
| FaultAging.AgingResetExact | src/dfm_lib/src/aging_manager.rs:99-158 | an accepted record resets the fault exactly if a failure waits unhealed and policy and gate are due, counted from that failure |
| FaultAging.FailureResetsItself | src/dfm_lib/src/aging_manager.rs:99-158 | a failure clears itself exactly if every threshold of its policy is zero, never with a cycle threshold of at least 1 |
| FaultAging.ConfirmedOutlivesRestart | src/dfm_lib/src/aging_manager.rs:25-42 | with a policy, a restart leaves confirmed as it was over every run until a failure is accepted or the fault deleted |
| FaultAging.AdvancedCountsTicks | src/dfm_lib/src/aging_manager.rs:123-158 | below saturation the distance is the number of ticks since the failure |
| FaultCounters.KeptExactly | src/dfm_lib/src/sovd_fault_storage.rs:95-156 | an accepted record is stored unless it is a failure at a wall time past i64 |
| FaultCounters.RecordMarkIsHistory | src/dfm_lib/src/fault_record_processor.rs:94-228 | whether a record passes, resets and is stored is settled by the events before it |
| FaultCounters.CountersOverRun | src/dfm_lib/src/aging_manager.rs:162-177 | occurrence, aging and healing counter are the saturated counts of the fault's stored failures and resets since its deletion |
| FaultCounters.EntryCounterOverRun | src/dfm_lib/src/aging_manager.rs:71-74 | the unstored counter of the aging entry is the saturated count of resets since the restart |
| FaultCounters.ResetsAreOwed | src/dfm_lib/src/aging_manager.rs:63-74 | every reset uses up an accepted failure, or the one a deletion left behind |
| FaultCounters.CounterAccounting | src/dfm_lib/src/aging_manager.rs:162-177 | over every run and restart, aging equals healing, which exceeds the occurrences at most by the failures that could not be stored and the one a deletion left |
| FaultCounters.NothingLost | src/dfm_lib/src/sovd_fault_storage.rs:95-156 | while wall times fit i64, no failure fails to be stored |
| FaultCounters.NoDeletionNoDebt | src/dfm_lib/src/sovd_fault_manager.rs:392-417 | without a deletion nothing is left over |
| FaultDeletion.DeletionBreaksAccounting | src/dfm_lib/src/sovd_fault_manager.rs:408-417 | for every policy, debouncer and run: some future after a deletion has more healings than occurrences exactly if the last failure is unhealed and its policy can still come due within the 64-bit counters |
| FaultDeletion.NothingOwedNeverOverheals | src/dfm_lib/src/aging_manager.rs:99-177 | the half that makes a deletion safe: nothing owed, never more healings than occurrences |
| FaultDeletion.SendUntilAccepted | src/dfm_lib/src/fault_record_processor.rs:94-228 | passing records get through every debouncer after finitely many, and then heal a fault that is due |
| FaultDeletion.ToolOnlyNeverHeals | src/dfm_lib/src/aging_manager.rs:123-158 | without a policy, or with a tool-only one, a fault is never healed, in any run |
| FaultDeletion.DeletionExample | src/dfm_lib/src/sovd_fault_manager.rs:408-417 | Failed, deleted, one power cycle, Passed: one healing and no occurrence |
| FaultRecurrence.RecurrenceIsIgnored | src/dfm_lib/src/fault_record_processor.rs:94-210 | over every configuration: some run clears a fault before its policy is due since its last reported failure exactly if the debouncer can suppress and the policy asks for a cycle or a stable time longer than the gap |
| FaultRecurrence.ResetsCountReports | src/dfm_lib/src/aging_manager.rs:99-158 | with no debouncer, or one that suppresses nothing, every reset of every run is due counted from the last reported failure |
| FaultRecurrence.NothingAskedNothingMissed | src/dfm_lib/src/aging_manager.rs:99-158 | a policy that asks for no cycle and for no more than the gap is respected whatever is suppressed |
| FaultRecurrence.RunThatClearsTooEarly | src/dfm_lib/src/fault_record_processor.rs:108-210 | in every other configuration, a run built for its debouncer and policy, clocks in order, clears too early |
| FaultRecurrence.SuppressedFailureExample | src/dfm_lib/src/fault_record_processor.rs:108-123 | Failed, one power cycle, PreFailed within the cooldown, NotTested: cleared though it failed again after the cycle |
| FaultOccurrences.LastOccurrenceIsHistory | src/dfm_lib/src/sovd_fault_storage.rs:83-89 | the stored time is that of the last stored failure since the deletion, and the environment has each of its keys with the value given last |
| FaultOccurrences.FirstOccurrenceIsHistory | src/dfm_lib/src/sovd_fault_storage.rs:83-89 | the first time stays at the earliest failure since the deletion whose time is not 0 |
| SovdCodes.ParseUuidString | src/dfm_lib/src/sovd_fault_manager.rs:474-484 | the loop parses 32 hex digits standing anywhere among dashes |
| SovdCodes.UuidTextIsNotNumeric | src/dfm_lib/src/sovd_fault_manager.rs:420-446 | the text form of a UUID never starts like a number |
| SovdCodes.UuidTextColumns | src/dfm_lib/src/sovd_fault_manager.rs:424-443 | 36 characters, dashes at columns 8, 13, 18 and 23, and the two lower-case digits of each byte at its own column |
| SovdCodes.NumberText | src/dfm_lib/src/sovd_fault_manager.rs:420-423 | 0x and the number in upper-case hexadecimal digits without a leading zero |
| SovdCodes.CodeIsRead | src/dfm_lib/src/sovd_fault_manager.rs:449-470 | after 0x or 0X a code is a 32-bit number or a bad argument; else 36 characters with exactly four dashes anywhere that parse as bytes are a UUID; else it is text of at most 64 ASCII characters |
| SovdCodes.CodeRoundTrip | src/dfm_lib/src/sovd_fault_manager.rs:420-470 | every number and UUID comes back from its code; a text exactly if it reads as neither |
| SovdCodes.CodesReach | src/dfm_lib/src/sovd_fault_manager.rs:449-470 | an identifier has some code exactly if its own code comes back |
| SovdCodes.CodesAreInjective | src/dfm_lib/src/sovd_fault_manager.rs:420-446 | two identifiers whose codes come back never share one |
| SovdFaults.ComputeMask | src/dfm_lib/src/sovd_fault_manager.rs:89-119 | or-ing flag by flag builds the mask |
| SovdFaults.MaskDecodes | src/dfm_lib/src/sovd_fault_manager.rs:89-119 | the mask is the one byte whose eight bits are the eight flags |
| SovdFaults.MaskTextReads | src/dfm_lib/src/sovd_fault_manager.rs:74 | the mask text is 0x and the two upper-case digits of the byte, and reads back as the byte |
| SovdFaults.StatusMapShows | src/dfm_lib/src/sovd_fault_manager.rs:123-162 | each known flag stands in the map under its own name and the mask text under mask, an unknown one not at all |
| SovdFaults.NewFaultShows | src/dfm_lib/src/sovd_fault_manager.rs:208-244 | a fault shows code, name, severity 0 to 5 and summary of its descriptor, and every flag, counter and time of its state; second 0 is no time |
| SovdFaultManager.SovdFaultManager.GetAllFaults | src/dfm_lib/src/sovd_fault_manager.rs:327-352 | lists each fault of the path's catalog once; in a valid store it shows, field by field, the flags, counters and times stored for it, or clear if nothing is; an unreadable record shows as clear; an unknown path is a bad argument |
| SovdFaultManager.SovdFaultManager.GetFault | src/dfm_lib/src/sovd_fault_manager.rs:361-384 | shows the flags, counters, times and environment stored for the fault of that path and code, or clear if nothing is; an unknown path or unreadable code is a bad argument, a fault not in the catalog is not found, an unreadable record a storage error |
| SovdFaultManager.SovdFaultManager.DeleteFault | src/dfm_lib/src/sovd_fault_manager.rs:408-417 | succeeds exactly if the code names a stored fault, removes that one alone, and tells the error kinds apart |
| SovdFaultManager.SovdFaultManager.DeleteAllFaults | src/dfm_lib/src/sovd_fault_manager.rs:392-399 | removes exactly the path's faults; an empty path is a bad argument, an unknown one a storage error |
| SovdFaultManager.ListedFaultIsFound | src/dfm_lib/src/sovd_fault_manager.rs:327-384 | the code shown for a fault leads back to it, and in a valid store both show the state stored for it; not for an ambiguous text or an unreadable record |
| SovdFaultManager.AmbiguousFaultIsNeverRead | src/dfm_lib/src/sovd_fault_manager.rs:361-384 | no code shows what is stored for an ambiguous text identifier |
| SovdFaultManager.DeletedFaultReadsClear | src/dfm_lib/src/sovd_fault_manager.rs:327-417 | a deleted fault is still listed, as clear, and every other fault as before |
| QueryConversion.WireShowsState | src/dfm_lib/src/query_conversion.rs:67-119 | the byte on the wire is the stored status byte bit by bit, counters pass, times are clamped |
| QueryConversion.WireRoundTrip | src/dfm_lib/src/query_conversion.rs:67-173 | a fault survives the wire in every field exactly if its code has at most 58 characters, 56 with a summary |
| QueryConversion.NumbersAndUuidsFit | src/dfm_lib/src/query_conversion.rs:67-173 | numeric and UUID faults always survive |
| QueryConversion.WireMaskShowsFlags | src/dfm_lib/src/query_conversion.rs:67-119 | whatever is sent, the mask byte decodes to the eight flags sent beside it |
| QueryConversion.WireIsCanonical | src/dfm_lib/src/query_conversion.rs:67-173 | decoding and encoding again gives the same wire fault exactly for canonical ones |
| QueryConversion.EnvDataToIpc | src/dfm_lib/src/query_conversion.rs:179-189 | at most eight distinct entries, cut to size; they read back as the original exactly if it has at most eight short ones |
| QueryServer.DfmQueryServer.HandleRequest | src/dfm_lib/src/query_server.rs:102-148 | reads change nothing and answer with the first 64 faults and their number, or the fault, in wire form; a deletion removes exactly what its path and code name; a refusal is a bad argument, an unknown fault or a storage failure exactly in its own case |
| QueryServer.DfmQueryServer.Poll | src/dfm_lib/src/query_server.rs:86-100 | every pending request is answered once, in order, each in the store that the deletions before it have left |
| QueryServer.ReadShowsStored | src/dfm_lib/src/query_server.rs:124-133 | the answer to a read has, bit by bit and counter by counter, the state stored for the fault the code names |
| QueryServer.ListShowsStored | src/dfm_lib/src/query_server.rs:104-123 | the answer to a listing has the first 64 faults of the catalog, each with the state stored for it |
| RetryQueue.IpcWorkerState.HandleSendFailure | src/fault_lib/src/ipc_worker.rs:121-127 | caches the event exactly if the error may pass |
| RetryQueue.IpcWorkerState.CacheForRetry | src/fault_lib/src/ipc_worker.rs:130-140 | drops the oldest entry if the queue is full, then appends |
| RetryQueue.IpcWorkerState.ProcessRetries | src/fault_lib/src/ipc_worker.rs:147-182 | the draining loop is one pass of the specification: queue and publisher calls both |
| RetryQueue.IpcWorkerState.FinalFlush | src/fault_lib/src/ipc_worker.rs:428-446 | every entry is offered once more and the queue is empty |
| RetryQueue.PassLeaves | src/fault_lib/src/ipc_worker.rs:147-182 | a pass leaves every entry's remainder in order and publishes exactly the due ones |
| RetryPasses.PassIsOver | src/fault_lib/src/ipc_worker.rs:147-182 | said of the book before and after alone: each entry whose time has come gets one offer at that time and leaves or waits for its backoff, no other entry is touched, and whatever is still due was just offered |
| RetryLaws.RetryConservation | src/fault_lib/src/ipc_worker.rs:121-182 | over every run each transiently failed event is exactly one of queued, delivered, dropped, evicted, lost in the flush |
| RetryLaws.CachedAreTransientFailures | src/fault_lib/src/ipc_worker.rs:121-140 | the cached events are the transient failures, in order |
| RetryLaws.QueueOrderAndLength | src/fault_lib/src/ipc_worker.rs:130-182 | the queue keeps the order of failure and never exceeds max(1, capacity) |
| RetryLaws.DefaultQueueBound | src/fault_lib/src/ipc_worker.rs:57-66 | by default at most 512 events wait, and below that none is evicted |
| RetryLaws.EvictionTakesOldest | src/fault_lib/src/ipc_worker.rs:130-140 | only a full queue evicts, and it evicts the oldest entry |
| RetryLaws.FlushEmpties | src/fault_lib/src/ipc_worker.rs:428-446 | after the flush every cached event has its fate |
| RetryLaws.RetryTiming | src/fault_lib/src/ipc_worker.rs:91-182 | the offers of one event are spaced by the backoff and at most max(1, max_retries); dropped means refused exactly that often |
| RetryLaws.QueuedAttempts | src/fault_lib/src/ipc_worker.rs:147-182 | a queued entry has 0 attempts or fewer than the maximum |
| RetryLaws.BackoffDoubles | src/fault_lib/src/ipc_worker.rs:91-95 | the delay starts at the interval and doubles with each of the first ten attempts, up to its cap |
| RetryLaws.BackoffGrows | src/fault_lib/src/ipc_worker.rs:91-95 | the delay never shrinks with the attempts and never exceeds its cap |
| RetryLaws.DefaultDelay | src/fault_lib/src/ipc_worker.rs:57-95 | the delays of the default configuration |
| RetryLaws.DropTakesAllDelays | src/fault_lib/src/ipc_worker.rs:147-182 | an event dropped at the limit was retried over at least the sum of all delays |
| RetryLaws.DefaultDropSpan | src/fault_lib/src/ipc_worker.rs:57-66 | by default, ten retries over at least 26.2 seconds |
| DeliveryOrder.OrderIsLost | src/fault_lib/src/ipc_worker.rs:121-182 | after every run and for every message: some future accepts an older one after this moment exactly if an older one is queued |
| DeliveryOrder.DirectSendOvertakes | src/fault_lib/src/ipc_worker.rs:345-394 | a message accepted at its first sending is overtaken by nothing exactly if the queue was empty then |
| IpcWorker.IpcWorker.PollNotifications | src/fault_lib/src/ipc_worker.rs:398-423 | every notification is passed on, in order, as one that came from elsewhere |
| IpcWorker.IpcWorker.Run | src/fault_lib/src/ipc_worker.rs:337-446 | the first message is taken and forgotten whatever it is; then in each turn before Exit the message is handed over once, a fault refused for one of the four passing reasons is queued, every queued entry that is due is offered again in that turn, and every notification is passed on in order; the flush offers the rest once |
| IpcWorker.WorkerAccountsForAll | src/fault_lib/src/ipc_worker.rs:337-446 | when the worker has ended every transiently failed fault has exactly one fate |
| EnablingConditions.EnablingConditionManager.RegisterCondition | src/fault_lib/src/enabling_condition.rs:227-261 | a new condition starts inactive and is announced; too long or known ones are errors that change nothing |
| EnablingConditions.EnablingConditionManager.ReportStatus | src/fault_lib/src/enabling_condition.rs:266-305 | a change is stored, dispatched and sent; a repeat does nothing; a refusal is returned and undoes nothing |
| EnablingConditions.EnablingConditionManager.HandleRemoteNotification | src/fault_lib/src/enabling_condition.rs:311-339 | a change is stored and dispatched, a repeat ignored, nothing sent |
| EnablingConditions.EnablingConditionManager.RegisterMonitor | src/fault_lib/src/enabling_condition.rs:342-368 | appends a monitor under a fresh number |
| EnablingConditions.EnablingConditionManager.UnregisterMonitor | src/fault_lib/src/enabling_condition.rs:371-381 | keeps exactly the monitors of other numbers, in order |
| EnablingConditions.EnablingConditionManager.DispatchToMonitors | src/fault_lib/src/enabling_condition.rs:392-415 | calls exactly the monitors whose list names the condition, each once, in order of registration |
| EnablingConditions.EnablingConditionRegistry.Register | src/dfm_lib/src/enabling_condition_registry.rs:51-60 | a new condition is inactive, a known one keeps its status |
| EnablingConditions.EnablingConditionRegistry.UpdateStatus | src/dfm_lib/src/enabling_condition_registry.rs:66-85 | stores and returns a change, drops a repeat |
| EnablingConditions.ReactionFits | src/dfm_lib/src/enabling_condition_registry.rs:51-85 | one message keeps the log of broadcasts alternating and ending at the registry's status |
| EnablingProtocol.NextConsistent | src/fault_lib/src/enabling_condition.rs:227-339 | every step keeps the invariant between registry, library and the two channels between them |
| EnablingProtocol.QuiescentAgreement | src/fault_lib/src/enabling_condition.rs:266-339 | whenever all channels are empty, every library that knows a condition holds the registry's status |
| EnablingProtocol.ReportReachesAll | src/fault_lib/src/enabling_condition.rs:266-339 | a report made while nothing is under way ends, in whatever order it is delivered, with the registry and all who know the condition at the status reported, and with all knowing it if it is active |
| EnablingProtocol.UnknownIsInactive | src/dfm_lib/src/enabling_condition_registry.rs:51-85 | and a library that does not know it has missed no activation |
| EnablingProtocol.DeliveryQuiets | src/dfm_lib/src/fault_lib_communicator.rs:353-401 | from every reachable state, deliveries alone empty the channels |
| EnablingProtocol.BroadcastsAlternate | src/dfm_lib/src/enabling_condition_registry.rs:66-85 | per condition the broadcasts strictly alternate and the last one is the registry's status |
| EnablingProtocol.MonitorsAreToldChanges | src/fault_lib/src/enabling_condition.rs:392-415 | no monitor is told a status twice in a row, and the last one told is current |
| DfmLoop.DfmLoop.Handle | src/dfm_lib/src/fault_lib_communicator.rs:353-401 | a fault is processed as that record at that clock and nothing else touches the manager's state; a hash is answered with whether it is the catalog's; a condition change is broadcast exactly if it is one |
| DfmLoop.DfmLoop.TakeTurn | src/dfm_lib/src/fault_lib_communicator.rs:332-408 | one turn is the cycle events, then all received messages in order, then the queries with their deletions |
| DfmLoop.DfmLoop.Run | src/dfm_lib/src/fault_lib_communicator.rs:305-410 | turn by turn and message by message until the transport is gone: the polled cycle events, then each message in its own way where the one before left off, then deletions alone; each query is answered about the state it meets |
| LoopOrder.FaultInLoop | src/dfm_lib/src/fault_lib_communicator.rs:353-372 | by position: each fault a reached turn receives is the record step at its turn's offset plus its number among the faults, with its clock |
| LoopOrder.RecordsAreReceived | src/dfm_lib/src/fault_lib_communicator.rs:353-372 | the converse: every record step of the loop is such a fault at its place |
| LoopOrder.AroundTheFaults | src/dfm_lib/src/fault_lib_communicator.rs:332-410 | within a turn the cycle events stand before the faults and nothing but deletions after them |
| LoopOrder.LoopEnds | src/dfm_lib/src/fault_lib_communicator.rs:319-331 | the steps of the reached turns are all steps of the loop |
| DfmLoop.NotificationsAlternate | src/dfm_lib/src/fault_lib_communicator.rs:380-398 | what the loop publishes for a condition strictly alternates and ends at the registry's status |
| DfmLoop.StepAllContinuesRun | src/dfm_lib/src/fault_lib_communicator.rs:305-410 | steps taken after a run continue the run, so all laws over runs hold of the loop |

## Left out

- iceoryx2 nodes, publishers, subscribers and request channels: foreign IPC; channels, a publisher's answers and lists of requests and notifications remain, and a broken request channel, which ends a poll early, does not.
- Threads, parking, timeouts, drop-time joins and global state: scheduling; one record, report or delivery is one step, and an update of a condition with its dispatch is one step although the lock is released between them.
- SHA-256 (a catalog's hash is given), JSON, file loading, the key-value backend and lock poisoning: library code; storage is a total map that fails only for a time outside i64 or an unknown key.
- The backend's answer to removing an unknown path is not part of this model's sources; it is taken to be an error.
- Storage keys without a type prefix, from older stores: decoded as the code does, but the store laws are stated for stores built by puts.
- Late joiners, dropped messages and crashed libraries in the enabling-condition protocol: the code does not resend, and promises no agreement then.
- Strings outside ASCII: fixed-size strings are ASCII of at most 64 and 128 characters, and a longer or other text is refused or cut as the conversion code does.
- The time, source and phase fields of a record, log hooks and tracing: nothing in the modelled code depends on them.
- Instants and durations have no upper bound, except the saturating product of the backoff; adding to an instant cannot overflow.
- Debouncers and aging entries inside the manager's maps are values, not objects: the map owns each of them alone, so sharing could not be observed. The three debouncer classes are proved equal to those values.
- The catalog builder: a catalog is a map that stores each descriptor under its own identifier.
- Panicking callbacks: a call counts as made whatever the callback does.
- Reporter.PublishStandsFor: the exact match with the specification is stated for clocks that do not run backwards, as the monotonic clock guarantees.
- Timestamps.ParseU64: bytes whose value exceeds 64 bits are left out; `parse_u64` overflows on them, and its callers pass at most four bytes.
- The text of a storage error in an answer to a tool: only its kind is kept.

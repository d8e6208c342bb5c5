# Verified model of the SDK core

This project models four parts of the SDK in Dafny and proves what they are for.

**Flash storage.** `tlk_storage_write` and `tlk_storage_erase` give byte access to NOR flash, where
programming can only clear bits and erasing sets a whole page. `StorageDevice` is the driver
contract, with a call that may fail at any point and may damage its own range. `Storage` is the
page loop, `StorageApi` the public calls, `StorageRegistry` and `Dlist` the list of devices. A
successful call equals the overwrite of a slice; a failing one leaves at most one page torn; a page
is erased exactly when programming alone cannot do the job.

**Task planner.** `WorkQueue` and `WorkPlanner` are the deferred-work queue, first as the ring that
the code keeps, then as atomic steps of tasks and interrupts over whole runs. `Deadlines` is the
task pass and the compare register, `SwTimers` the software timers and their interrupt.

**Machine layer.** `Mtimer` is the 64-bit timer behind 32-bit accesses, `Pmp` the protection unit
with its locks, `NestedIrq` the entry and exit sequences of the three interrupt handlers as
instruction steps at any nesting depth.

**Build-time transformations.** `Crc32`, `LittleEndian` and `Firmware` stamp an image, `RegisterLayout` turns a
register description into a packed struct, `KconfigLoops` unrolls `for` loops in templates.

The model has the form of the code: what the code updates in place is a class or an array, a loop
is a loop, and each such method is tied to a function or property of its inputs. Integer widths are
explicit: 32-bit addresses in the device search, 64-bit times, 8-bit nesting counter, 32-bit casts
in `NAPOT`.

## What the proofs found

Where the code does not meet what its text suggests, the exact condition is proved.

- The comment in the work-queue task says that a submission makes the scheduler run it. A pass can
  skip pending work: a second submission, made after the pass has read the clock, moves the task's
  deadline past that reading (`PassDrainsIff`, `PassExecutesIff`, `PassCanSkipPendingWork`). Work is
  still never lost: after as many passes as the queue has places, everything that was accepted
  before them has been executed, in order (`AcceptedWorkIsExecuted`, `PendingWorkIsExecuted`).
- The core can go to sleep with work pending, exactly if an interrupt submits some between the idle
  test and the wait-for-interrupt instruction (`DozesIff`, `SleepsOnWorkIff`; over every run,
  `SleepingQueueIsNew`).
- A one-shot timer that restarts itself in its callback is switched off again
  (`RestartSurvivesIff`, `OneShotRestartIsLost`).
- The compare register is programmed within its window for every pair of deadlines exactly while
  the clock is below 2^63 (`WakeupWindow`).
- A pass records a deadline that covers every active task, exactly if no entry is changed behind the
  pass to a deadline before the recorded one (`PassCoversIff`; turn by turn, `EveryTurnCoversIff`).
  `ForeignWriteIsMissed` is an instance. Submitting work writes the work task's deadline, so it is
  such a change when the work task comes earlier in the pass (`SubmissionIsConsiderateIff`); the
  idle test then sees the queued work and does not sleep.
- The device search accepts requests that wrap around 4 GiB. For a device that ends below 4 GiB the
  test is wrong exactly for requests that wrap into the addresses up to its end; for a device that
  ends at 4 GiB it is wrong exactly for requests inside it that stop short of its end, which it
  rejects (`RangeTestExact`, `RangeTestWraps`, `TopDeviceRejects`).
- The page algorithm works for every page exactly with clean byte 0xFF (`CleanByteMustBeFF`).
- A class that a handler masks stays out of it exactly if callbacks enable only classes that all
  handlers in progress leave enabled (`MaskedClassesStayOut`, `PoliteIffMaskedStayOut`). The
  planner's timer callback enables all classes, so the timer handler can be re-entered
  (`EnablingCallbackReopens`); submitting work from a callback enables two (`SubmissionIsPoliteIff`).
- "In an interrupt handler" is answered from the nesting counter, which only external handlers
  update. The answer is wrong exactly if some handler is in progress and the number of external
  handlers between their counter updates is a multiple of 256, zero included: in timer and software
  handlers, and in the first and last instructions of an external one (`IsInIsrExact`,
  `TimerAndSoftwareGoUnseen`, `ExternalIsSeenIff`, `TimerHandlerAnswersNo`).
- Restoring the protection unit is exact if and only if the locked parts already hold the saved
  values (`RestoreExactIff`); configurations first would need more (`ConfigFirstExactIff`).
- Stamping is not idempotent: a stamped image grows by one block (`RestampGrows`).
- A loop inside a loop is taken into the outer block exactly if its header is already a loop when
  the block is extracted (`InnerLoopIsTakenInIff`). A range up to an outer variable is not; it
  becomes a loop only after substitution, and has lost its `endfor` by then, so that what follows it
  is put out once and without substitution (`NonLiteralHeaderStealsEndfor`,
  `PlaceholderRangeBecomesLoop`, `TextIsPutOutOnce`, `NonLiteralHeaderMisexpands`).
- The device header's rule "addr & addr + len on same page" is read as: the last byte written is on
  the page of the first. Read literally it would forbid writing up to the end of a page, which the
  code does.

## Model

| member | source | states |
|---|---|---|
| StorageDevice.Device.constructor | system/storage/storage_device.h:52-65 | a device starts with an empty call history, and a page-less one has no erase entry |
| StorageDevice.Device.Read | system/storage/storage_device.h:11-26 | only a driver with a read entry is called; a read fills exactly the asked part of the destination, or fails with an error that is recorded |
| StorageDevice.Device.Erase | system/storage/storage_device.h:11-27 | only one aligned page is accepted; success sets it to clean bytes, failure damages nothing outside it |
| StorageDevice.Device.Write | system/storage/storage_device.h:11-29 | only a range within one page is accepted by a paged device; it is AND-ed in, a page-less device overwrites; failure damages only that range |
| Storage.ReachableIffProgrammable | system/storage/storage.c:22-37 | the scan's bit test holds if and only if some series of program operations, with no erase, turns the old contents into the new |
| Storage.PageAfterIsWanted | system/storage/storage.c:38-123 | with clean byte 0xFF a processed page always holds what was wanted; the no-erase case without buffer never has differing data |
| Storage.CleanByteMustBeFF | system/storage/storage.c:33-123 | writing, and erasing, works on all pages of any given size if and only if the clean byte is 0xFF |
| Storage.CompareScan | system/storage/storage.c:22-37 | the early-exit scan decides equality and programmability of the whole range, both directions |
| Storage.TrimScan | system/storage/storage.c:76-102 | the two counters leave exactly the span from the first to the last byte that is not clean, or nothing for a clean page |
| Storage.TrimLosesNothing | system/storage/storage.c:74-113 | programming the trimmed span into an erased page equals programming all of it |
| Storage.GatherPage | system/storage/storage.c:42-68 | the shared buffer then holds the whole wanted page |
| Storage.EraseAndRestore | system/storage/storage.c:69-113 | one erase and at most one write, of the trimmed span, leave the buffer's contents in the page and nothing else changed |
| Storage.RewritePage | system/storage/storage.c:40-114 | success leaves the wanted page; failure damages that page only and is reported |
| Storage.ProgramInPlace | system/storage/storage.c:115-123 | programming just the requested bytes gives the wanted page when no bit has to rise, without an erase |
| Storage.InspectPage | system/storage/storage.c:17-37 | the answers computed on the requested bytes are right for the whole page |
| Storage.ModifyPage | system/storage/storage.c:14-124 | one page ends as wanted, is erased exactly when it has to be, and is neither erased nor written if it already is as wanted |
| Storage.NextShare | system/storage/storage.c:14-15 | the share of the request in the next page, never empty and never across a page boundary |
| Storage.PageStep | system/storage/storage.c:12-131 | replacing one page moves the boundary between new and old contents past that page's share |
| Storage.PageDone | system/storage/storage.c:12-131 | the outcome of one page, seen from the whole request |
| Storage.ModifyNext | system/storage/storage.c:12-131 | one turn of the page loop keeps "new below, old above", or stops with only that page torn |
| Storage.EraseStep | system/storage/storage.c:38-72 | the list of erased pages stays ascending and minimal when one page is added |
| Storage.WidenErases | system/storage/storage.c:38-72 | pages that the request does not touch need no erase, so the list is minimal for the whole device |
| Storage.ModifyPages | system/storage/storage.c:7-133 | success is the overwrite of exactly the range; a failure is returned and leaves earlier pages new, later pages old and only one touched page torn; erases are exactly the necessary ones, once each; nothing to change means no erase and no write |
| Dlist.Init | common/include/tlk_dlist.h:21-24 | an empty ring |
| Dlist.Insert | common/include/tlk_dlist.h:26-33 | the ring refines the sequence with the node inserted; next and prev stay inverse |
| Dlist.Append | common/include/tlk_dlist.h:35-38 | the sequence grows at its end |
| Dlist.Prepend | common/include/tlk_dlist.h:40-43 | the sequence grows at its front |
| Dlist.Remove | common/include/tlk_dlist.h:45-51 | exactly that node leaves the sequence, order is kept, and its links are null |
| StorageRegistry.RangeTestExact | system/storage/storage_device.c:53 | for every device that ends at or below 4 GiB, the 32-bit range test equals containment if and only if the request is outside the stated failing family |
| StorageRegistry.TopDeviceRejects | system/storage/storage_device.c:53 | a concrete request inside a device at the top of the address space that is rejected |
| StorageRegistry.RangeTestWraps | system/storage/storage_device.c:53 | a concrete request far outside the device that passes the test |
| StorageRegistry.First | system/storage/storage_device.c:46-60 | the position of the first device that passes the range test |
| StorageRegistry.Registry.constructor | system/storage/storage_device.c:4 | the registry starts as the empty sequence |
| StorageRegistry.Registry.GetNext | system/storage/storage_device.c:38-44 | enumerates the sequence and ends with null |
| StorageRegistry.Registry.IsExist | system/storage/storage_device.c:6-20 | true if and only if the device is in the sequence; the loop ends |
| StorageRegistry.Registry.Add | system/storage/storage_device.c:22-28 | appends the device if it is absent and changes nothing otherwise |
| StorageRegistry.Registry.Remove | system/storage/storage_device.c:30-36 | deletes exactly that device and keeps the order of the others |
| StorageRegistry.Registry.Find | system/storage/storage_device.c:46-60 | the first registered device that passes the range test, or null if none does |
| StorageRegistry.FoundIsUnique | system/storage/storage_device.c:46-60 | with disjoint devices the one found is the only one that contains the range |
| StorageApi.FoundContains | system/storage/storage_device.c:46-60 | the device found contains the whole range if and only if the request does not wrap, or the device extends to 4 GiB |
| StorageApi.Read | system/storage/storage.c:135-161 | every error case exactly, the driver's own code included, and on success the device's bytes in the destination and no other byte changed |
| StorageApi.WriteDevice | system/storage/storage.c:236-255 | the paged and the page-less path of a write |
| StorageApi.Write | system/storage/storage.c:218-258 | every error case exactly; success is the overwrite of the range on paged and page-less devices; driver failures are contained, and no page was erased that did not have to be |
| StorageApi.EraseUnpaged | system/storage/storage.c:181-203 | the chunked loop overwrites the range with clean bytes; a failure tears only the chunk it was at |
| StorageApi.EraseDevice | system/storage/storage.c:181-213 | the paged and the page-less path of an erase |
| StorageApi.Erase | system/storage/storage.c:163-216 | as Write, with clean bytes |
| StorageApi.WriteAgain | system/storage/storage.c:22-38 | writing what the device already holds calls neither erase nor write, whether or not a read fails |
| StorageApi.EraseAgain | system/storage/storage.c:22-38 | erasing what is already clean calls neither erase nor write |
| StorageApi.WriteTwice | system/storage/storage.c:7-133 | repeating a successful write calls neither erase nor write |
| StorageApi.EraseTwice | system/storage/storage.c:7-133 | repeating a successful erase calls neither erase nor write |
| StorageApi.WriteTwiceThenRead | system/storage/storage.c:135-161 | what was written reads back |
| WorkQueue.Ring.constructor | system/task_planner/task_planner.c:37-47 | an empty, unlocked ring |
| WorkQueue.Ring.IsPending | system/task_planner/task_planner.c:228-241 | true if and only if something is queued |
| WorkQueue.Ring.Submit | system/task_planner/task_planner.c:257-290 | accepted if and only if the function is not null and the ring not full; then appended, the task woken and a software interrupt requested; the lock is free again, and interrupts are on even if the caller had them off |
| WorkQueue.Ring.Pop | system/task_planner/task_planner.c:243-255 | takes the oldest item |
| WorkQueue.Ring.Park | system/task_planner/task_planner.c:309-313 | the deadline becomes never, the queue is untouched |
| WorkPlanner.StepKeepsInvariant | system/task_planner/task_planner.c:102-119 | every atomic step of task or interrupt keeps: executed ++ in flight ++ queued equals accepted, no null function, deadline in the past or never |
| WorkPlanner.WorkIsConserved | system/task_planner/task_planner.c:257-314 | the same over every interleaving, in submission order |
| WorkPlanner.InitiallyConserved | system/task_planner/task_planner.c:46-47 | the first state satisfies it |
| WorkPlanner.DueIs | system/task_planner/task_planner.c:113 | the signed test in plain numbers: due from the deadline on for 2^63 ticks, or if it is more than 2^63 ticks ahead |
| WorkPlanner.StepFrame | system/task_planner/task_planner.c:257-314 | exactly which step writes clock, deadline, queue and history, and what it writes |
| WorkPlanner.DueUnlessLate | system/task_planner/task_planner.c:106-114 | between the clock reading and the due test the task stays due unless a submission comes late, and only then |
| WorkPlanner.PassDrainsIff | system/task_planner/task_planner.c:102-119 | a pass runs the queue if and only if no submission is accepted after its clock reading has become stale |
| WorkPlanner.PassCanSkipPendingWork | system/task_planner/task_planner.c:102-119 | a run in which a pass skips work submitted before it |
| WorkPlanner.DozingQueue | system/task_planner/task_planner.c:126-158 | after the idle test the queue is non-empty if and only if something was submitted since |
| WorkPlanner.DozesIff | system/task_planner/task_planner.c:130 | the core prepares to sleep if and only if the clock is early and nothing is queued |
| WorkPlanner.SleepsOnWorkIff | system/task_planner/task_planner.c:126-158 | the core sleeps on pending work if and only if the idle test passed on an empty queue and some is submitted between the test and the instruction that sleeps |
| WorkPlanner.SleepingQueueIsNew | system/task_planner/task_planner.c:126-158 | over every run, what is queued while the core dozes or sleeps is exactly what was accepted since the last pass ended |
| WorkPlanner.AsleepUntilSubmission | system/task_planner/task_planner.c:155 | sleep lasts until an interrupt submits something, and changes nothing meanwhile |
| WorkPlanner.SkipsFillTheQueue | system/task_planner/task_planner.c:102-119 | every skipped pass has put one more item into the queue |
| WorkPlanner.PendingWorkIsReached | system/task_planner/task_planner.c:102-119 | pending work is reached after at most capacity - 1 skipped passes |
| WorkPlanner.ExecutionFollowsSubmission | system/task_planner/task_planner.c:292-307 | what has been executed is always a prefix of what was accepted, one item per return |
| WorkPlanner.DrainLeavesNothing | system/task_planner/task_planner.c:296-304 | the drain loop ends only when everything accepted so far has been executed |
| WorkPlanner.ParkedIsDue | system/task_planner/task_planner.c:113 | a parked deadline passes the signed due test if and only if the clock is below 2^63 - 1, or at its last value |
| WorkPlanner.StepUsesPatience | system/task_planner/task_planner.c:102-119 | while an accepted item is outstanding, each pass that ends uses up one of the passes that can still skip it |
| WorkPlanner.OutstandingUsesPatience | system/task_planner/task_planner.c:102-119 | the same over every run |
| WorkPlanner.AcceptedWorkIsExecuted | system/task_planner/task_planner.c:257-314 | no lost work: from every state, everything accepted has been executed in order once a bounded number of passes has ended |
| WorkPlanner.PendingWorkIsExecuted | system/task_planner/task_planner.c:257-314 | between passes that number is at most the capacity of the queue |
| WorkPlanner.SkippedPassExecutesNothing | system/task_planner/task_planner.c:111-117 | a pass that found the task not due executes no work |
| WorkPlanner.PassExecutesIff | system/task_planner/task_planner.c:102-119 | by its end a pass has executed everything accepted before its due test, if and only if no submission was late |
| WorkPlanner.Executor.constructor | system/task_planner/task_planner.c:46-47 | the ring starts as the initial state |
| WorkPlanner.Executor.Submit | system/task_planner/task_planner.c:257-290 | the ring's submission is the submission step |
| WorkPlanner.Executor.Take | system/task_planner/task_planner.c:298-303 | the ring's pop is the step that takes an item or finds the queue empty |
| WorkPlanner.Executor.Idle | system/task_planner/task_planner.c:126-130 | the idle test on the ring is the step that ends a pass |
| WorkPlanner.Executor.Park | system/task_planner/task_planner.c:309-313 | the ring's park is the parking step |
| Deadlines.WakeupWindow | system/task_planner/task_planner.c:57-71 | for every pair of deadlines the compare value is in the future and at most one tick late, if and only if the clock is below 2^63 |
| Deadlines.CompareIsExact | system/task_planner/task_planner.c:57-71 | which deadlines are programmed exactly and which wake at the next tick |
| Deadlines.PlanCompare | system/task_planner/task_planner.c:59-69 | computes the compare value, in its window while the clock is below 2^63 |
| Deadlines.PassRecordsEarliest | system/task_planner/task_planner.c:106-119 | after a pass no active task wakes before the recorded deadline, which is one of theirs; tasks not due are untouched |
| Deadlines.RecordedAfterTurn | system/task_planner/task_planner.c:106-119 | whatever tasks write, the recorded deadline is the earliest of the deadlines that tasks had after their own turns |
| Deadlines.PassCoversIff | system/task_planner/task_planner.c:106-119 | for all tasks and task functions, the recorded deadline covers every active task if and only if no entry is changed behind the pass to an earlier one |
| Deadlines.CoveredUnlessMissed | system/task_planner/task_planner.c:106-119 | the same for one task |
| Deadlines.TurnCoversIff | system/task_planner/task_planner.c:111-118 | one turn keeps the deadline covering if and only if the task function was considerate to those before it |
| Deadlines.EveryTurnCoversIff | system/task_planner/task_planner.c:106-119 | the same for every turn of a pass |
| Deadlines.OwnOnlyIsConsiderate | system/task_planner/task_planner.c:106-119 | tasks that write only their own entry are considerate |
| Deadlines.SubmissionIsConsiderateIff | system/task_planner/task_planner.c:278 | a task that submits work is considerate if and only if the work task comes later or its new deadline is not before the recorded one |
| Deadlines.MissedIsLate | system/task_planner/task_planner.c:57-71 | a deadline that was missed is programmed more than one tick late |
| Deadlines.Planner.constructor | system/task_planner/task_planner.c:54-55 | both deadlines start as never |
| Deadlines.Planner.NextEventPlan | system/task_planner/task_planner.c:57-71 | programs the compare value about which the window is proved |
| Deadlines.Planner.Turn | system/task_planner/task_planner.c:102-124 | one turn of the scheduler programs no deadline more than one tick late, except those changed behind the pass to one before the recorded one |
| Deadlines.ForeignWriteIsMissed | system/task_planner/task_planner.c:109-119 | an instance in which a task makes the recorded deadline too late for another |
| SwTimers.CallbacksKeepCovered | system/task_planner/task_planner.c:74-98 | whatever a callback does to any timer, no active timer expires before the recorded deadline |
| SwTimers.SweepCovers | system/task_planner/task_planner.c:160-187 | the same for the timers the sweep has visited |
| SwTimers.DeadlineCoversEveryTimer | system/task_planner/task_planner.c:74-88 | the same in every state reached outside the sweep, over every run |
| SwTimers.RegisteredIsCovered | system/task_planner/task_planner.c:54-55 | the first state satisfies it |
| SwTimers.VisitIs | system/task_planner/task_planner.c:168-186 | a visit in plain numbers: exactly when the callback runs, and everything the visit changes |
| SwTimers.CalledIff | system/task_planner/task_planner.c:168-172 | an interrupt runs a callback if and only if the timer is active when its turn comes and expired in the last 2^63 ticks, or seems to have |
| SwTimers.QuietSweep | system/task_planner/task_planner.c:160-187 | what an interrupt with passive callbacks leaves of every timer |
| SwTimers.QuietSweepRecords | system/task_planner/task_planner.c:164-185 | and that the deadline recorded is the earliest expiry of an active timer |
| SwTimers.VisitAdvances | system/task_planner/task_planner.c:168-186 | one visit adds one period exactly to the timer whose callback it ran |
| SwTimers.SweepAdvances | system/task_planner/task_planner.c:166-187 | one interrupt adds exactly one period to a periodic timer that it called, and none otherwise |
| SwTimers.LastOneDecides | system/task_planner/task_planner.c:74-98 | of all timer calls in a callback the last one decides a timer's mode and activity |
| SwTimers.PeriodicTimerDoesNotDrift | system/task_planner/task_planner.c:174-177 | over every run a periodic timer started at T expires at T + k * period on its k-th callback |
| SwTimers.StartedIs | system/task_planner/task_planner.c:74-98 | setting mode and period and starting leaves the timer to expire one period after the clock reading and changes no other timer |
| SwTimers.KthCallbackRunsIff | system/task_planner/task_planner.c:160-187 | over every run, the k-th callback of a periodic timer started at T runs in an interrupt if and only if the clock has reached T + k * period, unless the timer was stopped |
| SwTimers.RestartSurvivesIff | system/task_planner/task_planner.c:170-182 | a timer stays active after its callback if and only if the last start or stop of it there is no stop and the last mode set for it is periodic |
| SwTimers.OneShotRestartIsLost | system/task_planner/task_planner.c:178-181 | a one-shot timer that restarts itself ends inactive |
| SwTimers.TimerService.constructor | system/task_planner/task_planner.c:55 | starts with no deadline recorded |
| SwTimers.TimerService.NextEventPlan | system/task_planner/task_planner.c:57-71 | the compare register is in the future and no covered timer is programmed more than one tick late |
| SwTimers.TimerService.StartTimer | system/task_planner/task_planner.c:74-83 | refines the start operation of the timer model, and programs the compare register so that no covered timer is more than one tick late |
| SwTimers.TimerService.Execute | system/task_planner/task_planner.c:74-98 | each timer call refines its operation |
| SwTimers.TimerService.Callback | system/task_planner/task_planner.c:172 | a callback refines its list of operations |
| SwTimers.TimerService.VisitTimer | system/task_planner/task_planner.c:168-186 | one turn of the loop refines the visit to one timer, and runs the callback exactly when the timer is active and due |
| SwTimers.TimerService.MtimerIrq | system/task_planner/task_planner.c:160-191 | the interrupt loop refines the sweep, runs exactly the callbacks that are due, in order, leaves every active timer covered, and programs none more than one tick late |
| Mtimer.GetMtime | core/common/src/tlk_mtimer.c:23-34 | returns a value that the running counter held between call and return; the retry loop ends |
| Mtimer.SingleReadTears | core/common/src/tlk_mtimer.c:27-31 | without the second look at the high word the result can be a time that never was |
| Mtimer.Registers.SetMtimeCompare | core/common/src/tlk_mtimer.c:36-41 | ends at the new value, and no value visible on the way is below both the old and the new |
| Mtimer.NoEarlyInterrupt | core/common/src/tlk_mtimer.c:36-41 | so no interrupt is raised while the clock is below both |
| Mtimer.LowFirstIsEarly | core/common/src/tlk_mtimer.c:36-41 | writing the new low word first could raise one |
| Mtimer.SetMtimeExact | core/common/src/tlk_mtimer.c:16-21 | setting the running counter is exact, for all delays between the writes, if and only if the low word's carries after the second write are a multiple of 2^32 |
| NestedIrq.CsrStep | core/include/tlk_core.h:109-121 | each handler instruction keeps what registers and saved copies hold; a return gives back MIE, MSTATUS and MEPC |
| NestedIrq.ClaimStep | core/common/src/tlk_plic.c:215-244 | each instruction keeps the claims outstanding equal to those of the handlers in progress |
| NestedIrq.CountStep | core/include/tlk_plic.h:155-164 | each instruction keeps the nesting counter, with its load and store apart |
| NestedIrq.StepKeepsInvariant | core/common/src/tlk_plic.c:168-244 | every step of every handler, interrupt and callback keeps the invariant |
| NestedIrq.RunKeepsInvariant | core/common/src/tlk_plic_sw.c:56-84 | the invariant holds in every run at any depth |
| NestedIrq.ReturnRestoresContext | core/include/tlk_core.h:109-121 | in every run a return gives the interrupted code back its MIE, its interrupt enable and its program counter |
| NestedIrq.NoInterruptDuringExit | core/common/src/tlk_plic.c:193-204 | no interrupt can be taken between the final disable and the return, nor before the handler opens interrupts |
| NestedIrq.CompletesOwnClaim | core/common/src/tlk_plic.c:220-231 | claims and completes match in last-in first-out order |
| NestedIrq.EverythingIsBalanced | core/include/tlk_plic.h:155-164 | back in the main program nothing is claimed and the counter is zero |
| NestedIrq.IsInIsrExact | core/common/src/tlk_plic.c:160-163 | the answer is right if and only if no handler is in progress or the number of external handlers between their counter updates is not a multiple of 256 |
| NestedIrq.DepthOfStack | core/include/tlk_plic.h:155-164 | that number is zero if and only if no external handler is between its counter updates |
| NestedIrq.TimerAndSoftwareGoUnseen | core/common/src/tlk_plic.c:160-163 | timer and software handlers, however deep, get the answer no |
| NestedIrq.ExternalIsSeenIff | core/include/tlk_plic.h:155-164 | a single external handler gets the answer yes if and only if it is between its counter updates |
| NestedIrq.TimerHandlerAnswersNo | core/common/src/tlk_plic.c:160-163 | a run into a timer handler that gets the answer no |
| NestedIrq.ConfinedKept | core/common/src/tlk_plic.c:185-188 | if callbacks enable only what all handlers in progress leave enabled, what is enabled stays within all masks |
| NestedIrq.MaskedClassesStayOut | core/common/src/tlk_mtimer.c:63-85 | then, in every run, a class masked by a handler is not taken anywhere inside it; the timer handler is not re-entered |
| NestedIrq.PoliteIffMaskedStayOut | core/common/src/tlk_mtimer.c:68-72 | a callback's MIE write keeps every masked class out if and only if it enables only what all handlers in progress leave enabled |
| NestedIrq.ClearingAndRestoringArePolite | core/include/tlk_core.h:183-199 | clearing bits, and restoring what was read before, always qualify |
| NestedIrq.SubmissionIsPoliteIff | system/task_planner/task_planner.c:277-288 | submitting work from a callback qualifies if and only if every handler in progress leaves software and external interrupts enabled |
| NestedIrq.EnablingCallbackReopens | system/task_planner/task_planner.c:70 | the planner's write does not qualify, and a run from the main program re-enters the timer handler |
| NestedIrq.ReachCallback | core/common/src/tlk_plic.c:217-228 | from its entry every handler reaches its callback with MIE masked and interrupts on |
| NestedIrq.CallbackAdmitsExactly | core/common/src/tlk_plic.c:182-191 | from any state, in the callback exactly those classes can be taken that were enabled before and that the handler leaves enabled |
| NestedIrq.CallbackHasClaimed | core/common/src/tlk_plic.c:218-228 | there the source of an external or software interrupt is claimed, and an external handler is counted |
| NestedIrq.HandlerReturns | core/common/src/tlk_plic.c:228-236 | from its callback a handler runs to its return, which leaves the hart as it was interrupted, claims and count included |
| NestedIrq.RunStaysExact | core/common/src/tlk_plic.c:168-244 | while handlers leave MIE alone, MIE is at every moment exactly what all masks leave |
| NestedIrq.OpenHandlerAdmitsExactly | core/common/src/tlk_plic.c:168-244 | over every such run, at any depth, an interrupt can be taken if and only if the main program had its class enabled and every handler in progress leaves it enabled |
| Pmp.NapotRoundTrip | core/common/src/tlk_pmp.c:19-22 | decoding gives back base and size if and only if the size is a power of two from 8 bytes to 2^35 and the base is aligned to it, the 2^32 case included |
| Pmp.RegularRoundTrips | core/common/src/tlk_pmp.c:19-22 | every such region round-trips |
| Pmp.DecodedIsRegular | core/common/src/tlk_pmp.c:19-22 | every register value whose base fits 32 bits decodes to such a region |
| Pmp.MaskAndShiftIsByteUpdate | core/common/src/tlk_pmp.c:30-37 | the mask and shift replace one byte of the word and keep the other three |
| Pmp.MaskAndShiftUpdates | core/common/src/tlk_pmp.c:30-37 | on the four configuration bytes of a register the driver's expression replaces the entry's byte |
| Pmp.WriteConfigIs | core/common/src/tlk_pmp.c:24-40 | one configuration byte changes, or nothing if it is locked |
| Pmp.AddrWriteTakesIff | core/common/src/tlk_pmp.c:42-71 | an address write takes effect if and only if neither the entry's lock bit nor a locked TOR entry above it is set |
| Pmp.LockSticks | core/common/src/tlk_pmp.c:75-102 | configuring with the lock bit set is final, without it the entry can be configured again |
| Pmp.ConfigureFrame | core/common/src/tlk_pmp.c:75-113 | configuring an entry changes what no other entry matches, except the lower bound of an unlocked TOR entry after it |
| Pmp.ConfigureTakesEffectIff | core/common/src/tlk_pmp.c:75-102 | the entry ends as asked if and only if no lock stands against a change |
| Pmp.SchemeIsSet | core/common/src/tlk_pmp.c:77-93 | NAPOT always comes out right, TOR if and only if the caller's bit 4 is clear |
| Pmp.RestoreAddrsIs | core/common/src/tlk_pmp.c:136-143 | exactly the unlocked addresses are restored |
| Pmp.RestoreCfgsIs | core/common/src/tlk_pmp.c:145-146 | exactly the unlocked configurations are restored |
| Pmp.RestoreExactIff | core/common/src/tlk_pmp.c:119-147 | the saved state is reproduced if and only if the locked parts already hold it |
| Pmp.RestoreFromResetOrRetention | core/common/src/tlk_pmp.c:149-153 | from reset, or with registers retained, restoring is exact |
| Pmp.ConfigFirstExactIff | core/common/src/tlk_pmp.c:134-147 | configurations first would need every address the saved state locks to be in place |
| Pmp.ConfigFirstFails | core/common/src/tlk_pmp.c:134-147 | from reset, configurations first fails for every saved state with a locked address that is not zero, and the driver's order succeeds |
| Pmp.Driver.constructor | core/common/src/tlk_pmp.c:13-14 | the retention copies exist with the right sizes |
| Pmp.Driver.WriteConfigRegister | core/common/src/tlk_pmp.c:24-40 | the read, mask, shift and write changes one configuration byte, or nothing if it is locked |
| Pmp.Driver.ConfigureTor | core/common/src/tlk_pmp.c:75-87 | an unlocked entry then matches from the address below it up to the one asked for |
| Pmp.Driver.ConfigureNapot | core/common/src/tlk_pmp.c:89-102 | an unlocked entry then matches exactly the region asked for |
| Pmp.Driver.DisableEntry | core/common/src/tlk_pmp.c:104-113 | the entry matches nothing, or it was locked and nothing changed |
| Pmp.Driver.Save | core/common/src/tlk_pmp.c:119-132 | the copies are the registers |
| Pmp.Driver.Restore | core/common/src/tlk_pmp.c:134-147 | reproduces the saved state if and only if the locked parts agree |
| Crc32.BitBranches | scripts/tlk_check_fw.py:26-28 | the reference step is: shift, and subtract the polynomial if a one fell out |
| Crc32.BitsLinear | scripts/tlk_check_fw.py:26-28 | what stands above the lowest n bits is only shifted by n steps |
| Crc32.BitsInjective | scripts/tlk_check_fw.py:26-28 | steps lose no information |
| Crc32.SerialIsParallel | scripts/tlk_check_fw.py:65-80 | bits fed one by one, or all at once at the low end, give the same division |
| Crc32.TableIsDivision | scripts/tlk_check_fw.py:29-62 | each of the 256 table entries is eight steps of division of its index |
| Crc32.StepIsBits | scripts/tlk_check_fw.py:78-79 | one turn of the loop is eight steps of division |
| Crc32.TableLoopIsDivision | scripts/tlk_check_fw.py:65-80 | for all byte strings the table method equals bit-serial division |
| Crc32.Crc32Cal | scripts/tlk_check_fw.py:65-80 | the loop computes the bit-serial remainder |
| Crc32.CrcOfWord | scripts/tlk_check_fw.py:65-80 | up to four bytes can be divided at once |
| Crc32.BurstIsDetected | scripts/tlk_check_fw.py:65-80 | strings of equal length that differ only within four consecutive bytes have different CRCs |
| Crc32.SelfCheck | scripts/tlk_check_fw.py:141-149 | a string followed by its CRC has CRC zero |
| Firmware.CheckFirmware | scripts/tlk_check_fw.py:83-156 | the stamped image keeps all bytes but the header, is padded with fewer than 16 bytes 0xFF to 4 mod 16, holds its own length as a number at offset 24 and has CRC zero from 0xFFFFFFFF; exact conditions for leaving a file alone |
| Firmware.Stamp | scripts/tlk_check_fw.py:131-149 | header and CRC turn a padded image into a stamped one |
| Firmware.Pad | scripts/tlk_check_fw.py:121-126 | exactly the padding bytes change |
| Firmware.AppendCrc | scripts/tlk_check_fw.py:141-149 | the last four bytes become the CRC of all before them |
| Firmware.WriteHeader | scripts/tlk_check_fw.py:131-139 | only the six header bytes change; they hold flag, algorithm and length |
| Firmware.PutBytes | scripts/tlk_check_fw.py:136-149 | exactly four bytes change |
| Firmware.StampIsGood | scripts/tlk_check_fw.py:128-149 | an image put together so checks itself and states its own length |
| LittleEndian.SizeRoundTrip | scripts/tlk_check_fw.py:135-139 | the four length bytes give the number back |
| Firmware.RestampGrows | scripts/tlk_check_fw.py:115-129 | stamping a stamped image adds a block |
| RegisterLayout.EmitNode | scripts/generators/registers_gen.py:340-420 | an accepted node starts at its offset, not before the current pointer, and does not end before it starts |
| RegisterLayout.ProcessNode | scripts/generators/registers_gen.py:331-422 | the loop over fields refines the recursive generator, errors included |
| RegisterLayout.ProcessField | scripts/generators/registers_gen.py:340-420 | one turn of that loop does too |
| RegisterLayout.TotalElements | scripts/generators/registers_gen.py:347-350 | the product of all dimensions |
| RegisterLayout.NodeLaidOut | scripts/generators/registers_gen.py:340-420 | a node's members have the declared size and put its registers where they are declared |
| RegisterLayout.NodesLaidOut | scripts/generators/registers_gen.py:331-422 | the same for a whole description of any depth |
| RegisterLayout.MembersTile | scripts/generators/registers_gen.py:331-422 | members and reserved gaps cover the struct without gap or overlap, at any depth |
| RegisterLayout.ChainIsDisjoint | scripts/generators/registers_gen.py:356-368 | so any two elements are disjoint and inside the struct |
| RegisterLayout.GeneratedLayoutIsDeclared | scripts/generators/registers_gen.py:287-422 | whenever a description is accepted, every register element lies at its declared offset, element j of an array j strides further, and all is tiled |
| RegisterLayout.CountIs | scripts/generators/registers_gen.py:301-350 | the number of elements, written out for each form of the repetition block, and when there is none |
| RegisterLayout.ArrayIs | scripts/generators/registers_gen.py:347-352 | an array of n elements holds exactly n copies, copy j that many strides further |
| RegisterLayout.RegisterRepeats | scripts/generators/registers_gen.py:372-409 | a register repeated n times has exactly n elements, element j at its offset plus j times its length |
| RegisterLayout.GroupRepeats | scripts/generators/registers_gen.py:411-420 | a group repeated n times holds exactly n copies of its registers, one packed size apart |
| RegisterLayout.NodeAcceptedIff | scripts/generators/registers_gen.py:340-420 | a node is accepted if and only if it is sound and does not start before the pointer |
| RegisterLayout.DescriptionAcceptedIff | scripts/generators/registers_gen.py:331-422 | a description is accepted if and only if its nodes are sound at every depth and come in order |
| RegisterLayout.PositionsTile | scripts/generators/registers_gen.py:387-399 | bit fields lie side by side from bit 0 to the end of the register |
| RegisterLayout.ReservedIs | scripts/generators/registers_gen.py:95-96 | reserved names begin with that word in either case |
| RegisterLayout.PositionsAscend | scripts/generators/registers_gen.py:144-150 | bit fields do not overlap |
| RegisterLayout.FlagEnum | scripts/generators/registers_gen.py:138-152 | the flag constants are exactly the positions of the one-bit fields that are not reserved, pairwise different and within the register |
| KconfigLoops.LinesOfJoin | scripts/parsers/parse_kconfig.py:91-126 | splitting joined lines gives them back, but for one final empty line |
| KconfigLoops.ContentOfJoin | scripts/parsers/parse_kconfig.py:103-126 | joining expanded texts keeps their non-blank lines in order |
| KconfigLoops.BlockSkips | scripts/parsers/parse_kconfig.py:69-85 | well-nested lines are passed over at any nesting level |
| KconfigLoops.ExtractFindsMatchingEndfor | scripts/parsers/parse_kconfig.py:69-85 | the block of a loop is exactly its body, and the rest starts after its own endfor |
| KconfigLoops.InnerLoopIsTakenInIff | scripts/parsers/parse_kconfig.py:74-85 | a block takes in an inner loop up to its endfor if and only if the inner header is already a loop |
| KconfigLoops.LiteralRangeIsLoop | scripts/parsers/parse_kconfig.py:95-100 | a range between numbers is a loop over exactly these values |
| KconfigLoops.RangeIs | scripts/parsers/parse_kconfig.py:100-102 | those values are, in order, the numerals of its numbers |
| KconfigLoops.ShowIs | scripts/parsers/parse_kconfig.py:104 | a numeral is decimal, without leading zeros, and its value is the number |
| KconfigLoops.LiteralListIsLoop | scripts/parsers/parse_kconfig.py:96-111 | a bracketed list is a loop over exactly its items, in order, without the blanks around them |
| KconfigLoops.StripPadded | scripts/parsers/parse_kconfig.py:111 | stripping takes away exactly the blanks around a text |
| KconfigLoops.PaddingIsIgnored | scripts/parsers/parse_kconfig.py:95-96 | indenting a line does not change what it is |
| KconfigLoops.EndforLine | scripts/parsers/parse_kconfig.py:79 | a line is an endfor if and only if it starts with that word |
| KconfigLoops.SubstIsWeaving | scripts/parsers/parse_kconfig.py:103-105 | substitution replaces every occurrence of the placeholder and nothing else |
| KconfigLoops.OtherPlaceholderStays | scripts/parsers/parse_kconfig.py:103-105 | placeholders of other variables stay |
| KconfigLoops.SimpleLoopExpands | scripts/parsers/parse_kconfig.py:88-126 | a loop over one line of text expands to one copy for each value, in order |
| KconfigLoops.ListLoopExpands | scripts/parsers/parse_kconfig.py:109-118 | a concrete list loop over a and b expands to a and b |
| KconfigLoops.PlaceholderRangeBecomesLoop | scripts/parsers/parse_kconfig.py:76-105 | a range up to an outer variable is text before substitution and a loop after it |
| KconfigLoops.MeantUnrolling | scripts/parsers/parse_kconfig.py:88-126 | what such a template means: one copy of the text after the inner loop for each value |
| KconfigLoops.TextIsPutOutOnce | scripts/parsers/parse_kconfig.py:88-126 | what it expands to: that text once, not substituted |
| KconfigLoops.NonLiteralHeaderMisexpands | scripts/parsers/parse_kconfig.py:88-126 | a concrete template that means y1 and y2 and expands to y{i} |
| KconfigLoops.NonLiteralHeaderStealsEndfor | scripts/parsers/parse_kconfig.py:69-126 | after a header that is not yet a loop, the rest of the outer body is expanded outside the outer loop |
| KconfigLoops.ExpandLinesIsUnroll | scripts/parsers/parse_kconfig.py:88-126 | line by line, expansion is the outer-first unrolling of the syntax tree, up to blank lines |
| KconfigLoops.ExpandTextIsUnroll | scripts/parsers/parse_kconfig.py:88-126 | the same for the text of a template |
| KconfigLoops.ExtractBlock | scripts/parsers/parse_kconfig.py:69-85 | the index loop finds the block about which this is proved |
| KconfigLoops.SubstituteBlock | scripts/parsers/parse_kconfig.py:103-105 | every line of the block is substituted |
| KconfigLoops.ExpandValues | scripts/parsers/parse_kconfig.py:102-106 | the body once for each value, in order |
| KconfigLoops.ExpandForLoops | scripts/parsers/parse_kconfig.py:88-126 | the script's loop computes the expansion, and its recursion ends because blocks get shorter |

## Left out

- StorageApi.Write: the device found contains the request, which RangeTestExact and FoundContains show to fail exactly for wrapping requests; base and size of a paged device are multiples of its page and its clean byte is 0xFF, without which CleanByteMustBeFF shows that some page goes wrong.
- StorageApi.Erase: same conditions as Write.
- StorageApi.Read: a destination that is the device's own page buffer is not modelled.
- StorageDevice.Device.Write: the caller's buffer is a value, so a source buffer that overlaps the device buffer is not modelled.
- StorageRegistry.Registry.Add: a device stands for its list node; a node that is linked into another list is not modelled.
- WorkQueue.Ring.Submit: is one atomic step; a caller that had interrupts off and relies on it is not modelled.
- WorkPlanner.WorkIsConserved: the clock stays below 2^63 - 1, the work task is never paused, and work functions return.
- WorkPlanner.SleepsOnWorkIff: the compare test enters as a parameter; the power-management branch of the idle function is not modelled.
- Deadlines.Planner.Turn: 64-bit fields are read and written atomically, and no interrupt changes a deadline during the pass.
- SwTimers.TimerService.MtimerIrq: the interrupt is not re-entered and nobody else starts a timer during its sweep.
- Mtimer.GetMtime: the counter does not wrap around 2^64 during the call.
- NestedIrq.StepKeepsInvariant: MXSTATUS, the privilege bits of MSTATUS, interrupt priorities and fences are not modelled, nor are builds without nesting.
- Pmp.Driver.ConfigureTor: fences, and address bits that hardware may hard-wire, are not modelled.
- Firmware.CheckFirmware: reading and writing the file and the printed messages are not modelled.
- RegisterLayout.ProcessNode: YAML loading, C text, comments and names of reserved members, negative offsets, counts and widths, fields that are not maps, analogue registers, repeated devices and enums of wide fields are not modelled.
- KconfigLoops.ExpandForLoops: lines end with a line feed, white space is blank and tab, digits and word characters are ASCII; the property macros that are expanded elsewhere are not modelled.
- KconfigLoops.ExpandTextIsUnroll: holds up to blank lines, because joining an empty expansion leaves one.
- Interrupt controller request clearing and the wait-for-interrupt preparation of the PLIC driver.
- Task macros other than the yield that a submission performs; a task's delay is part of its effect in the pass.
- Menu configuration, west commands, package tools, tool-chain discovery, C++ wrappers, drivers for I2C, SPI, DMA and radio, string and memory helpers, and samples: thin or easy, or over code that is not part of this model.

# Verified models of moderncli's algorithms

moderncli is a set of header-only C++ utilities. This project models the headers that hold
algorithms and lock-protected state machines of their own, and proves what they promise, or exactly
when they keep it. `dafny verify dfyconfig.toml` checks everything.

| file | what it models |
|---|---|
| `ConcurrentDictionary.dfy` | the lock-free dictionary as interleaved atomic steps: insert, emplace, find, contains |
| `Dictionary.dfy` | the same dictionary used by one thread: a table function, and linked nodes that refine it |
| `TaskPool.dfy`, `TaskQueue.dfy`, `TimerSchedule.dfy`, `TimerQueue.dfy` | the pool of workers, the single-worker queue, the timer thread |
| `Semaphore.dfy`, `Barrier.dfy` | the counting semaphore and the barrier |
| `Keyfile.dfy`, `KeyfileLines.dfy` | loading and saving of sectioned key files, and exactly how each line is read |
| `HashRing.dfy` | consistent hashing |
| `CrcTheory.dfy`, `Crc16.dfy`, `Crc32.dfy` | CRC-16 and CRC-32 over one theory of linear registers |
| `CrcDivision.dfy`, `Crc16Remainder.dfy`, `Crc32Remainder.dfy` | both as remainders of polynomials over two elements |
| `Pager.dfy`, `Pool.dfy` | the bump allocator and the slot pool |
| `Encoding.dfy`, `Base64Texts.dfy` | base64 and hexadecimal text |
| `CommandLine.dfy`, `CommandLineFaults.dfy`, `Args.dfy` | the meaning of a command line, when it fails and how, and its parser |
| `Strings.dfy` | split, join and the UTF-8 check |
| `Numbers.dfy`, `Durations.dfy`, `DurationForms.dfy` | number printing and scanning, bounded values, durations |

## How it is built

- An object whose fields the code updates is a class. Its methods are tied to functions on values,
  and the properties are lemmas about those functions, or about whole runs of them.
- A lock-protected object has a protocol: a state, events, and a `Next` predicate in which each
  lock-held region is one atomic step and running a job is a step of its own. Runs are arbitrary
  sequences of steps by any number of threads. Wake-ups are nondeterministic, so spurious ones are
  included, and the clock is a number that never goes back. One class method per lock-held region is
  proved to be the protocol's step.
- What a run has come to is also read off its events alone: who holds, what is accepted, what an insert
  published.
- The lock-free dictionary has one step for each atomic load, store and exchange.
- Unsigned widths are written out where the code depends on them: the wrapped subtraction in base64,
  the 32-bit accumulator and counters, rounding of sizes, 32-bit durations.
- Maps without an order are walked in an order chosen by the proof's adversary: the keyfile results
  hold for every order.

## Where the code and its purpose differ

Each of these is proved with its exact condition or shown by an example in the table below.

- `try_emplace` compares chain keys with a key it has already moved from: it can insert a key twice,
  and it can refuse a new key and drop its value.
- A semaphore counts queued threads as active, so more waiters than the count can strand each other
  after the last release.
- `refresh` of an expired timer erases it and answers true.
- `task_queue` may run one more job after shutdown if its worker was in the timed wait.
- `size_` of the ring counts a node twice when it gains points it had lost to a collision, which some
  operations bring about unless any two nodes share no point or all; and it stays zero for rings
  built from a list.
- The pager's guard leaves room for a pointer, not for the page header, and `used` has 32 bits.
- Base64 of one byte decodes to two, and of a positive multiple of three bytes to none.
- The magnitude of a negative value is limited by the upper bound, and a negative upper bound is not
  enforced at all.
- `mem_value` wraps its power of ten from size 11 on: it prints wrong digits at sizes 11 to 32 and
  nothing from 33 on.
- A scan whose bound is so large that its product wraps takes digits that are out of bounds.
- u8verify accepts overlong forms, surrogates and numbers past U+10FFFF.

## Model

| member | source | states |
|---|---|---|
| `ConcurrentDictionary.PushIsItsMake` | src/atomics.hpp:309-321 | every exchange publishes the key and value its own insert was called with, under the node that insert made, and no insert has two: the log is exactly the pairs the inserts were given |
| `ConcurrentDictionary.EveryAnswerIsNewestInsert` | src/atomics.hpp:374-393 | every answer belongs to one call that asked for its key, loaded the head once and walked, and is the value of the newest insert of that key published by the load, or nothing exactly if there was none |
| `ConcurrentDictionary.InserterIsNeverStuck` | src/atomics.hpp:309-321 | an insert can always take its next step, and at its exchange it publishes its own pair exactly if the head is still the one its node points to |
| `ConcurrentDictionary.BucketsAreTheirPushes` | src/atomics.hpp:309-321 | in every interleaving of inserters and searchers, the nodes reachable from a bucket head are exactly the successful exchanges on that bucket, newest first |
| `ConcurrentDictionary.PublishedNodesNeverChange` | src/atomics.hpp:314-317 | once published, a node keeps its key, value and link for the rest of the run, and the list of published nodes only grows at its newest end |
| `ConcurrentDictionary.CountLagsByPendingInserters` | src/atomics.hpp:319 | `count_` plus the inserters between their exchange and their `fetch_add` is the number of reachable nodes |
| `ConcurrentDictionary.SearchAnswersAsOfItsLoad` | src/atomics.hpp:374-393 | find and contains return what a look-up in the dictionary at the moment of their bucket-head load returns, whatever runs meanwhile |
| `ConcurrentDictionary.WalkStaysOnLoadedChain` | src/atomics.hpp:376-380 | a search only ever stands on nodes of the chain it loaded, and has met no match before |
| `ConcurrentDictionary.SearchIsNeverStuck` | src/atomics.hpp:377-380 | a search that has begun can always take its next step: it never meets a missing node |
| `ConcurrentDictionary.SearchTakesItsDepth` | src/atomics.hpp:374-393 | a search can answer exactly when it has made as many steps as entries lay before its key in its bucket at the load, and makes no more, however many inserts run meanwhile |
| `ConcurrentDictionary.InsertedKeyIsFound` | src/atomics.hpp:314-317 | no lost insert: a search whose head load comes after the exchange of a key answers the value that the newest insert of that key published by then was called with |
| `ConcurrentDictionary.FailedExchangeMeansProgress` | src/atomics.hpp:314-317 | an exchange finds a changed head only because another insert on the same bucket succeeded since the load |
| `ConcurrentDictionary.HeadChangesOnlyByPush` | src/atomics.hpp:317 | a bucket head changes only by a successful exchange on that bucket |
| `ConcurrentDictionary.LogGrows` | src/atomics.hpp:309-321 | what was published stays published: an earlier log is the older part of every later one |
| `ConcurrentDictionary.RunKeepsInv` | src/atomics.hpp:309-393 | the inductive invariant behind the results above holds in every reachable state |
| `DictionaryKeys.SameBucketIff` | src/atomics.hpp:481-483 | keys share a bucket exactly if their hashes differ by a multiple of the number of buckets |
| `DictionaryTable.InsertPushes` | src/atomics.hpp:309-321 | insert and emplace push on the stack of values of their key and change no other key |
| `DictionaryTable.RemovePops` | src/atomics.hpp:415-435 | remove pops that stack, uncovering the value inserted before, and tells whether there was one |
| `DictionaryTable.AssignReplacesTop` | src/atomics.hpp:323-340 | insert_or_assign replaces the top of the stack or starts one; other keys keep theirs |
| `DictionaryTable.FindSeesTop` | src/atomics.hpp:374-382 | find sees the top of the stack, and nothing exactly when it is empty |
| `DictionaryTable.TryEmplaceKeepsUniqueIff` | src/atomics.hpp:356-372 | try_emplace searches with the key it has already moved from: it keeps keys unique exactly when the key is new or what the move left behind is found in the chain |
| `DictionaryTable.TryEmplaceCanDuplicate` | src/atomics.hpp:358-370 | a key whose move leaves a different, absent key behind is inserted a second time |
| `DictionaryTable.TryEmplaceCanDrop` | src/atomics.hpp:358-366 | a new key whose move leaves behind a key found in the chain is refused, and its pair is lost |
| `DictionaryTable.ApplyRefinesMapIff` | src/atomics.hpp:297-435 | on unique keys an operation changes a finite map and answers as the map does exactly if an insert is of a new key, and what the move of a try_emplace leaves behind is found in the chain exactly if the key is |
| `DictionaryTable.RunRefinesMapIff` | src/atomics.hpp:297-435 | a sequence of operations follows a finite map, contents and answers, after every step exactly if that holds of every step |
| `DictionaryTable.CopiedKeysSuit` | src/atomics.hpp:297-435 | it holds of every sequence without insert in which moving leaves keys as they were |
| `DictionaryTable.KeysListStacks` | src/atomics.hpp:445-455 | keys() lists each key once for each value it has |
| `DictionaryTable.RunAgreesOnSizeAndKeys` | src/atomics.hpp:441-455 | after every such sequence size() is the size of the map and keys() lists each of its keys once |
| `Dictionary.Dictionary.constructor` | src/atomics.hpp:253-257 | a new table has only empty buckets and counts nothing |
| `Dictionary.Dictionary.Insert` | src/atomics.hpp:309-321 | the linked chains change as the table function says; links stay acyclic and within their bucket |
| `Dictionary.Dictionary.Publish` | src/atomics.hpp:314-319 | linking a made node in at the bucket head, and counting it |
| `Dictionary.Dictionary.Locate` | src/atomics.hpp:417-433 | the chain walk: the newest node of the key, if any, and its predecessor |
| `Dictionary.Dictionary.Find` | src/atomics.hpp:374-382 | the walk returns what the table look-up returns |
| `Dictionary.Dictionary.Contains` | src/atomics.hpp:384-393 | true exactly when the key has a value |
| `Dictionary.Dictionary.InsertOrAssign` | src/atomics.hpp:323-340 | assigns in place or inserts, as the table function says |
| `Dictionary.Dictionary.Assign` | src/atomics.hpp:329-331 | overwriting the value of a linked node changes that entry and no other |
| `Dictionary.Dictionary.TryEmplace` | src/atomics.hpp:356-372 | searches with the moved-from key and inserts what was moved, as the table function says |
| `Dictionary.Dictionary.Remove` | src/atomics.hpp:415-435 | unlinks the newest node of the key and counts it off |
| `Dictionary.Dictionary.UnlinkFirst` | src/atomics.hpp:425-426 | unlinking a first node through the bucket head keeps the rest of the chain |
| `Dictionary.Dictionary.UnlinkAfter` | src/atomics.hpp:423-424 | unlinking a later node through its predecessor keeps the rest of the chain |
| `Dictionary.Dictionary.Clear` | src/atomics.hpp:297-307 | every bucket is emptied and the count is zero |
| `Dictionary.Dictionary.Size` | src/atomics.hpp:441-443 | the count is the number of linked nodes |
| `Dictionary.Dictionary.ListKeys` | src/atomics.hpp:445-455 | the walk over all buckets lists the keys of the table in order |
| `TaskPoolProtocol.DispatchAcceptsIff` | src/tasks.hpp:535-541 | dispatch accepts exactly when some start has taken effect and no drain has begun since |
| `TaskPoolProtocol.StateFollowsEvents` | src/tasks.hpp:503-571 | the pool is started exactly when some start has come since the last drain returned, and accepting exactly when no drain has begun since the last start that took effect |
| `TaskPoolProtocol.WorkersOfStart` | src/tasks.hpp:503-533 | from a start that takes effect until a drain returns there are as many workers as asked for, else as the hardware has, else one |
| `TaskPoolProtocol.QueuedCanBeTaken` | src/tasks.hpp:519-529 | while jobs are queued there are workers, each runs a job or can take the front one |
| `TaskPoolProtocol.TakenInAcceptanceOrder` | src/tasks.hpp:525-541 | over every run, what workers took followed by what is queued is exactly what dispatch accepted, in order |
| `TaskPoolProtocol.TakenIsExecutedOrInFlight` | src/tasks.hpp:526-529 | what was taken has either run to its end or is being run by exactly one worker |
| `TaskPoolProtocol.NothingLostOrDuplicated` | src/tasks.hpp:503-541 | accepted = executed + in flight + queued, with multiplicities |
| `TaskPoolProtocol.DrainReturnsAfterAllRan` | src/tasks.hpp:556-571 | when drain returns every accepted job has run exactly as often as it was accepted, and nothing is queued or in flight |
| `TaskPoolProtocol.NothingAcceptedAfterDrain` | src/tasks.hpp:535-537 | from the moment drain begins, nothing is accepted until a start that takes effect |
| `TaskPoolProtocol.StartDuringDrainIsIgnored` | src/tasks.hpp:509 | a start while a drain is still joining does nothing |
| `TaskPoolProtocol.DrainIsNeverStuck` | src/tasks.hpp:521-566 | a drain can return exactly when no steps it waits for are left, and until then one of them can be made |
| `TaskPoolProtocol.StepTakesOneOff` | src/tasks.hpp:520-571 | every take, finish, exit and join takes one off the number of those steps, and nothing else the pool does in a drain changes it |
| `TaskPoolProtocol.DrainTakesStepsLeft` | src/tasks.hpp:556-571 | a drain takes exactly the steps left when it began: two a queued job, one to the exit of each worker, one more for each that runs a job, one a join |
| `TaskPoolProtocol.RunKeepsInv` | src/tasks.hpp:503-571 | the inductive invariant behind the results above holds in every reachable state |
| `TaskPool.TaskPool.constructor` | src/tasks.hpp:471 | a pool made without a count is neither accepting nor started |
| `TaskPool.TaskPool.Start` | src/tasks.hpp:503-533 | the lock-held region of start is that step of the protocol |
| `TaskPool.TaskPool.Dispatch` | src/tasks.hpp:535-541 | so is dispatch, with its answer |
| `TaskPool.TaskPool.Wake` | src/tasks.hpp:520-528 | so is a worker whose wait ends: it takes the front job or leaves |
| `TaskPool.TaskPool.BeginDrain` | src/tasks.hpp:557-560 | so is the first region of drain |
| `TaskPool.TaskPool.EndDrain` | src/tasks.hpp:568-570 | so is its last one |
| `TimerSchedule.EventsDoAsExpected` | src/tasks.hpp:119-308 | in every run each add, repeats, cancel, reset, refresh, clear and firing changes the pending timers exactly as expected, id by id, and gives the answer expected; a timer without a period that refresh refuses stays as it is |
| `TimerSchedule.CanFireIff` | src/tasks.hpp:290-308 | a timer can fire exactly when no task is running, there was no shutdown, and some pending timer is due |
| `TimerSchedule.FiresTheEarliestDue` | src/tasks.hpp:297-303 | no timer fires before its expiry, and the one that fires is due no later than any other pending one |
| `TimerSchedule.AddedFireInOrder` | src/tasks.hpp:297-308 | of two timers added one after the other and not touched since, the one due earlier fires first, and of two due together the one added first |
| `TimerSchedule.FiresInOrderOfExpiry` | src/tasks.hpp:297-308 | of two pending timers the one due earlier fires first |
| `TimerSchedule.FiresInQueueOrder` | src/tasks.hpp:297-308 | of two pending timers the one ahead in the queue fires first |
| `TimerSchedule.AddedBehindItsEquals` | src/tasks.hpp:122 | a new timer goes behind every pending one due no later and ahead of every later one |
| `TimerSchedule.PendingWhenDue` | src/tasks.hpp:304-307 | after its firings an untouched periodic timer waits for its next due time, and its latest firing was due |
| `TimerSchedule.PeriodicKeepsSchedule` | src/tasks.hpp:304-307 | first due at E, after k firings it is pending for E + k * period, however late each firing was |
| `TimerSchedule.PeriodicFiringsBounded` | src/tasks.hpp:300-307 | by time T it has fired at most (T - E) / period + 1 times, and never before E |
| `TimerSchedule.GoneStaysGone` | src/tasks.hpp:191-201 | an id given out and no longer pending never fires again |
| `TimerSchedule.CancelIsFinal` | src/tasks.hpp:191-201 | cancel succeeds exactly on pending timers, and after it succeeds no firing of that id starts |
| `TimerSchedule.OneShotFiresOnce` | src/tasks.hpp:303-304 | a timer without a period fires at most once |
| `TimerSchedule.IdsAreNeverReused` | src/tasks.hpp:121 | every add hands out an id never handed out before |
| `TimerSchedule.ResetReschedules` | src/tasks.hpp:203-221 | reset reschedules exactly the pending timers, changing the period only for a nonzero interval |
| `TimerSchedule.RefreshKeepsIffNotExpired` | src/tasks.hpp:223-243 | refresh answers true for every pending periodic timer, but the timer stays pending exactly if it had not expired |
| `TimerSchedule.RefreshDropsExpiredExample` | src/tasks.hpp:233-239 | an expired timer is dropped while the answer is true |
| `TimerSchedule.RunKeepsInv` | src/tasks.hpp:119-318 | on every run timers stay ordered by expiry, each id is pending at most once, and ids only go up |
| `TimerQueue.TimerQueue.constructor` | src/tasks.hpp:85 | a new queue is a start state of the protocol |
| `TimerQueue.TimerQueue.At` | src/tasks.hpp:119-125 | adding a one-shot timer is that step of the protocol |
| `TimerQueue.TimerQueue.Once` | src/tasks.hpp:136-143 | so is a one-shot timer a delay from the clock read before locking |
| `TimerQueue.TimerQueue.PeriodicMilliseconds` | src/tasks.hpp:149-157 | so is a periodic one, whose shortened first delay wraps in 32 bits |
| `TimerQueue.TimerQueue.Periodic` | src/tasks.hpp:159-166 | so is a periodic one given durations |
| `TimerQueue.TimerQueue.Find` | src/tasks.hpp:170-173 | the search of every operation on an id gives the position of its timer, or the end |
| `TimerQueue.TimerQueue.Repeats` | src/tasks.hpp:168-175 | the period of a pending timer, zero for any other id |
| `TimerQueue.TimerQueue.SetRepeats` | src/tasks.hpp:177-185 | changing the period of a pending timer keeps its place |
| `TimerQueue.TimerQueue.Cancel` | src/tasks.hpp:191-201 | erases the timer with that id, with its answer |
| `TimerQueue.TimerQueue.Reset` | src/tasks.hpp:203-221 | moves the timer with that id, with its answer |
| `TimerQueue.TimerQueue.Refresh` | src/tasks.hpp:223-243 | moves or drops the timer with that id, with its answer |
| `TimerQueue.TimerQueue.Poll` | src/tasks.hpp:290-308 | one pass of the thread fires the first timer exactly when it is due |
| `TaskQueueProtocol.DispatchAcceptsIff` | src/tasks.hpp:355-362 | dispatch accepts exactly when the queue was started and not shut down since, and its limit, if any, is above what was accepted less what was taken since the last clear |
| `TaskQueueProtocol.PriorityAcceptsIff` | src/tasks.hpp:346-353 | priority accepts exactly when the queue was started and not shut down since |
| `TaskQueueProtocol.QueuedCanBeTaken` | src/tasks.hpp:443-456 | while the queue runs and holds a job, the worker can take it, unless it first finishes another |
| `TaskQueueProtocol.NothingLostOrDuplicated` | src/tasks.hpp:346-411 | accepted = executed + in flight + queued + cleared, with at most one in flight |
| `TaskQueueProtocol.FirstInFirstOut` | src/tasks.hpp:355-362 | with dispatch only, executed, then in flight, then queued is exactly the accepted sequence, also across shutdown and restart |
| `TaskQueueProtocol.PriorityIsTakenNext` | src/tasks.hpp:346-353 | a job accepted by priority is the next one taken, unless another one overtakes it or the queue is cleared |
| `TaskQueueProtocol.TakenAfterShutdownIff` | src/tasks.hpp:443-453 | after shutdown cleared `running_`, a job can be taken before the next startup exactly if the worker was in its wait and something was queued |
| `TaskQueueProtocol.AtMostOneTakenAfterShutdown` | src/tasks.hpp:443-453 | and then at most one |
| `TaskQueueProtocol.OtherwiseNothingTaken` | src/tasks.hpp:443-453 | otherwise none |
| `TaskQueueProtocol.TakenAfterShutdownExample` | src/tasks.hpp:446-453 | a whole run in which it is |
| `TaskQueueProtocol.NothingAcceptedAfterShutdown` | src/tasks.hpp:346-362 | nothing is accepted between a shutdown and the next startup |
| `TaskQueue.TaskQueue.constructor` | src/tasks.hpp:437 | a new queue is not running and has no thread |
| `TaskQueue.TaskQueue.Priority` | src/tasks.hpp:346-353 | the lock-held region of priority is that step of the protocol, with its answer |
| `TaskQueue.TaskQueue.Dispatch` | src/tasks.hpp:355-362 | so is dispatch, with its size limit |
| `TaskQueue.TaskQueue.Startup` | src/tasks.hpp:370-375 | so is startup |
| `TaskQueue.TaskQueue.StopRunning` | src/tasks.hpp:377-382 | so is the region of shutdown before its join |
| `TaskQueue.TaskQueue.Clear` | src/tasks.hpp:408-411 | so is clear |
| `TaskQueue.TaskQueue.AtLoopTop` | src/tasks.hpp:445-456 | so is the worker from the top of its loop to its wait or to its unlock |
| `TaskQueue.TaskQueue.AfterWait` | src/tasks.hpp:448-456 | so is the worker after its wait, which tests the queue again but not `running_` |
| `SemaphoreProtocol.StateFollowsEvents` | src/sync.hpp:285-403 | in every run the holders are those admitted and not released since, the queue those that entered and neither woke nor gave up, and the count that of the last resize unless cancelled since |
| `SemaphoreProtocol.EntryAnswersIff` | src/sync.hpp:296-360 | when each acquire form admits, refuses, throws or queues, by who holds, who queues and the count |
| `SemaphoreProtocol.WaitEndsIff` | src/sync.hpp:300-356 | a queued thread can go on exactly when all fit, admitted unless cancelled; a timed one can give up exactly when not all fit |
| `SemaphoreProtocol.WaitReturnsIff` | src/sync.hpp:389-394 | wait returns at once exactly to a holder, or when nobody holds or queues |
| `SemaphoreProtocol.WaiterMayLeaveIff` | src/sync.hpp:396 | otherwise it may return exactly when nobody holds or queues |
| `SemaphoreProtocol.ActiveIsHoldersPlusQueued` | src/sync.hpp:285-360 | on every run `active_` is the number of holders plus queued threads and never wraps |
| `SemaphoreProtocol.AdmissionRespectsCount` | src/sync.hpp:300-307 | a thread is admitted only when everyone holding or queued, itself included, fits within the count |
| `SemaphoreProtocol.HoldersWithinCount` | src/sync.hpp:296-403 | as long as no resize lowers the count, holders never exceed it |
| `SemaphoreProtocol.NobodyAdmittedAfterCancel` | src/sync.hpp:383-397 | after reset or wait, and until a resize, nobody is admitted |
| `SemaphoreProtocol.WaitReturnsWhenDrained` | src/sync.hpp:389-397 | when wait returns to a thread that holds nothing, there is no holder and no queued thread |
| `SemaphoreProtocol.QueuedAdvancesIff` | src/sync.hpp:300-301 | a queued thread can advance exactly when everyone holding or queued fits within the count |
| `SemaphoreProtocol.AdmissionPossibleIff` | src/sync.hpp:296-381 | in every reachable state some continuation without a reset, resize or wait by a thread that holds nothing admits somebody exactly when the count is neither zero nor cancelled and the untimed waiters do not outnumber it |
| `SemaphoreProtocol.StrandedTogether` | src/sync.hpp:300-301 | more untimed waiters than the count strand each other: even with no holder left, nobody is admitted until a reset, wait or resize |
| `SemaphoreProtocol.ReleaseStrandsTwoWaiters` | src/sync.hpp:285-301 | it happens: a binary semaphore, two threads queued behind the holder, and its release |
| `Semaphore.Semaphore.constructor` | src/sync.hpp:256-261 | the initial count, with its two fall-backs |
| `Semaphore.Semaphore.Release` | src/sync.hpp:285-294 | the lock-held region of release is that step of the protocol |
| `Semaphore.Semaphore.Enter` | src/sync.hpp:296-360 | so is each acquire form up to its wait, with its outcome |
| `Semaphore.Semaphore.Pass` | src/sync.hpp:303-307 | so is what follows the wait: admission or cancellation |
| `Semaphore.Semaphore.Wake` | src/sync.hpp:301-307 | so is a queued thread that sees its condition hold |
| `Semaphore.Semaphore.Timeout` | src/sync.hpp:340-341 | so is a timed acquire that gives up |
| `Semaphore.Semaphore.Reset` | src/sync.hpp:383-387 | so is reset |
| `Semaphore.Semaphore.Wait` | src/sync.hpp:389-397 | so is wait up to its wait condition |
| `Semaphore.Semaphore.Resize` | src/sync.hpp:399-403 | so is resize |
| `BarrierProtocol.CountsFollowArrivals` | src/sync.hpp:454-465 | after A arrivals at a barrier with limit L > 0, `count_` is L - A mod L, `sequence_` is A div L modulo its width, and A mod L threads wait in the current generation |
| `BarrierProtocol.NobodyLeavesEarly` | src/sync.hpp:463 | no thread of generation g leaves before arrival (g + 1) * L |
| `BarrierProtocol.PassingFreesTheGeneration` | src/sync.hpp:458-461 | the arrival that completes a generation lets every thread waiting in it leave at once |
| `BarrierProtocol.MayLeaveIff` | src/sync.hpp:463 | a waiting thread may leave exactly when the number of generations completed since it arrived is no multiple of 2^32, zero included |
| `BarrierProtocol.ZeroLimitNeverBlocks` | src/sync.hpp:456 | a barrier with limit zero lets everyone through |
| `Barrier.Barrier.constructor` | src/sync.hpp:450 | a new barrier expects its limit of arrivals |
| `Barrier.Barrier.Arrive` | src/sync.hpp:454-463 | wait up to its block is the arrival step of the protocol |
| `KeyfileText.LoadPrinted` | src/keyfile.hpp:148-206 | loading what save wrote into any sections merges in the normal form of what was saved, whatever order the maps were walked in |
| `KeyfileText.RoundTrip` | src/keyfile.hpp:148-206 | for well-formed sections, save then load gives the sections with empty values and then key-less sections dropped |
| `KeyfileText.LoadSaveLoad` | src/keyfile.hpp:148-206 | the same for whatever load gathered from any text at all |
| `KeyfileText.ReloadIsStable` | src/keyfile.hpp:148-206 | from the first reload on, saving and loading change nothing |
| `KeyfileText.LoadedIsWellFormed` | src/keyfile.hpp:154-182 | keys, values and ids read from any text are well-formed |
| `KeyfileText.EntryReadsBackIff` | src/keyfile.hpp:168-181 | an entry with a value, on one line, reads back as itself exactly when key and value are well-formed |
| `KeyfileText.HeaderReadsBack` | src/keyfile.hpp:163-166 | a printed section header reads back as that section |
| `KeyfileText.ReadLineIsGood` | src/keyfile.hpp:155-181 | whatever a line is read as, it is well-formed |
| `KeyfileText.ReadSection` | src/keyfile.hpp:195-203 | reading a printed section fills exactly its keys that have a value |
| `KeyfileText.NormalTwice` | src/keyfile.hpp:189-205 | the normal form of a normal form is itself |
| `KeyfileLines.ReadsAsEntryIff` | src/keyfile.hpp:154-182 | a line is read as an entry exactly if it is that key and value, both well-formed, around an equals sign, with any blanks before, between and after; the value may be empty |
| `KeyfileLines.ReadsAsHeaderIff` | src/keyfile.hpp:155-166 | a line is read as a header exactly if it is that id in brackets, with any blanks around |
| `KeyfileLines.SkippedIff` | src/keyfile.hpp:156-171 | a line is skipped exactly if it is no header, and does not begin with a letter or digit or has no equals sign |
| `KeyfileLines.ReadsLineByLine` | src/keyfile.hpp:153-154 | a text is read line by line, the last line also without a line break |
| `KeyfileLines.SavedForm` | src/keyfile.hpp:186-205 | one key with a value in one section is saved as the bracketed id, the entry and an empty line |
| `Keyfile.Data.constructor` | src/keyfile.hpp:120 | a new keyfile has no sections |
| `Keyfile.Data.Remove` | src/keyfile.hpp:140-142 | the section is gone and no other changes |
| `Keyfile.Data.Fetch` | src/keyfile.hpp:144-146 | looking a section up creates it, empty, and changes nothing else |
| `Keyfile.Data.LoadList` | src/keyfile.hpp:70-75 | the entries of a list are set in one section, the later of two for a key staying |
| `Keyfile.Data.Load` | src/keyfile.hpp:148-184 | reading line by line gathers what the text means; a missing file changes nothing |
| `Keyfile.Data.Take` | src/keyfile.hpp:155-181 | one turn of that loop does to the sections what the meaning of the line says |
| `Keyfile.Data.SaveEntries` | src/keyfile.hpp:199-202 | the entries that have a value are written in some order of the keys |
| `Keyfile.Data.SaveSections` | src/keyfile.hpp:195-204 | the sections that have keys are written in some order of the ids |
| `Keyfile.Data.Save` | src/keyfile.hpp:186-206 | the file holds the sections printed in some order; saving creates the default section |
| `RingLookup.PointsAre` | src/hash.hpp:119-121 | the points of a node are the hashes of its name, a hash sign and each number below the count of virtual nodes |
| `RingLookup.DecimalReadsBack` | src/hash.hpp:120 | those numbers are printed in decimal, without leading zeros |
| `RingLookup.LowerBoundOrFirstIsSuccessor` | src/hash.hpp:151-154 | the lower bound, or else the first point, is the circular successor |
| `RingLookup.InsertMovesOnlyToNewNode` | src/hash.hpp:116-128 | inserting a node changes the owner of exactly the keys one of its new points comes before, and to that node; collisions allowed |
| `RingLookup.FirstNodeOwnsAll` | src/hash.hpp:116-128 | the first node inserted owns every key |
| `RingLookup.RemoveMovesOnlyItsKeys` | src/hash.hpp:130-146 | removing a node changes the owner of no key another node owns |
| `RingLookup.InsertThenRemoveRestoresIff` | src/hash.hpp:116-146 | inserting a node and removing it restores the ring exactly when the node was not on it |
| `RingLookup.DisjointInsertsCommute` | src/hash.hpp:119-124 | nodes whose points do not collide can be inserted in either order |
| `RingLookup.SizeStepExactIff` | src/hash.hpp:116-146 | an operation keeps `size_` the number of nodes exactly unless it inserts a node already there that gains points |
| `RingLookup.SizeCountsNodesIff` | src/hash.hpp:107-146 | size() is right after every sequence of operations on given nodes from an empty ring exactly if any two of them share no virtual node point, or all |
| `RingLookup.SizeCountsNodes` | src/hash.hpp:107-146 | under that condition any ring whose nodes own all their points and are all counted stays so |
| `RingLookup.OverlapCountsTwice` | src/hash.hpp:116-146 | two nodes that share a point, the second having another, are miscounted by four operations |
| `RingLookup.CollisionCountsTwice` | src/hash.hpp:121-126 | a hash under which that happens |
| `RingLookup.ApartExample` | src/hash.hpp:107-126 | a hash without collisions: two nodes of two virtual nodes fill four points and count as two |
| `RingLookup.UsageIsBounded` | src/hash.hpp:111-125 | usage() is at most one point for each virtual node of each node on the ring |
| `RingLookup.UsageIsFullIff` | src/hash.hpp:111-125 | it is exactly that just when every node owns all its points and has as many as virtual nodes |
| `RingLookup.RunKeepsOwnPoints` | src/hash.hpp:116-146 | any operations keep the points on the ring points of their own nodes, and so the bound on usage() |
| `HashRing.HashRing.constructor` | src/hash.hpp:69 | an empty ring |
| `HashRing.HashRing.FromList` | src/hash.hpp:71-78 | the list constructor fills the ring but leaves `size_` zero |
| `HashRing.HashRing.Insert` | src/hash.hpp:116-128 | the loop over virtual nodes adds exactly the points not taken, counts and answers so |
| `HashRing.HashRing.Remove` | src/hash.hpp:130-146 | the loop removes exactly the points the node owns, counts and answers so |
| `HashRing.HashRing.Get` | src/hash.hpp:148-155 | returns the owner of the key |
| `HashRing.ListedRingCountsIff` | src/hash.hpp:71-78 | a ring built from a list counts its nodes right exactly if the list is empty or there are no virtual nodes |
| `HashRing.ListedRingWraps` | src/hash.hpp:71-78 | removing any node from such a ring wraps `size_` |
| `CrcTheory.BitBurstDetected` | src/serial.hpp:811-840 | a linear, undoable bit step detects every change confined to as many adjacent bits as the register has, at any bit offset, whatever comes before and after |
| `CrcTheory.BurstDetected` | src/serial.hpp:811-840 | the same for adjacent symbols of any kind |
| `CrcTheory.FoldIsBits` | src/serial.hpp:813-821 | taking a message byte by byte leaves the register as taking it bit by bit |
| `CrcTheory.FoldIsInjective` | src/serial.hpp:813-821 | different registers stay different under the same bytes |
| `CrcTheory.FoldPacked` | src/serial.hpp:811-840 | a message that fits the register acts as adding its packed form and shifting it through |
| `CrcTheory.AppendedResidue` | src/serial.hpp:811-840 | appending the bytes of the register leaves a value that does not depend on the message |
| `CrcTheory.FoldWithArray` | src/serial.hpp:836-837 | the loop over table look-ups computes the register of the bit steps, for any table that goes with them |
| `CrcDivision.RemainderIff` | src/serial.hpp:811-840 | long division leaves a remainder exactly if the dividend is some multiple of the generator and that remainder |
| `CrcDivision.FoldDivides` | src/serial.hpp:811-840 | a register whose shift follows a generator ends at the remainder of the message with zeros appended and its start value added in front |
| `Crc16.SixteenBitBurstDetected` | src/serial.hpp:811-823 | messages of equal length that differ only within sixteen adjacent bits, at any bit, have different checksums |
| `Crc16.TwoByteBurstDetected` | src/serial.hpp:811-823 | the same within two adjacent bytes |
| `Crc16.AppendedChecksumGivesZero` | src/serial.hpp:811-823 | appending the big-endian checksum to any message gives checksum zero |
| `Crc16.IsRegister` | src/serial.hpp:815-820 | the bit step is linear and undone by its inverse, and bytes enter at the high end |
| `Crc16.BitsRefineBytes` | src/serial.hpp:814-820 | the register that takes single bits, the most significant of a byte first, goes through the same values |
| `Crc16.ShiftThrough` | src/serial.hpp:815-820 | the inner loop shifts eight bits through |
| `Crc16.Compute` | src/serial.hpp:811-823 | the two loops compute the checksum defined by bit steps |
| `Crc16Remainder.CrcIsRemainder` | src/serial.hpp:811-823 | the checksum is the remainder by x^16 + x^15 + x^2 + 1 of the bits of the message, high bit first, with sixteen zeros appended |
| `Crc16Remainder.RegisterDivides` | src/serial.hpp:815-820 | the bit step follows that generator |
| `Crc16Remainder.KnownValues` | src/serial.hpp:811-823 | the checksum of nothing is 0, and that of the digits 1 to 9 is 0xFEE8 |
| `Crc32.ThirtyTwoBitBurstDetected` | src/serial.hpp:825-840 | messages of equal length that differ only within 32 adjacent bits, at any bit, have different checksums |
| `Crc32.FourByteBurstDetected` | src/serial.hpp:825-840 | the same within four adjacent bytes |
| `Crc32.AppendedChecksumGivesResidue` | src/serial.hpp:825-840 | appending the little-endian checksum to any message always gives 0x2144DF1C |
| `Crc32.IsRegister` | src/serial.hpp:831-832 | the reflected bit step is linear and undone by its inverse, and bytes enter at the low end |
| `Crc32.BitsRefineBytes` | src/serial.hpp:830-837 | the register that takes single bits, the least significant of a byte first, goes through the same values |
| `Crc32.ByteByTable` | src/serial.hpp:836-837 | eight bit steps of any word are one table entry combined with one shift by eight |
| `Crc32.ShiftThrough` | src/serial.hpp:830-832 | the inner loop computes the table entry of a byte |
| `Crc32.FillTable` | src/serial.hpp:829-834 | the table holds the entry of every byte |
| `Crc32.Compute` | src/serial.hpp:825-840 | the table-driven loops compute the bit-at-a-time checksum of every message |
| `Crc32Remainder.CrcIsRemainder` | src/serial.hpp:825-840 | the checksum is the complement of the remainder, by the generator of CRC-32, of the bits of the message, low bit first, with the first 32 inverted and 32 zeros appended |
| `Crc32Remainder.RegisterDivides` | src/serial.hpp:831-832 | the bit step follows that generator |
| `Crc32Remainder.KnownValues` | src/serial.hpp:825-840 | the checksum of nothing is 0, and that of the digits 1 to 9 is 0xCBF43926 |
| `PagerBlocks.NextBlockIs` | src/memory.hpp:617-636 | while all blocks fit a page, a request gets the place right behind the newest block if there is room, else the first of a new page, and nothing exactly if the guard refuses or no page is to be had |
| `PagerBlocks.FittingStayContainedIff` | src/memory.hpp:617-636 | requests that leave room for the header always get blocks inside their pages exactly on pages below 4 GiB |
| `PagerBlocks.FittingStayApartIff` | src/memory.hpp:622-635 | and blocks that do not overlap exactly on the same pages |
| `PagerBlocks.ContainedIff` | src/memory.hpp:617-636 | on those pages, the blocks of a run lie in their pages past the header exactly when each rounded size leaves room for the header |
| `PagerBlocks.BlocksNeverOverlap` | src/memory.hpp:622-635 | and then no two blocks given out since the last clear overlap |
| `PagerBlocks.BlocksAreAlignedAndHold` | src/memory.hpp:618-635 | on pages of every size each block is aligned, and holds its request exactly unless rounding wrapped |
| `PagerBlocks.GuardLetsTooMuchThrough` | src/memory.hpp:621 | a request the guard lets through that runs past its page |
| `PagerBlocks.LargePageOverwritesHeader` | src/memory.hpp:634 | on every page of 4 GiB and above the 32-bit `used` wraps, a second block lands on the header and a third on the first |
| `PagerBlocks.RoundedHoldsIff` | src/memory.hpp:618-619 | a size is rounded to the least multiple of the pointer size that holds it, exactly unless that wraps |
| `PagerBlocks.RunKeepsInv` | src/memory.hpp:617-656 | the inductive invariant behind the results above holds after any calls |
| `Pager.Pager.constructor` | src/memory.hpp:587 | a new pager has no page |
| `Pager.Pager.RoundUp` | src/memory.hpp:618-619 | the loop computes the rounded size |
| `Pager.Pager.AddPage` | src/memory.hpp:622-631 | a new page goes before the others, used up to its header |
| `Pager.Pager.Allocate` | src/memory.hpp:617-636 | gives out the next block, from a new page if needed, or refuses |
| `Pager.Pager.Clear` | src/memory.hpp:648-656 | gives every page back exactly once |
| `PoolSlots.NeverHandsOutAHeldSlot` | src/memory.hpp:454-466 | while clients release only what they hold, get never hands out a held slot, nor one outside the storage |
| `PoolSlots.SlotsAreConserved` | src/memory.hpp:477-487 | then held = size() and size() + free() = max() |
| `PoolSlots.ExhaustedIffAllHeld` | src/memory.hpp:454-495 | get fails exactly when every slot is held, which is what empty() tells |
| `PoolSlots.FreedComeBackInOrder` | src/memory.hpp:422-445 | released slots come back in the order of their release, a reused one at once |
| `PoolSlots.DoubleReleaseExample` | src/memory.hpp:422-425 | a slot released twice is handed out twice, and size() wraps |
| `PoolSlots.RunKeepsInv` | src/memory.hpp:422-475 | each slot used so far is either held or free, once, after any disciplined calls |
| `Pool.Pool.constructor` | src/memory.hpp:366-370 | a new pool has used nothing |
| `Pool.Pool.Get` | src/memory.hpp:454-466 | hands out the first freed slot, else the next fresh one, else fails |
| `Pool.Pool.GetOr` | src/memory.hpp:440-452 | the same with a fall-back |
| `Pool.Pool.Release` | src/memory.hpp:422-425 | the slot goes behind the other freed ones |
| `Pool.Pool.Reuse` | src/memory.hpp:432-434 | the slot goes before them |
| `Pool.Pool.Clear` | src/memory.hpp:472-475 | nothing is used or free |
| `Base64.EncodesAsStandardIff` | src/encoding.hpp:20-50 | to_b64 is the encoding of section 4 of RFC 4648 for every length but one, where the wrapped subtraction adds an "A" |
| `Base64.DecodesStandard` | src/encoding.hpp:61-100 | from_b64 gives standard text back as its bytes exactly when the last group is short and there is room, else nothing |
| `Base64.SizeOfStandard` | src/encoding.hpp:61-79 | size_b64 is right for standard text exactly when the last group is short, and zero otherwise |
| `Base64.OneByteComesBackAsTwo` | src/encoding.hpp:39-42 | a single byte comes back followed by a zero byte |
| `Base64.RoundTripIff` | src/encoding.hpp:20-100 | encoding and decoding give the bytes back exactly for length zero, or two and more not divisible by three for which there is room; positive multiples of three give nothing |
| `Base64.ShiftIn` | src/encoding.hpp:91-95 | the 32-bit accumulator makes the same bytes as an unbounded one |
| `Base64.IndexUndoesChar` | src/encoding.hpp:52-59 | base64_index inverts the alphabet |
| `Base64.Gather` | src/encoding.hpp:30-35 | three bytes as one number, zeros past the end |
| `Base64.Append` | src/encoding.hpp:37-42 | the digits of one group are appended |
| `Base64.ToBase64` | src/encoding.hpp:20-50 | the loops write the encoding, with the subtractions as they wrap |
| `Base64.SizeOf` | src/encoding.hpp:61-79 | the loop finds the last character that is no padding |
| `Base64.TakeDigit` | src/encoding.hpp:91-97 | one digit taken in, with a byte when eight bits are there |
| `Base64.FromBase64` | src/encoding.hpp:81-100 | the loop writes the decoded bytes in place and nothing beyond them |
| `Base64Texts.AlphabetIsStandard` | src/encoding.hpp:21-25 | the digits are those of section 4 of RFC 4648 |
| `Base64Texts.HasPlaceIff` | src/encoding.hpp:52-59 | exactly those characters have a place |
| `Base64Texts.OthersArePassedOver` | src/encoding.hpp:81-100 | whatever other characters are mixed in, the digits of some bytes decode to those bytes, up to the size computed from the text |
| `Base64Texts.SizeIsByLength` | src/encoding.hpp:61-79 | the size of any text, by its length without padding |
| `Hex.RoundTrip` | src/encoding.hpp:102-137 | any bytes come back from their text, as many as there is room for |
| `Hex.LenientIff` | src/encoding.hpp:127-134 | exactly which pairs that are not two hexadecimal digits are accepted, and the value of each |
| `Hex.StopsAtBadPair` | src/encoding.hpp:126-136 | reading stops at the first pair not accepted, with everything before it decoded |
| `Hex.LenientExamples` | src/encoding.hpp:127-136 | two texts read that way |
| `Hex.ValueUndoesChar` | src/encoding.hpp:108 | the digit printed for a half byte reads back as it |
| `Hex.ToHex` | src/encoding.hpp:102-112 | the loop writes two digits a byte |
| `Hex.FromHex` | src/encoding.hpp:122-137 | the loop writes the bytes up to the first bad pair, in place, with the count as returned |
| `CommandLine.FindsFirst` | src/args.hpp:229-272 | a name or letter stands for the first option registered with it, and for none only if there is none |
| `CommandLine.EveryArgumentHasOneRole` | src/args.hpp:211-296 | a parse that succeeds takes every argument once: as a registered option now in use, as the value of an option named just before that ends up with it, as terminator or as positional |
| `CommandLine.TakesWanted` | src/args.hpp:254-291 | an option argument takes as many of the next arguments as it names options that want one, in that order |
| `CommandLine.TakeFits` | src/args.hpp:219-292 | an argument read as an option names a registered option, or letters of some, each now in use; an inline value has become the value of an option that takes one |
| `CommandLine.ExplainedIsOneToOne` | src/args.hpp:211-296 | there are as many roles as arguments |
| `CommandLine.EqualsOrNextArgument` | src/args.hpp:226-262 | where an option is read, `--id=value` and `--id value` leave the same values, positionals and error |
| `CommandLine.OccurrencesAreCounted` | src/args.hpp:238-281 | a counter ends at its earlier count plus its occurrences in long and short spellings, modulo 2^32; any other option is used at most once |
| `CommandLine.ParseAppends` | src/args.hpp:211-293 | what follows options and their values is parsed from the values they leave |
| `CommandLine.ParseKeeps` | src/args.hpp:246-284 | an option in use stays in use, and keeps its value unless it is a counter |
| `CommandLineFaults.ParseSucceedsIff` | src/args.hpp:211-296 | a parse succeeds exactly if every option the line names is registered and, unless it counts, was not used or named before, has no inline value if it is a flag, and has one or a next argument if it takes one |
| `CommandLineFaults.ParseFailsIff` | src/args.hpp:226-292 | it ends with an error exactly if that is what is wrong with the first naming at fault: unknown argument, unknown option, already used, invalid value or missing value |
| `CommandLineFaults.ParseSets` | src/args.hpp:238-292 | a parse that succeeds sets every flag named, gives every other option named its inline or next text, and leaves the rest as they were |
| `Args.Args.constructor` | src/args.hpp:94-104 | no option is set and no argument gathered |
| `Args.Args.Apply` | src/args.hpp:238-261 | one use of an option: count, flag, inline value, next argument, or the error |
| `Args.Args.ApplyLetters` | src/args.hpp:266-292 | the loop over the letters of an argument |
| `Args.Args.Parse` | src/args.hpp:208-299 | the loop over the arguments sets values and gathers positionals as the parse says; on an error nothing is gathered |
| `SplitJoin.SplitIsCut` | src/strings.hpp:145-160 | for any set of delimiters and any limit, the pieces but the last hold no delimiter, and with one delimiter between any two they are the text |
| `SplitJoin.JoinUndoesSplit` | src/strings.hpp:133-160 | join undoes split at one character, for every text and every limit |
| `SplitJoin.SplitUndoesJoinIff` | src/strings.hpp:133-160 | for every limit, split undoes join exactly for non-empty lists of no more elements than the limit whose elements lack the delimiter, but for the last one if the limit is reached |
| `SplitJoin.SplitIsAsLong` | src/strings.hpp:153-158 | one piece more than there are delimiters, up to the limit |
| `SplitJoin.DoSplit` | src/strings.hpp:145-160 | the loop over positions cuts at delimiters until the limit |
| `SplitJoin.DoJoin` | src/strings.hpp:133-143 | the loop puts the delimiter between elements |
| `Utf8.ChecksIff` | src/strings.hpp:299-318 | u8verify accepts exactly the texts that are whole lead-and-continuation units (section 3 of RFC 3629) up to the first zero byte |
| `Utf8.EncodedTextChecks` | src/strings.hpp:299-318 | every text encoded by the table of section 3 of RFC 3629 is accepted |
| `Utf8.UnitIsEncodingIff` | src/strings.hpp:303-315 | a unit is the encoding of a character exactly if it is in the table of section 4 of RFC 3629: not overlong, no surrogate, not past U+10FFFF |
| `Utf8.AcceptedIsEncodedIff` | src/strings.hpp:299-318 | an accepted text, up to its first zero byte, encodes characters exactly if all its units are in that table |
| `Utf8.OutsideTable` | src/strings.hpp:303-315 | every unit outside the table is accepted as a text and encodes no characters |
| `Utf8.AcceptsMoreThanEncodings` | src/strings.hpp:303-312 | an overlong form, a surrogate and a number past the last character are accepted |
| `Utf8.NextIsTail` | src/strings.hpp:308 | stepping to a next byte that must be there and be a continuation |
| `Utf8.Unit` | src/strings.hpp:303-315 | the nested tests step over exactly one unit |
| `Utf8.Verify` | src/strings.hpp:299-318 | the loop answers as the check says |
| `Numbers.PrintsRightIff` | src/memory.hpp:832-857 | every value that is printed is printed as its digits exactly for sizes up to 10 and from 33 on |
| `Numbers.HundredIsMisprinted` | src/memory.hpp:837-854 | at each size from 11 to 32 a hundred is printed, but not as a hundred |
| `Numbers.SmallSizesSay` | src/memory.hpp:832-857 | up to size 10 the text says the value, without leading zeros, zero as the empty text |
| `Numbers.PrintThenScan` | src/memory.hpp:832-857 | printed at a size that prints right, a number scanned again is itself |
| `Numbers.PrintedIffFits` | src/memory.hpp:837-840 | for every size the values below the wrapped power of ten are printed: up to size 10 those of fewer digits than the size, at size 0 and from 33 on none |
| `Numbers.PrintedFits` | src/memory.hpp:832-857 | for every size, what is written fits the buffer with its terminator |
| `Numbers.ScanIsLongestIff` | src/scan.hpp:120-132 | the scan takes the longest run of digits in bounds from every text exactly if ten times the bound and nine fit in 64 bits |
| `Numbers.ScanIsLongestInBounds` | src/scan.hpp:120-132 | where they fit, that run is found and gives its number |
| `Numbers.LargeBoundWraps` | src/scan.hpp:123-128 | under every larger bound the digits of 2^64 are all taken and give zero |
| `Numbers.ScanTakesAll` | src/scan.hpp:120-132 | digits within the bound are all taken, whatever the bound |
| `Numbers.ScanLeavesDigits` | src/scan.hpp:125-128 | where ten times the bound and nine fit in 64 bits, digits over the bound are not all taken |
| `Numbers.ScanValue` | src/scan.hpp:120-132 | the loop computes the scan and what it leaves, in 64 bits |
| `Numbers.PowerFor` | src/memory.hpp:837-838 | the loop computes the power of ten as 32 bits hold it |
| `Numbers.TakeDigit` | src/memory.hpp:842-847 | one turn of the digit loop |
| `Numbers.WriteDigits` | src/memory.hpp:841-854 | the digit loop writes the digits and nothing else |
| `Numbers.PrintValue` | src/memory.hpp:832-857 | the text and its terminator are in the buffer, or it is untouched |
| `Durations.ValueIff` | src/scan.hpp:282-303 | with an upper bound not negative, get_value returns v exactly when the text denotes v, v is within the bounds and its magnitude within the upper one |
| `Durations.BoundsEnforcedIff` | src/scan.hpp:291-302 | the bounds are enforced on every text exactly if the upper one is not negative |
| `Durations.NegativeBoundLetsThrough` | src/scan.hpp:291 | under every negative upper bound the largest value gets through |
| `Durations.NegativeRefusedExample` | src/scan.hpp:291-292 | so a negative value within its bounds can be refused |
| `Durations.FieldsAreHorner` | src/scan.hpp:305-345 | one to four plain fields between colons are their base-sixty number modulo 2^32 |
| `Durations.TooManyFields` | src/scan.hpp:339-345 | five fields and more are refused |
| `Durations.UnitsAreFields` | src/scan.hpp:322-344 | a number of seconds, minutes or hours is the same as that field with none, one or two zero fields behind it |
| `Durations.DayIsHours` | src/scan.hpp:328-331 | a day is 24 hours, also where the result wraps |
| `Durations.WeekIsDays` | src/scan.hpp:330-333 | a week is seven days |
| `Durations.Milliseconds` | src/scan.hpp:309-345 | in milliseconds a second is a thousand, "ms" and no unit are the number itself, and fields are refused |
| `Durations.WithUnit` | src/scan.hpp:319-333 | a number in bounds with a unit letter is that many units, modulo 2^32 |
| `Durations.ColonsOfFields` | src/scan.hpp:339 | the count of colons is one less than the fields |
| `Durations.Pow` | src/scan.hpp:28-39 | square-and-multiply computes the power in 64 bits, no product overflowing if the power fits |
| `Durations.SmallerPowersFit` | src/scan.hpp:31-37 | where a power fits, so do all smaller ones |
| `Durations.Power60IsPower` | src/scan.hpp:342 | the weight of a field is the power of sixty that Pow computes |
| `Durations.CountOf` | src/scan.hpp:19-26 | the loop counts a character |
| `DurationForms.SecondsIff` | src/scan.hpp:305-345 | a text is a duration exactly if it is up to three fields with colons and then a number, with a unit or not, and this is its value modulo 2^32 |
| `DurationForms.MillisecondsIff` | src/scan.hpp:305-345 | in milliseconds, exactly if it is one number, alone, with a unit or with "ms" |

## Left out

- TimerQueue.TimerQueue.AddTimer: ids do not wrap, because 2^64 timers are out of reach.
- TimerQueue.TimerQueue.Reset: the tuple is copied before the erase, where the code keeps references into the erased element.
- TaskQueue.TaskQueue.Startup: does not model a startup while an earlier thread is still to be joined, which terminates the program.
- HashRing.HashRing.Get: excludes the empty ring, on which the code reads past the end.
- TaskPool.TaskPool.BeginDrain: excludes a second drain that begins while another is joining, when both join the same threads.
- PagerBlocks.NextBlockIs: covers pages below 4 GiB on which every rounded size so far leaves room for the header; the other pages and sizes are the ones shown to go wrong.
- PagerBlocks.BlocksNeverOverlap: covers pages below 4 GiB, as `ContainedIff` does.
- Numbers.ScanIsLongestInBounds: covers bounds where ten times the bound and nine fit 64 bits; `ScanIsLongestIff` shows that the scan fails under every larger one.
- Numbers.ScanLeavesDigits: covers the same bounds; `LargeBoundWraps` shows that digits over any larger bound can all be taken.
- PagerBlocks.ContainedIff: covers pages below 4 GiB, as `BlocksNeverOverlap` does; `FittingStayContainedIff` and `FittingStayApartIff` show that both fail on every larger page.
- TaskPool.TaskPool.EndDrain: does not model a start that comes in while a pool that was not started is being drained; the drain then clears joinable threads, which terminates the program.
- RingLookup.SizeCountsNodes: bounds the number of operations by the width of the counter, which then never wraps.
- Durations.ValueIff: covers upper bounds that are not negative; `BoundsEnforcedIff` shows that under a negative one nothing is enforced.
- Durations.Pow: excludes negative exponents, for which the loop does not end, and powers that do not fit 64 bits, for which signed overflow is undefined.
- Hex.FromHex: the character read behind an odd text is a parameter.
- Durations.GetDuration: where the code looks at the front of an emptied view it is taken to see no colon.
- Progress under a fair scheduler, and notifications: a waiting thread may look at its condition at any time, so lost wake-ups are not modelled.
- The dictionary: concurrent removal and clearing, moves, `at`, `each`, `operator[]`, reclamation of memory, spurious failure of the weak exchange in the one-thread model, and memory orders weaker than sequential consistency.
- The pool of workers: the start-up function and tasks that throw.
- The semaphore and barrier: timed and releasing forms of the barrier, scoped guards, and more than 2^32 - 1 threads.
- `event_sync`, `wait_group` and the other synchronisation objects: one-flag and one-counter forms of the same protocols.
- Keyfile: the flattened and printed views, shared ownership, and locales other than C for isalnum.
- The ring: the hash itself, which is any function from strings to 64-bit points.
- The allocators: page alignment beyond the pointer size, moves, and running destructors.
- Command line: help output, and setting option values by hand.
- Floating-point scanning, `tokenize`, trimming helpers, hexadecimal scanning and quoted text.
- The LIFO and FIFO buffers of the atomics header, whose code does not keep those orders.
- Wrappers over OpenSSL, sockets, files, processes and serial devices.

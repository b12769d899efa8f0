# The I/O engine of X-LOAD, modelled and verified

X-LOAD saturates an NVMe/TCP target with Copy commands. This project models the part of it that runs
concurrently: the destination-LBA allocator that all workers share, the operation pool of each worker,
the generator of Copy commands, the submit and complete state machine of a worker, and the lock-free
statistics. It proves what the engine keeps over every run, for any number of workers, any interleaving
and any behaviour of the device.

Check it with `dafny verify dfyconfig.toml` (Dafny 4.11).

## How the model is built

Each part exists in up to three forms, and the proofs connect them.

1. A value and functions on it say what an operation means (`Allocator`, `Pool`, `Attempt`, `Worker`).
2. A class has the fields of the source's class. Its methods are the source's methods, loops included,
   and every method is proved to do to the fields what the function does to the value.
3. A step system interleaves any number of threads. A step is one atomic operation of the source.

| file | what it models |
|---|---|
| `DestinationLba.dfy`, `AllocatorThreads.dfy` | the wrap-around extent allocator, sequential and under N threads |
| `OperationPool.dfy`, `PoolThreads.dfy` | the pool with its wrapping 32-bit ticket counter, and its flags under N threads |
| `CopyCommand.dfy`, `XcopyGenerator.dfy` | the command and the generator |
| `CopySemantics.dfy` | what executing a command does to the blocks of a device |
| `WorkerSteps.dfy`, `WorkerEvents.dfy`, `PollThread.dfy` | a worker: its atomic steps, whole events made of them, and the source's methods |
| `Fleet.dfy`, `FleetEvents.dfy` | all workers together, and events as runs of them |
| `FleetResults.dfy`, `FleetDestinations.dfy`, `FleetLosses.dfy` | what holds in every run: accounts and bounds, destinations, lost completions |
| `CommandsTogether.dfy` | commands that are in flight at the same time |
| `WorkerStartup.dfy` | queue depth of a worker, and which controller it gets |
| `ErrorHandler.dfy`, `Statistics.dfy`, `StatisticsThreads.dfy`, `LatencyBuffer.dfy`, `LatencyThreads.dfy`, `Percentile.dfy` | statistics |
| `Words.dfy` | machine words and arithmetic |

In a fleet the steps of a worker are its accesses to shared data: the three updates that record a
failure, for instance, are three steps, and other workers run between them. An attempt to generate a command is one
step, because `AllocatorThreads.RefinesSequentialAllocator` shows that the allocator's loop takes effect at
one moment. Random draws, latencies, the device's answer to a submission, completions (in any order, with
any status, or never), polls that fail, whether an attempt to get a new queue pair succeeds, and the raising
of stop are all chosen by the environment. The environment keeps two rules: a completion is not delivered inside a submission, and an
accepted command completes at most once.

Atomic operations are sequentially consistent single steps. Preconditions on the configuration are the
bounds that `Config::validate` enforces, a window `start < end`, and room for one command above the
namespace size in 64 bits.

## Where the code and its description differ

- `iodepth` is described as the maximum global I/O depth. A worker gets at least four
  (src/poll_thread_manager.cpp:437), so with fewer than four per core the maximum can be exceeded.
  `FleetResults.IodepthKeptInEveryRunExactly` gives the exact condition.
- The error classes look at the status code type (src/error_handler.cpp:24), but the completion callback
  passes on the eight bits of the status code alone (src/poll_thread_manager.cpp:83). On that path the
  test of the type never fires, and the fatal codes are exactly 0x01 and 0x02
  (`ErrorAccounting.EightBitCodesHaveNoType`, `FleetResults.FatalFailuresAreTwoCodes`).
- In a copy between namespaces the overlap test is skipped, but the command that is handed over carries no
  source namespace. Read in the destination namespace it can overwrite its own source.
  `CopySemantics.HandedOverCommandCanOverlap` gives the input and
  `CopySemantics.HandedOverCommandSafeExactly` the exact condition.
- A scan of the pool is meant to try every slot. When the 32-bit counter wraps during it and the pool size
  does not divide 2^32 it misses some (`OpPool.ScanCoversPool`, both directions). The pool is still never
  exhausted, because it has twice as many slots as can be outstanding (`FleetResults.PoolNeverExhausted`).
- The total latency wraps at 2^64, and then the average can fall below the minimum:
  `StatisticsThreads.AverageCanFallBelowMinimum` is a run in which it does, and
  `StatisticsThreads.TotalBetweenExtremes` says exactly when.
- Recording a failure is not one update, so a reader can see an error total below the number of failures.
  `FleetResults.ErrorCountersLag` says by how much and exactly when; between events they agree
  (`FleetResults.ErrorCountersAgree`).
- An operation whose completion is lost, by the device or with its queue pair, stays in `outstanding_io` for
  ever, and a new queue pair does not change that (src/poll_thread_manager.cpp:353-363). A worker that lost
  its whole depth submits nothing any more, and neither does one whose ten attempts to get a new queue pair
  failed; any other one still can (`FleetLosses.CanSubmitExactly`).
- The overlap test is made for each command alone. Two commands that pass it can be in flight together and
  one can overwrite the other's source: `CommandsTogether.TwoCommandsCanCollide` is a run, and
  `CommandsTogether.InFlightTogether` says for which runs commands in flight are independent.

## Model

| member | source | states |
|---|---|---|
| DestinationLba.ReserveStaysInWindow | src/lba_manager.cpp:26-63 | the cursor never leaves the window, and a request's extent lies inside it if and only if it is no larger than the window |
| DestinationLba.ConsecutiveExtentsAbutOrWrap | src/lba_manager.cpp:41-57 | consecutive extents abut without a gap, or the second starts the next lap and the space skipped is smaller than that request |
| DestinationLba.ExtentsSplit | src/lba_manager.cpp:36-62 | a run of allocations can be cut anywhere: the second part is served from where the first left the cursor |
| DestinationLba.EarlierExtentSurvives | src/lba_manager.cpp:41-57 | an extent already handed out is not handed out again before the cursor can come around to it |
| DestinationLba.WindowDisjoint | src/lba_manager.cpp:37-60 | requests in a row whose sizes sum to S, none above m, with S + m at most one more than the window, get pairwise disjoint extents across any wrap |
| DestinationLba.WindowBoundIsTight | src/lba_manager.cpp:37-60 | one block less of room and, for every size above one, two requests in some window overlap |
| DestinationLba.UniformClosedForm | src/lba_manager.cpp:41-57 | with equal requests of size t the k-th gets start + (k mod floor(R/t)) * t, whether or not t divides R |
| DestinationLba.UniformLap | src/lba_manager.cpp:41-57 | equal requests fewer than a lap apart never overlap, and a whole lap apart they coincide |
| DestinationLba.RandomSrcLba | src/lba_manager.cpp:92-107 | a random source range fits the namespace whenever it can, although the product with 90 is a wrapping 64-bit one |
| DestinationLba.SourceAddressesExactly | src/lba_manager.cpp:92-107 | the source addresses that can be drawn are exactly those whose range lies in the first nine tenths of the namespace, or in all of it if the range needs more; where the product with 90 wraps, in what the wrapped product leaves of it |
| DestinationLba.SafeSize | src/lba_manager.cpp:97-101 | that part holds the range, lies in the namespace, and is nine tenths of it when the product does not wrap and the range fits them |
| DestinationLba.EmptyWindowRepeats | src/lba_manager.cpp:41-57 | a window that ends at or before its start hands out its start to every request and never moves |
| DestinationLba.LbaManager.constructor | src/lba_manager.cpp:13-23 | the window is [start, end) with an end of zero or past the namespace replaced by the namespace size, the cursor at its start; it is a valid allocator if and only if that window is not empty |
| DestinationLba.LbaManager.CompareExchangeWeak | src/lba_manager.cpp:59-60 | stores and succeeds if and only if the expected value is there and the failure is not spurious |
| DestinationLba.LbaManager.Choose | src/lba_manager.cpp:41-57 | in 64-bit arithmetic the loop body computes the sequential allocation for the loaded cursor |
| DestinationLba.LbaManager.GetAndAdvanceDstLba | src/lba_manager.cpp:26-63 | after any number of spurious failures the loop has done exactly one sequential allocation, in an empty window too |
| DestinationLba.LbaManager.ResetDstLba | src/lba_manager.cpp:109-111 | the cursor is back at the start, the window unchanged |
| DestinationLba.LbaManager.SetDstRange | src/lba_manager.cpp:113-120 | replaces the window, clamped to the namespace, and rewinds the cursor; the result is valid if and only if the window is not empty |
| DestinationLba.LbaManager.GetRandomSrcLba | src/lba_manager.cpp:92-107 | the address leaves room for the range in the namespace |
| AllocatorThreads.StepKeepsInv | src/lba_manager.cpp:26-63 | every load, compare-exchange and store of any thread keeps the cursor in the window and the log sequential |
| AllocatorThreads.RefinesSequentialAllocator | src/lba_manager.cpp:26-63 | in every interleaving, with spurious failures, cursors that changed and came back, resets and new windows, each thread was returned exactly what the sequential allocator hands out in the order of the log, and the sizes logged for it are those it asked for, in its order, up to the call it is in |
| AllocatorThreads.FailureMeansInterference | src/lba_manager.cpp:38-60 | a compare-exchange that fails and not spuriously means that another thread changed the cursor since this one loaded it |
| AllocatorThreads.LogMatchesExtents | src/lba_manager.cpp:26-63 | a stretch of the log without resets holds exactly the extents of the sequential allocator |
| AllocatorThreads.ThreadsGetDisjointExtents | src/lba_manager.cpp:26-63 | sliding-window disjointness for allocations by any threads in any interleaving |
| OpPool.ScanOutcome | include/operation_pool.h:86-99 | acquire takes the first free slot it tries, changes no other, and returns none only if every slot it tried was in use |
| OpPool.TicketsDistinct | include/operation_pool.h:88-89 | no slot is tried twice in a stretch of a scan in which the counter does not wrap |
| OpPool.ScanVisitsHalf | include/operation_pool.h:86-99 | a scan tries at least half of the slots, even if the 32-bit counter wraps in the middle of it |
| OpPool.EmptyScanMeansHalfInUse | include/operation_pool.h:86-99 | if acquire fails, at least half of the slots are in use |
| OpPool.AcquireSucceeds | include/operation_pool.h:86-99 | with fewer than half of the slots in use acquire returns one, for every counter value and pool size |
| OpPool.ScanCoversPool | include/operation_pool.h:86-99 | a scan tries every slot if and only if the counter does not wrap during it or the size divides 2^32 |
| OpPool.SlotMissed | include/operation_pool.h:86-99 | in every other case a slot that is not tried at all |
| OpPool.OperationPool.constructor | include/operation_pool.h:48 | a pool without slots |
| OpPool.OperationPool.Init | include/operation_pool.h:55-83 | succeeds if and only if every buffer allocation does; then all slots are free, empty and have distinct zeroed buffers; otherwise the pool is as before it was set up; a second call changes nothing |
| OpPool.OperationPool.Acquire | include/operation_pool.h:86-99 | the loop does exactly the scan, and the slot it returns is wiped |
| OpPool.OperationPool.TryTake | include/operation_pool.h:91-95 | takes the slot if and only if it was free |
| OpPool.OperationPool.Reset | include/operation_pool.h:32-42 | wipes the operation and its whole buffer, and neither the flag nor any other slot |
| OpPool.OperationPool.Release | include/operation_pool.h:102-106 | lowers the flag of a slot of this pool and changes nothing else |
| PoolThreads.StepKeepsInv | include/operation_pool.h:86-106 | every ticket, compare-exchange and store keeps slots exclusive |
| PoolThreads.SlotsAreExclusive | include/operation_pool.h:86-106 | in every interleaving no slot has two holders, the raised flags are exactly those of the held slots, and an acquire makes at most as many attempts as there are slots |
| Generator.NsSizeMeaning | src/xcopy_generator.cpp:120-132 | the size is that of the first listed namespace with the id, null entries skipped, and zero if there is none |
| Generator.EqualRangesTotal | src/xcopy_generator.cpp:179-199 | the block count is the number of ranges times the range size |
| Generator.AcceptedIsWellFormed | src/xcopy_generator.cpp:134-231 | every accepted command has 1 to max_ranges ranges inside their namespace, the right block count, a destination inside its namespace and, exactly when it can be, inside the window, and no overlap within one namespace; accepted or not, the cursor stays in the window |
| Generator.OverlayMeaning | src/xcopy_generator.cpp:182-196 | a buffer is the overlay of another if and only if it starts with the ranges written and agrees with the other in the rest |
| Generator.XcopyOperation.AllocateRanges | src/xcopy_generator.cpp:68-83 | an existing buffer is kept, a new one holds max_ranges zeroed ranges, and failure leaves none |
| Generator.XcopyGenerator.GetNsSize | src/xcopy_generator.cpp:120-132 | the lookup loop returns the size that NsSizeMeaning describes |
| Generator.XcopyGenerator.GenerateOperation | src/xcopy_generator.cpp:134-231 | the method accepts and rejects exactly as the specification, which WellFormed commands rest on, and leaves the allocator, the operation and the whole buffer as that says; without a buffer at the start it is a zeroed one with the ranges laid over it |
| Generator.XcopyGenerator.GenerateInto | src/xcopy_generator.cpp:142-231 | the same once there is a buffer |
| Generator.XcopyGenerator.PlaceDestination | src/xcopy_generator.cpp:201-231 | the destination is reserved, and given up on any of the three rejections that follow, without being given back |
| Generator.XcopyGenerator.FillRanges | src/xcopy_generator.cpp:179-199 | each range is the draw moved back into the namespace, the block count is the sum over the ranges, and the rest of the buffer is untouched |
| Generator.XcopyGenerator.FindOverlap | src/xcopy_generator.cpp:219-227 | true if and only if some range shares a block with the destination |
| Generator.XcopyGenerator.OverlapWithin | src/xcopy_generator.cpp:215-228 | the test is made if and only if the sources are in the destination namespace or cross-namespace copy is off |
| CopySemantics.SourceBlockInRange | src/xcopy_generator.cpp:179-199 | every block of the concatenation comes from one of the ranges |
| CopySemantics.RangeBlockIsSource | src/xcopy_generator.cpp:179-199 | every block of every range is in the concatenation |
| CopySemantics.AnyOrderConcatenates | src/xcopy_generator.cpp:215-228 | without a hazard the moves in any order, even repeated, put the concatenation of the original sources at the destination and change nothing else |
| CopySemantics.HazardBreaksSomeOrder | src/xcopy_generator.cpp:215-228 | with a hazard some device and some order give another result |
| CopySemantics.OrderIndependentExactly | src/xcopy_generator.cpp:215-228 | the order is irrelevant if and only if no block is overwritten with another before it is read |
| CopySemantics.OverlapTestExact | src/xcopy_generator.cpp:220-226 | the comparison of the half-open extents holds if and only if they share a block |
| CopySemantics.SharedBlockExactly | src/xcopy_generator.cpp:219-227 | the test over all ranges holds if and only if some source block is also a destination block |
| CopySemantics.AcceptedIsDisjoint | src/xcopy_generator.cpp:215-228 | source and destination of an accepted command have no block in common |
| CopySemantics.AcceptedCopyIsOrderIndependent | src/xcopy_generator.cpp:134-231 | an accepted command may be executed block by block in any order, with the specified result and every source block unchanged |
| CopySemantics.AcceptedExactly | src/xcopy_generator.cpp:134-231 | an attempt is accepted if and only if the range size is possible, the reserved destination fits its namespace and no block is both read and written |
| CopySemantics.ExampleIsAccepted | src/xcopy_generator.cpp:217-218 | the generator accepts the concrete cross-namespace command of the next row |
| CopySemantics.HandedOverCommandCanOverlap | src/xcopy_generator.cpp:217-218 | an accepted cross-namespace command that, read in the destination namespace as it is handed over, depends on the order |
| CopySemantics.HandedOverCommandSafeExactly | src/poll_thread_manager.cpp:175-183 | as handed over, a command is order independent if and only if it has no hazard, always when the sources were drawn for the destination namespace, and always when the overlap test passes |
| WorkerSteps.EnterFindsSlot | src/poll_thread_manager.cpp:126-140 | a worker below its depth finds a slot |
| WorkerSteps.EnterKeeps | src/poll_thread_manager.cpp:116-140 | a submission gets past the checks and the pool if and only if stop is not raised, the queue pair is there and the depth is not reached; nothing is counted yet |
| WorkerSteps.AfterAttemptKeeps | src/poll_thread_manager.cpp:148-162 | an attempt to generate, accepted, rejected or the tenth, keeps the worker's invariant and touches no slot in flight |
| WorkerSteps.TryGenerateKeeps | src/poll_thread_manager.cpp:148-162 | and what is ready after it is a well-formed command |
| WorkerSteps.SubmitKeeps | src/poll_thread_manager.cpp:167-192 | whatever the device answers the invariant is kept, and one operation more is outstanding if and only if it accepted |
| WorkerSteps.RetireKeeps | src/poll_thread_manager.cpp:103-104 | the counter is at least one when it is decremented |
| WorkerSteps.ReleaseKeeps | src/poll_thread_manager.cpp:106-109 | giving the slot back makes the slots in use agree with the counter again |
| WorkerSteps.StepKeepsWorkerInv | src/poll_thread_manager.cpp:67-200 | every step of a worker and of its environment keeps slots, depth, deferred count and in-flight commands consistent, and the window unchanged |
| WorkerEvents.GenerateLoopKeeps | src/poll_thread_manager.cpp:148-154 | the retry loop keeps the worker's invariant and moves neither the window nor the counts |
| WorkerEvents.SubmitEventKeeps | src/poll_thread_manager.cpp:116-193 | a submission ends with the invariant intact and at most one operation more outstanding |
| WorkerEvents.SubmissionDefers | src/poll_thread_manager.cpp:117-200 | a submission that fails a check changes neither count; one that passes works off one deferred operation, unless its command reaches the device and is rejected, in which case the count is back where it was, but at least 1 and at most 100; one more is outstanding if and only if the command reaches the device and is accepted |
| WorkerEvents.EnterDefers | src/poll_thread_manager.cpp:117-134 | the deferred count goes down by one only when it is positive, so it does not wrap |
| WorkerEvents.FinishEventKeeps | src/poll_thread_manager.cpp:78-109 | the callback before its submission keeps the invariant and takes exactly one operation off |
| WorkerEvents.CompleteEventKeeps | src/poll_thread_manager.cpp:67-113 | a completion ends with the invariant intact and as many operations outstanding as before, or one fewer |
| WorkerEvents.BatchEventKeeps | src/poll_thread_manager.cpp:313-321 | a batch keeps the invariant, and so the depth, and adds exactly the submissions it counts |
| WorkerEvents.BatchExists | src/poll_thread_manager.cpp:313-321 | its result is reached submission by submission, each of which gets through except the last |
| WorkerEvents.SubmitEventIsARun | src/poll_thread_manager.cpp:116-193 | left alone, a submission is a run of atomic steps with the same result |
| WorkerEvents.CompleteEventIsARun | src/poll_thread_manager.cpp:67-113 | left alone, a completion is a run of atomic steps with the same result |
| WorkerEvents.DrainOne | src/poll_thread_manager.cpp:111-120 | after stop a completion takes one operation off and submits nothing |
| WorkerEvents.DrainCounts | src/poll_thread_manager.cpp:371-382 | after k completions of a stopped worker exactly k operations less are outstanding |
| WorkerEvents.DrainExists | src/poll_thread_manager.cpp:371-382 | completions of distinct commands in flight can all be drained one after the other |
| PollThread.PollThreadContext.constructor | src/poll_thread_manager.cpp:459-474 | a worker with a pool of twice its depth satisfies the invariant |
| PollThread.PollThreadContext.HandleBackpressurePooled | src/poll_thread_manager.cpp:195-200 | one more is deferred, but the count never passes 100 on this path, and a count that is already above stays |
| PollThread.PollThreadContext.GenerateIntoSlot | src/poll_thread_manager.cpp:142-165 | generating through the temporary operation changes exactly the slot that lent its buffer |
| PollThread.PollThreadContext.GenerateWithRetries | src/poll_thread_manager.cpp:147-154 | the loop on the shared objects does what GenerateLoop says |
| PollThread.PollThreadContext.Admit | src/poll_thread_manager.cpp:117-140 | checks, deferred count and acquire on the shared objects do what the step Check says |
| PollThread.PollThreadContext.Dispatch | src/poll_thread_manager.cpp:167-192 | the result is 1 if and only if one operation more is outstanding, and a slot that was not accepted is given back |
| PollThread.PollThreadContext.SubmitNextIoPooled | src/poll_thread_manager.cpp:116-193 | the method on the shared objects is the event SubmitEvent, keeps the invariant, and returns 1 if and only if outstanding_io changed |
| PollThread.PollThreadContext.Account | src/poll_thread_manager.cpp:78-101 | a completion is recorded as completed or failed by its whole status; bytes and latency only on success; code 8 resets the cursor; saturation defers |
| PollThread.PollThreadContext.FinishCompletion | src/poll_thread_manager.cpp:78-109 | the callback up to its resubmission is the event FinishEvent |
| PollThread.PollThreadContext.XcopyCompleteCbPooled | src/poll_thread_manager.cpp:67-113 | the callback on the shared objects is the event CompleteEvent, keeps the invariant, and gives the latency ring one record if and only if the command succeeded |
| PollThread.PollThreadContext.SubmitBatch | src/poll_thread_manager.cpp:313-321 | the batch loop is BatchEvent over 32 submissions and keeps the invariant |
| PollThread.PollThreadContext.Poll | src/poll_thread_manager.cpp:378 | a poll of a stopped worker goes through the completions delivered, in order |
| PollThread.PollThreadContext.Drain | src/poll_thread_manager.cpp:371-395 | the drain loop takes exactly the completions that 10000 polls can deliver, each takes one operation off and none adds one, and then the queue pair is gone |
| PollThread.PollThreadContext.HandlePoll | src/poll_thread_manager.cpp:326-334 | a failed poll is counted, the tenth in a row deletes the queue pair and grants ten attempts to replace it, a successful one starts the count again |
| PollThread.PollThreadContext.TryReconnecting | src/poll_thread_manager.cpp:353-368 | an attempt, of which there are ten, replaces the queue pair or is used up; after the tenth nothing changes any more |
| Fleets.StepKeepsInv | src/poll_thread_manager.cpp:67-200 | every step of any worker keeps the invariant of all workers, the accounts and the window |
| Fleets.InitEstablishesInv | src/poll_thread_manager.cpp:457-479 | workers as started satisfy it |
| Fleets.ReachableInv | src/poll_thread_manager.cpp:67-200 | so it holds in every reachable state |
| Fleets.StepBalances | src/poll_thread_manager.cpp:85-104 | no step loses or invents an operation |
| FleetResults.OutstandingCountsSlots | src/poll_thread_manager.cpp:104-190 | in every run outstanding_io is at most the depth, equals the number of pool slots in use between events, and is positive before its decrement |
| FleetResults.PoolNeverExhausted | src/poll_thread_manager.cpp:126-140 | in every run a submission gets a slot if and only if it passes the three checks |
| FleetResults.DeferredIsBounded | src/poll_thread_manager.cpp:94-134 | in every run, between events, the deferred count is at most 100 until stop, and with the outstanding operations at most 100 plus the depth |
| FleetResults.InFlightCommandsUntouched | src/poll_thread_manager.cpp:136-192 | in every run no worker writes to the slot or buffer of a command in flight, so they hold exactly what the device accepted, as long as no tenth rejection of an attempt (src/poll_thread_manager.cpp:150-152) has freed a buffer of the pool |
| FleetResults.HandedCommandsAreSound | src/poll_thread_manager.cpp:148-183 | in every run of all workers every command handed over is well formed and order independent for the namespace its sources were drawn for |
| FleetResults.HandedCommandsAsRead | src/poll_thread_manager.cpp:175-183 | in every run a command handed over, read in its destination namespace as the device reads it, is order independent if and only if it has no hazard; all are when copying between namespaces is off |
| FleetResults.Conservation | src/poll_thread_manager.cpp:85-104 | between events accepted = completed + failed + outstanding, the bytes are 512 times the blocks of exactly the successful commands, and the errors those of exactly the failures |
| FleetResults.ErrorCountersAgree | src/statistics.cpp:46-49 | in every run, between events, the error total is the number of failures, the failure counter agrees with it modulo 2^64, and the histogram and class counters agree with the codes recorded |
| FleetResults.ErrorCountersLag | src/error_handler.cpp:64-76 | at any moment of any run the error total lacks exactly the failures whose workers have not yet counted their class; it is exact if and only if there is none, and likewise the histogram |
| FleetResults.ErrorCountersDoLag | src/statistics.cpp:46-49 | from every state with a command in flight a run leads to a moment at which the error total is too low |
| FleetResults.FatalFailuresAreTwoCodes | src/poll_thread_manager.cpp:83-87 | of the codes recorded in a run exactly 0x01 and 0x02 count as fatal |
| FleetResults.GlobalDepthBound | src/poll_thread_manager.cpp:435-445 | all workers together never have more than max(iodepth, 4 * cores) outstanding |
| FleetEvents.WorkerRunIsFleetRun | src/poll_thread_manager.cpp:67-200 | a run of one worker's steps is a run of all workers in which no other worker changes |
| FleetEvents.SubmissionAccepted | src/poll_thread_manager.cpp:116-193 | below its depth, with a draw that is accepted at the cursor and a device that accepts, a worker gets one more operation outstanding and exactly the command drawn in flight |
| FleetResults.FillAll | src/poll_thread_manager.cpp:313-321 | where some draw is accepted at every cursor of the window, some run brings idle workers to their full depth |
| FleetResults.IodepthKeptInEveryRunExactly | src/poll_thread_manager.cpp:435-441 | where some draw is accepted at every cursor of the window, iodepth bounds the outstanding operations in every run if and only if it is at least four per core, or the controller's limit per core if that is less |
| FleetResults.RoomySetupAcceptsEverywhere | src/xcopy_generator.cpp:134-231 | some draw is accepted at every cursor whenever source and destination are one namespace and the part of it that sources are drawn from has room for a destination and a range on either side; the window may be all of it |
| FleetResults.WholeNamespaceAcceptsEverywhere | src/main.cpp:87-92 | a setup with the default window, the whole namespace |
| FleetResults.StopDrainsFrom | src/poll_thread_manager.cpp:104-190 | over any run outstanding plus completions equals what was outstanding plus acceptances |
| FleetResults.StopDrains | src/poll_thread_manager.cpp:118-120 | once stop is raised a worker accepts at most the one submission past its check, and reaches zero after exactly that many completions |
| FleetLosses.OutstandingIsInFlightAndLost | src/poll_thread_manager.cpp:103-109 | outstanding_io is the number of commands in flight, plus the lost ones, plus the one being completed |
| FleetLosses.StepLoses | src/poll_thread_manager.cpp:326-363 | a step loses exactly the slots that the device or the queue pair loses in it, and no step finds one again |
| FleetLosses.LossesStayOutstanding | src/poll_thread_manager.cpp:326-363 | in every run, between events, outstanding_io is the commands in flight plus all losses since the start, queue pairs replaced or not |
| FleetLosses.StuckExactly | src/poll_thread_manager.cpp:126-128 | a worker has its depth outstanding and nothing in flight if and only if it lost as many operations as its depth |
| FleetLosses.StuckForEver | src/poll_thread_manager.cpp:126-128 | and then it generates, submits and completes nothing in any continuation |
| FleetLosses.CanSubmitExactly | src/poll_thread_manager.cpp:126-193 | between events, while not stopped, a worker can get another command accepted in some continuation if and only if it lost fewer operations than its depth and it has a queue pair or an attempt left to get one |
| FleetLosses.GivenUpForEver | src/poll_thread_manager.cpp:353-368 | without either it never submits again, whatever it lost |
| FleetDestinations.AttemptReserves | src/xcopy_generator.cpp:201-231 | an attempt moves the shared cursor by what it reserved, accepted or not, and an accepted command writes to exactly that extent |
| FleetDestinations.CursorFollowsRequests | src/lba_manager.cpp:26-63 | in a run of all workers without a reset the shared cursor is the sequential allocator's |
| FleetDestinations.GeneratedWriteApart | src/lba_manager.cpp:37-60 | commands generated by any workers, with reservations that fit the window bound, have disjoint destinations |
| FleetDestinations.HandedInIsHistory | src/poll_thread_manager.cpp:175-183 | the commands handed over in a run are what it adds to the history |
| FleetDestinations.HandedWereGenerated | src/poll_thread_manager.cpp:147-183 | each command handed over was generated, and is handed over at most once |
| FleetDestinations.HandedWriteApart | src/poll_thread_manager.cpp:147-183 | in a stretch of any run without a reset and within the window bound, any two commands handed to the device write to disjoint blocks |
| CommandsTogether.TogetherExactly | src/xcopy_generator.cpp:215-228 | commands with disjoint destinations may be executed together, their block moves interleaved in any way, if and only if there is no hazard among all their moves, and always if no source range meets any of the destinations |
| CommandsTogether.InFlightWereHanded | src/poll_thread_manager.cpp:167-192 | the commands in flight after a run are among those in flight before it and those handed over in it, each at most as often |
| CommandsTogether.InFlightTogether | src/poll_thread_manager.cpp:167-192 | after a stretch of any run that starts with nothing in flight, has no reset and fits the window bound, all commands in flight of all workers have disjoint destinations and are independent under exactly that condition; sources outside the window are enough |
| CommandsTogether.TwoCommandsCanCollide | src/xcopy_generator.cpp:215-228 | a run with the default window after which two accepted commands are in flight whose joint result depends on the order |
| WorkerStartup.DepthBudget | src/poll_thread_manager.cpp:435-445 | the depths of all workers add up to at most max(iodepth, 4 * cores) |
| WorkerStartup.IodepthIsGlobalMaximumExactly | src/poll_thread_manager.cpp:435-445 | they add up to at most iodepth if and only if it is at least four per core, or the controller's limit per core if that is less |
| WorkerStartup.FindController | src/poll_thread_manager.cpp:481-503 | the fallback loop finds the first controller in cyclic order from i mod n that has room, or none exactly when all are full |
| WorkerStartup.AssignControllers | src/poll_thread_manager.cpp:454-511 | exactly min(cores, total capacity) workers start, each on the first open controller in cyclic order |
| WorkerStartup.RoundRobinWhenRoomy | src/poll_thread_manager.cpp:481-503 | with room for a fair share everywhere the assignment is round robin, and counts differ by at most one |
| Statistic.Statistics.constructor | src/statistics.cpp:7-17 | empty counters, the minimum at the greatest word |
| Statistic.Statistics.RecordCompletion | src/statistics.cpp:20-44 | counts the operation, its bytes and latency, lowers the minimum and raises the maximum to the true ones despite spurious failures, and adds one record to the ring |
| Statistic.CountersAreExact | src/statistics.cpp:20-40 | after any sequence of completions number, bytes and latency sums are exact modulo 2^64 and the extremes are the true ones |
| Statistic.Statistics.RecordFailure | src/statistics.cpp:46-49 | keeps the failure counter and the error counter in agreement |
| Statistic.Statistics.GetPercentile | src/statistics.cpp:51-78 | the percentile of the nonzero values among the last 65536 records |
| Statistic.Statistics.GetAvgLatencyNs | src/statistics.cpp:104-110 | the average times the count is the total, and zero without completions |
| Statistic.Statistics.Reset | src/statistics.cpp:132-144 | everything is as after construction |
| Statistic.Statistics.GetSnapshot | src/statistics.cpp:146-156 | copies the counters and the samples, as a multiset the nonzero ones of the last 65536 records |
| StatisticsThreads.ExtremesAreExact | src/statistics.cpp:20-44 | when no recorder is in progress minimum and maximum are the true ones and the count and total those of all records, in any interleaving |
| StatisticsThreads.RetryShrinksGap | src/statistics.cpp:26-40 | a compare-exchange that fails and not spuriously strictly shrinks the gap still to close |
| StatisticsThreads.TotalBetweenExtremes | src/statistics.cpp:22-40 | the total is the true sum if and only if that fits 64 bits; it never exceeds maximum times count, and is at least minimum times count if and only if the multiples of 2^64 lost to wrapping are no more than what the latencies exceed the minimum by in all |
| StatisticsThreads.AverageCanFallBelowMinimum | src/statistics.cpp:22-24 | a run after which the total is below minimum times count |
| LatencyRing.SlotIsMasked | include/statistics.h:37 | the mask is the remainder |
| LatencyRing.SamplesAreTheLastRecords | include/statistics.h:43-54 | what is read from the ring is, as a multiset, the nonzero values among the last 65536 records |
| LatencyRing.LockFreeLatencyBuffer.Record | include/statistics.h:36-40 | adds one record to the history that the ring represents |
| LatencyRing.LockFreeLatencyBuffer.GetSamples | include/statistics.h:43-54 | returns the nonzero ones of the last 65536 records, in order while the ring is not full |
| LatencyRing.LockFreeLatencyBuffer.Reset | include/statistics.h:56-62 | the ring represents no records |
| LatencyThreads.ConcurrentRecordsAreExact | include/statistics.h:36-54 | threads that together record at most 65536 values leave exactly these, in any interleaving |
| Percentiles.SortSorts | src/statistics.cpp:59 | sorted samples are ascending and the same multiset |
| Percentiles.AscendingIsUnique | src/statistics.cpp:59 | and the only such sequence |
| Percentiles.PercentileIgnoresOrder | src/statistics.cpp:51-78 | the result depends on the multiset of samples only |
| Percentiles.PercentileMonotone | src/statistics.cpp:51-78 | it never decreases as p grows |
| Percentiles.PercentileInterpolates | src/statistics.cpp:68-77 | between two neighbouring sorted samples the percentile moves linearly from one to the other, both ends included |
| Percentiles.PercentileBetweenExtremes | src/statistics.cpp:61-77 | it lies between least and greatest sample and is these at p <= 0 and p >= 100 |
| Percentiles.TailPercentilesInOrder | include/statistics.h:99-101 | p99 <= p99.9 <= p99.99 |
| ErrorAccounting.FieldsAreMasked | src/error_handler.cpp:9-33 | the fields of a status are those the masks take out |
| ErrorAccounting.EightBitCodesHaveNoType | src/poll_thread_manager.cpp:83-87 | without a status code type only two codes are fatal |
| ErrorAccounting.ClassesPartition | src/error_handler.cpp:64-71 | every code is in exactly one class |
| ErrorAccounting.RecordAgrees | src/error_handler.cpp:64-76 | recording an error keeps each class counter equal to the histogram's total over its class |
| ErrorAccounting.ErrorAccountsAgree | src/error_handler.cpp:64-105 | after any failures the total is their number, the histogram counts each code, and class counters and histogram agree |
| ErrorAccounting.CountsDetermine | src/error_handler.cpp:64-105 | class counters and a histogram that count the codes recorded are those that recording them leads to, in whatever order the updates came |
| ErrorAccounting.ErrorCounter.RecordError | src/error_handler.cpp:64-76 | the counter after one more error, in agreement with its histogram |
| ErrorAccounting.ErrorCounter.GetTotalErrors | src/error_handler.cpp:87-89 | the sum of the class counters is the histogram's total |
| ErrorAccounting.ErrorCounter.GetAllErrors | src/error_handler.cpp:99-105 | the loop copies the whole histogram |

## Left out

- SPDK, NVMe/TCP connection, probing, admin polling, how a queue pair is connected, CPU affinity, sleeps and time: polls fail, attempts succeed and completions arrive as the environment likes.
- The order in which the loop of `thread_func` makes its batches, polls and attempts, and its idle back-off: the pieces are modelled, and the fleet may take them in any order.
- Command line, configuration output, reports, live monitor, signals: no shared state of the engine.
- `set_dst_range` during allocations: a reader loads start and end separately and could mix windows, so the window is replaced only while no thread is inside the allocator.
- `get_next_dst_lba`, `advance_dst_lba`, `get_dst_range_size`, `poller_func`: deprecated or unused.
- Standard deviation, throughput and the microsecond average: one-line computations.
- Rounding of floating-point numbers: percentile and average are exact reals.
- Quality of random numbers, and the workers' unsynchronised use of the generator's own random engine (include/xcopy_generator.h:63): a draw is any value of its range.
- Weak memory: atomic operations take effect one after the other.
- Lifetime of DMA buffers: a slot's buffer belongs to the slot for ever. The temporary operation still points to it when the tenth rejection returns (src/poll_thread_manager.cpp:150-152), so its destructor frees a buffer of the pool; no statement about ownership of buffers is made on that path.
- FleetResults.InFlightCommandsUntouched: in a run with a tenth rejection the buffer freed by it, and whatever memory management makes of that, is outside the model; the statement is about the workers' own writes.
- The fields of a range that are always zero (eilbrt, elbatm, elbat), start_time_ns, and the copies of an operation: the latency is an input of the completion.
- The callback's null checks and failures of pool set-up or connection while starting: a started worker has its pool and queue pair; the controllers accept until a fixed capacity.
- Names of errors; the lock around the histogram makes its update one step.
- OpPool.OperationPool.Init: the buffers themselves are not freed after a failure, the pool only forgets them.
- Statistic.Statistics.RecordCompletion: fewer than 2^64 records since the last reset, so that the ring's 64-bit counters do not wrap.
- Fleets.StepKeepsInv: of a completion's statistics the counts, bytes and errors are part of the fleet; minimum, maximum, total and samples are treated in StatisticsThreads and LatencyThreads, which any number of completions drive.
- ErrorAccounting.ErrorCounter.RecordError: class counters and histogram entries do not wrap at 2^64.
- Statistic.Statistics.GetSnapshot: the copy's ring and error counter stay what they were, as in the source, so percentiles and error counts are stated on the original.
- LatencyThreads.ConcurrentRecordsAreExact: beyond one lap of the ring a slow store can overwrite a newer sample, so nothing is claimed for more than 65536 concurrent records.
- WorkerStartup.AssignControllers: workers that could not get a controller are not created, and a missing first worker is the empty assignment rather than an error code.
- DestinationLba.LbaManager.GetAndAdvanceDstLba: start, end and cursor plus the request fit 64 bits.
- DestinationLba.ReserveStaysInWindow: a request larger than the window is served from its start, outside the guarantee, as in the source.

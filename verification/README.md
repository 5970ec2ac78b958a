# BrandUp.Worker: a Dafny model of the task allocator and the worker executor

BrandUp.Worker is a background-task system. Clients push task models to an
allocator. Executors (workers) subscribe to the allocator with the task names
they handle. They then long-poll it for tasks, run each task through a
handler, and report the task back as a success, an error or a deferral. This
project models the core of that system as pure Dafny functions over immutable
state and proves properties of it:

- **Task metadata.** The `[Task]` attribute, the name derived from a class name,
  and the metadata manager's two indexes: by payload type, and by
  case-insensitive name (`task_metadata.dfy`, `metadata_registry.dfy`).
- **The allocator's building blocks.**
  - `task_queue.dfy`: one FIFO queue per registered type, with a running count.
  - `executor_entry.dfy`: the allocator's record of one executor.
  - `waiting.dfy`: the parked wait call, in its two revisions.
- **The current allocator** (`TaskAllocator.cs`).
  - `allocator_state.dfy`: the state and its invariant.
  - `drain.dfy`: the queue drain run by a wait call, with its start-timeout
    cancellation.
  - `allocator.dfy`: push with direct handoff to a parked wait, subscribe,
    wait, the success, error and defer reports, and restore from the
    repository.
- **The older allocator** (`Infrastructure/TaskAllocator.cs`):
  `legacy_find.dfy` and `legacy_allocator.dfy`.
- **The in-memory task repository** used by the allocator tests
  (`memory_repository.dfy`).
- **The worker side.**
  - `handler_registry.dfy`: the handler map.
  - `worker_executor.dfy`: the executor, with its start guard, job set and
    counters.
  - `task_job.dfy`: the callback sequence of one job run.
- **HTTP routing** of the allocator host middleware and of the web-host
  extension (`routing.dfy`, with string helpers in `text.dfy`).

### How the model represents the source

- **Failures.** An operation returns its answer together with the state it
  leaves. A C# exception becomes `Err(kind)` with `kind` from `Common.Error`.
  When the source throws after a partial update, the model keeps that partial
  state.
- **Outside inputs.** Clocks, `Guid.NewGuid()`, repository failures and
  throwing callbacks are parameters.
- **Dictionary order.** `ConcurrentDictionary` enumeration order is not
  specified. The model visits entries in ascending id order, so the proved
  choice is "the least eligible id". A `HashSet` of task types is modelled
  as its elements in first-occurrence order (`ExecutorEntry.Dedup`).

### Revisions

The repository mixes revisions. The current allocator calls `AddTask`,
`TryRemoveTask` and a one-argument `TaskExecutor` constructor. The
`Infrastructure/TaskExecutor.cs` file in the tree has `AddCommand` and
`TryRemoveCommand` instead. The model follows each file's own code:

- the executor entry is the `Infrastructure` class;
- the entry the current allocator creates on restore accepts no type;
- the current allocator reads `StartTimeout`, the field the attribute defines.

The worker executor is in the same position. `TaskExecutor.cs` builds a
`JobTask` (line 96) and implements `IJobExecutorContext.OnCancelledJob(JobTask)`
(line 129). No `JobTask` type exists in the tree. The `IJobExecutorContext` of
`TaskJob.cs` (lines 94-103) has no `OnCancelledJob`, so `TaskJob.Execute`
never reaches that callback. The model takes the executor's callbacks as
written and the job's run as `TaskJob.cs` writes it.

## Model

| member | source | states |
|---|---|---|
| TaskMetadata.DeriveName | src/BrandUp.Worker.Common/Tasks/TaskMetadata.cs:27-34 | the derived name is a prefix of the class name |
| TaskMetadata.DeriveNameStripsSuffix | src/BrandUp.Worker.Common/Tasks/TaskMetadata.cs:32-33 | appending "Task" to any name and deriving gives the name back |
| TaskMetadata.DeriveNameCases | src/BrandUp.Worker.Common/Tasks/TaskMetadata.cs:30-34 | a class name not ending in "Task" is kept whole; one ending in it loses exactly that suffix |
| TaskMetadata.Create | src/BrandUp.Worker.Common/Tasks/TaskMetadata.cs:15-38 | metadata exists exactly for a concrete class with the attribute, otherwise ArgumentException; it has the class's type and the attribute's timeouts; a non-empty attribute name is the name; otherwise a class name ending in "Task" is the name plus "Task", and any other class name is the name itself |
| TaskMetadata.DefaultAttributeExample | src/BrandUp.Worker.Common/Attributes/TaskAttribute.cs:8-10 | `[Task] class TestTask` registers as "Test" with start timeout 0 and execution timeout 30000 |
| MetadataRegistry.Register | src/BrandUp.Worker.Common/Tasks/TaskMetadataManager.cs:17-25 | one constructor iteration succeeds exactly when the class is valid and clashes with no earlier type or case-insensitive name; the indexes stay consistent and the metadata is appended |
| MetadataRegistry.Build | src/BrandUp.Worker.Common/Tasks/TaskMetadataManager.cs:12-26 | a built registry is consistent and holds each class's metadata at the class's position |
| MetadataRegistry.BuildSucceedsIff | src/BrandUp.Worker.Common/Tasks/TaskMetadataManager.cs:17-25 | the constructor completes if and only if every class is a task class and no two share a type or a lower-cased name |
| MetadataRegistry.RegistrableStep | src/BrandUp.Worker.Common/Tasks/TaskMetadataManager.cs:17-25 | a list is registrable exactly when its prefix is and the last class fits after it |
| MetadataRegistry.FreshIffFits | src/BrandUp.Worker.Common/Tasks/TaskMetadataManager.cs:22-23 | the index keys are free exactly when the new class clashes with no earlier class |
| MetadataRegistry.FindByType | src/BrandUp.Worker.Common/Tasks/TaskMetadataManager.cs:53-62 | a registered type yields its metadata; null exactly when no task has the type |
| MetadataRegistry.FindByName | src/BrandUp.Worker.Common/Tasks/TaskMetadataManager.cs:43-52 | a null name throws ArgumentNullException; the result matches ignoring letter case; null exactly when no name matches |
| MetadataRegistry.FindByModel | src/BrandUp.Worker.Common/Tasks/TaskMetadataManager.cs:31-37 | a null model throws; otherwise the lookup is by the model's runtime type |
| MetadataRegistry.TaskTypesRegistered | src/BrandUp.Worker.Common/Tasks/TaskMetadataManager.cs:22-30 | a type is listed by the `Tasks` property exactly when a lookup by that type finds metadata |
| MetadataRegistry.TaskTypesDistinct | src/BrandUp.Worker.Common/Tasks/TaskMetadataManager.cs:22 | registered types are pairwise different |
| MetadataRegistry.LookupRoundTrip | src/BrandUp.Worker.Common/Tasks/TaskMetadataManager.cs:31-62 | each registered metadata is found again by its type, by its name in any letter case, and by any model of its type |
| TaskQueue.New | src/BrandUp.Worker.Allocator/Infrastructure/TaskQueue.cs:16-30 | one empty queue per type; a repeated type throws ArgumentException; the count is zero |
| TaskQueue.Enqueue | src/BrandUp.Worker.Allocator/Infrastructure/TaskQueue.cs:38-49 | an unregistered type throws; otherwise the task goes to the tail of its type's queue and the count rises by one |
| TaskQueue.TryDequeue | src/BrandUp.Worker.Allocator/Infrastructure/TaskQueue.cs:50-70 | an unregistered type throws; an empty queue gives nothing; otherwise the head comes out and the count drops by one, other types untouched |
| TaskQueue.SumLengthsUpdate | src/BrandUp.Worker.Allocator/Infrastructure/TaskQueue.cs:10 | replacing one type's queue moves the total by the length difference |
| TaskQueue.DequeueEnqueueAreReplace | src/BrandUp.Worker.Allocator/Infrastructure/TaskQueue.cs:38-70 | a dequeue replaces a queue by its tail and an enqueue replaces it by the longer queue |
| TaskQueue.ContentsUpdate | src/BrandUp.Worker.Allocator/Infrastructure/TaskQueue.cs:38-70 | replacing one type's queue swaps exactly that queue's tasks in the multiset of all queued tasks |
| TaskQueue.ContentsMember | src/BrandUp.Worker.Allocator/Infrastructure/TaskQueue.cs:10 | a task is queued exactly when it sits in the queue of one registered type |
| TaskQueue.ContentsSize | src/BrandUp.Worker.Allocator/Infrastructure/TaskQueue.cs:10 | the multiset of queued tasks has as many elements as the queue lengths add up to |
| TaskQueue.EnqueueDequeueRoundTrip | src/BrandUp.Worker.Allocator/Infrastructure/TaskQueue.cs:38-70 | a task enqueued into an empty type queue dequeues unchanged and the queue returns to its start |
| TaskQueue.EnqueueKeepsHead | src/BrandUp.Worker.Allocator/Infrastructure/TaskQueue.cs:85-92 | a later enqueue never overtakes the head of a non-empty queue |
| TaskQueue.FifoOrder | src/BrandUp.Worker.Allocator/Infrastructure/TaskQueue.cs:85-92 | two tasks of one type come out in push order and the count returns |
| ExecutorEntry.Dedup | src/BrandUp.Worker.Allocator/Infrastructure/TaskExecutor.cs:22 | the supported types have no repeats and the same members as the list |
| ExecutorEntry.DedupOfDistinct | src/BrandUp.Worker.Allocator/Infrastructure/TaskExecutor.cs:22 | a repeat-free list is kept as it is |
| ExecutorEntry.New | src/BrandUp.Worker.Allocator/Infrastructure/TaskExecutor.cs:16-23 | a null or empty type list throws ArgumentException; otherwise the entry accepts exactly the listed types and holds no task |
| ExecutorEntry.AddCommand | src/BrandUp.Worker.Allocator/Infrastructure/TaskExecutor.cs:29-33 | a task id already held throws InvalidOperationException; otherwise the task is stored under its id and the count rises by one |
| ExecutorEntry.TryRemoveCommand | src/BrandUp.Worker.Allocator/Infrastructure/TaskExecutor.cs:34-37 | a held id is removed and its container returned; an absent one changes nothing |
| ExecutorEntry.AddRemoveRoundTrip | src/BrandUp.Worker.Allocator/Infrastructure/TaskExecutor.cs:29-37 | removing a task just added returns it and restores the entry |
| ExecutorEntry.TotalRemove | src/BrandUp.Worker.Allocator/TaskAllocator.cs:24 | the executing total splits into one entry's count plus the rest |
| ExecutorEntry.TotalUpdate | src/BrandUp.Worker.Allocator/TaskAllocator.cs:24 | replacing an entry moves the total by the count difference |
| Waiting.SendTask | src/BrandUp.Worker.Allocator/TaskAllocator.cs:388-391 | only a pending waiting takes the task, as a one-task result; a completed one refuses and is unchanged |
| Waiting.End | src/BrandUp.Worker.Allocator/TaskAllocator.cs:393-396 | a pending waiting completes with no task; a completed one is unchanged |
| Waiting.FirstWriterWins | src/BrandUp.Worker.Allocator/TaskAllocator.cs:388-396 | once SendTask or End completed the waiting, no later call changes its result |
| Waiting.TryAddCommand | src/BrandUp.Worker.Allocator/Infrastructure/TaskAllocator.cs:313-326 | a cancelled waiting refuses; otherwise it appends the command and cancels itself |
| Waiting.Collected | src/BrandUp.Worker.Allocator/Infrastructure/TaskAllocator.cs:291-312 | the parked call gets the collected commands when there are some, otherwise the empty case |
| Waiting.AcceptsAtMostOne | src/BrandUp.Worker.Allocator/Infrastructure/TaskAllocator.cs:313-326 | after one acceptance every later offer is refused and exactly that command is collected |
| Waiting.CancelledCollectsNothing | src/BrandUp.Worker.Allocator/Infrastructure/TaskAllocator.cs:291-326 | a waiting cancelled before any offer refuses all offers and collects nothing |
| AllocatorState.Init | src/BrandUp.Worker.Allocator/TaskAllocator.cs:52-59 | a new allocator satisfies the invariant, with no executor, waiter or queued task; the cap is the option when positive, else 10; a type has a queue exactly when it is registered |
| AllocatorState.QueuedIffRegistered | src/BrandUp.Worker.Allocator/TaskAllocator.cs:94-96 | a type has a queue exactly when the metadata manager knows it |
| AllocatorState.ReplaceExecutorKeepsInv | src/BrandUp.Worker.Allocator/TaskAllocator.cs:24 | replacing an executor entry keeps the invariant once the counter moves by the difference |
| Drain.DrainPending | src/BrandUp.Worker.Allocator/TaskAllocator.cs:155-164 | one type's loop delivers at most the bound, only tasks that were pending, and only shortens the pending list |
| Drain.DrainPendingCancelled | src/BrandUp.Worker.Allocator/TaskAllocator.cs:172-191 | every task the loop cancels had passed its start timeout and its repository cancellation succeeded |
| Drain.DrainPendingFresh | src/BrandUp.Worker.Allocator/TaskAllocator.cs:157-160 | with a failed cancellation handled as intended, every delivered task is within its start timeout |
| Drain.DrainPendingConserves | src/BrandUp.Worker.Allocator/TaskAllocator.cs:155-187 | with the corrected handling, the delivered, cancelled and still-queued tasks are exactly the tasks before (as a multiset) |
| Drain.DrainPendingFifo | src/BrandUp.Worker.Allocator/TaskAllocator.cs:155-164 | with nothing expired, the loop takes the longest prefix that fits, in queue order |
| Drain.DrainPendingEmpties | src/BrandUp.Worker.Allocator/TaskAllocator.cs:155-164 | with every cancellation succeeding, a loop that stops below the bound has emptied the pending list |
| Drain.DrainType | src/BrandUp.Worker.Allocator/TaskAllocator.cs:153-168 | draining one type changes only that type's queue, keeps in it only tasks that were there, and delivers only tasks that were delivered before or queued there |
| Drain.DrainTypeConserves | src/BrandUp.Worker.Allocator/TaskAllocator.cs:155-187 | with the corrected handling, one type's drain keeps the multiset of delivered, cancelled and queued tasks |
| Drain.DrainTypes | src/BrandUp.Worker.Allocator/TaskAllocator.cs:153-168 | the outer loop delivers at most the bound, only tasks of the executor's types, and leaves other types' queues alone |
| Drain.DrainTypesOrigin | src/BrandUp.Worker.Allocator/TaskAllocator.cs:153-164 | every delivered task was delivered before or sat in the queue of its own type, one of the drained types |
| Drain.DrainTypesEmpties | src/BrandUp.Worker.Allocator/TaskAllocator.cs:153-168 | with every cancellation succeeding, a drain that delivers fewer than the bound leaves every drained type's queue empty |
| Drain.DrainTypesCancelled | src/BrandUp.Worker.Allocator/TaskAllocator.cs:172-191 | every task the drain cancels had expired and was cancelled successfully |
| Drain.DrainTypesFresh | src/BrandUp.Worker.Allocator/TaskAllocator.cs:157-160 | the corrected drain delivers only tasks within their start timeout |
| Drain.DrainTypesConserves | src/BrandUp.Worker.Allocator/TaskAllocator.cs:148-187 | the corrected drain keeps the multiset of delivered, cancelled and queued tasks: each task is in exactly as many places after as before |
| Drain.AllTasksCount | src/BrandUp.Worker.Allocator/TaskAllocator.cs:148-187 | that multiset has as many elements as the queue counter plus the delivered and cancelled tasks |
| Drain.FindTasks | src/BrandUp.Worker.Allocator/TaskAllocator.cs:148-191 | corrected drain: at most max minus executing tasks (room for one at least); delivered plus cancelled plus still-queued tasks equal the queued tasks before, as a multiset; each delivered task is supported, fresh and came from its own type's queue; cancelled ones had expired; unsupported queues are untouched; with every cancellation succeeding, a drain below the bound leaves every supported queue empty |
| Drain.FindTasksFacts | src/BrandUp.Worker.Allocator/TaskAllocator.cs:148-191 | the conservation, origin, freshness and cancellation facts of the corrected drain |
| Drain.FindTasksEmpties | src/BrandUp.Worker.Allocator/TaskAllocator.cs:153-168 | with every cancellation succeeding, a corrected drain below the bound leaves every supported queue empty |
| Drain.FindTasksNonEmpty | src/BrandUp.Worker.Allocator/TaskAllocator.cs:148-171 | with every cancellation succeeding and room for a task, the drain delivers something exactly when some supported queue holds a task within its start timeout |
| Drain.FindTasksDeliversOnce | src/BrandUp.Worker.Allocator/TaskAllocator.cs:148-171 | when no task is queued twice, the corrected drain delivers each task at most once and never one it leaves queued |
| Drain.FindTasksAsWritten | src/BrandUp.Worker.Allocator/TaskAllocator.cs:148-191 | the drain as written keeps the bound and the type restriction |
| Drain.DeliversOneAtCapacity | src/BrandUp.Worker.Allocator/TaskAllocator.cs:160-163 | an executor at or over the cap still receives one fresh task, because the test follows the insertion |
| Drain.AsWrittenDeliversTwice | src/BrandUp.Worker.Allocator/TaskAllocator.cs:183-187 | an expired task whose cancellation fails is delivered twice and still queued as written; the corrected drain delivers nothing |
| Allocator.Scan | src/BrandUp.Worker.Allocator/TaskAllocator.cs:117-147 | the handoff only picks a known executor below the cap that accepts the type and whose waiting took the task; only removed waiters leave the registry |
| Allocator.ScanPicksLeastEligible | src/BrandUp.Worker.Allocator/TaskAllocator.cs:121-138 | with all waiters pending, the task goes to the least eligible executor exactly when one exists, and only its waiter is removed |
| Allocator.AssignableStep | src/BrandUp.Worker.Allocator/TaskAllocator.cs:290-300 | a list can be assigned exactly when its head can and the rest can after it |
| Allocator.AddAll | src/BrandUp.Worker.Allocator/TaskAllocator.cs:290-300 | the loop adds every task exactly when the ids are new and pairwise different, then by the list length; the executing count of the entry rises by the number added; id and types are kept |
| Allocator.AddAllKeeps | src/BrandUp.Worker.Allocator/TaskAllocator.cs:290-300 | adding tasks never changes a task already assigned |
| Allocator.AddAllKeys | src/BrandUp.Worker.Allocator/TaskAllocator.cs:290-300 | when all tasks are added the entry gains exactly their ids |
| Allocator.AddAllStores | src/BrandUp.Worker.Allocator/TaskAllocator.cs:296 | each added task is stored under its own id |
| Allocator.Complete | src/BrandUp.Worker.Allocator/TaskAllocator.cs:288-301 | the completion succeeds exactly when the tasks are assignable; each is then held and counted and its execution model returned; a duplicate id throws, keeping the earlier additions |
| Allocator.PushWith | src/BrandUp.Worker.Allocator/TaskAllocator.cs:89-116 | a null model throws ArgumentNullException and an unregistered one ArgumentException, both changing nothing |
| Allocator.Push | src/BrandUp.Worker.Allocator/TaskAllocator.cs:89-116 | a rejected push changes nothing; an accepted one reports the new task id |
| Allocator.PushAsWritten | src/BrandUp.Worker.Allocator/TaskAllocator.cs:89-116 | as written, push answers as the corrected push and leaves the same state, except that a handoff leaves the executing counter one higher |
| Allocator.PushWithoutWaiter | src/BrandUp.Worker.Allocator/TaskAllocator.cs:109-113 | with no eligible waiter the task is queued at the tail, reported not started with an empty executor id, and nothing else changes |
| Allocator.PushHandsOff | src/BrandUp.Worker.Allocator/TaskAllocator.cs:103-108 | with an eligible waiter the least eligible executor gets the task, only its waiter is withdrawn, and the queue is untouched |
| Allocator.PushHandoffAssigns | src/BrandUp.Worker.Allocator/TaskAllocator.cs:290-297 | the resumed wait call adds the handed-off task to the executor and counts it once |
| Allocator.PushKeepsInv | src/BrandUp.Worker.Allocator/TaskAllocator.cs:89-116 | push, counting the handoff once, keeps the allocator invariant |
| Allocator.PushAsWrittenOvercounts | src/BrandUp.Worker.Allocator/TaskAllocator.cs:107 | as written, a handoff leaves the executing count one above the assigned tasks; the corrected push keeps them equal |
| Allocator.CompleteKeepsInv | src/BrandUp.Worker.Allocator/TaskAllocator.cs:290-300 | the completion loop keeps the invariant, even when it throws |
| Allocator.ResolveNames | src/BrandUp.Worker.Allocator/TaskAllocator.cs:251-259 | names resolve exactly when each is present and registered, to the types in name order |
| Allocator.Subscribe | src/BrandUp.Worker.Allocator/TaskAllocator.cs:249-273 | an unknown name, an empty list or an id in use throws InvalidOperationException and changes nothing; otherwise a new executor accepting exactly the named types is added |
| Allocator.SubscribeKeepsInv | src/BrandUp.Worker.Allocator/TaskAllocator.cs:249-273 | subscribing keeps the invariant |
| Allocator.WaitWith | src/BrandUp.Worker.Allocator/TaskAllocator.cs:274-302 | an unknown executor is an ArgumentException and a cancelled call throws, both changing nothing; an empty drain parks the call when the executor has no waiter and throws InvalidOperationException when it has one; a non-empty drain delivers all it found or throws |
| Allocator.WaitParksIff | src/BrandUp.Worker.Allocator/TaskAllocator.cs:274-286 | with every cancellation succeeding, a wait parks exactly when no supported queue holds a fresh task and the executor has no waiter; with a waiter already parked and nothing to deliver, it throws |
| Allocator.Wait | src/BrandUp.Worker.Allocator/TaskAllocator.cs:274-302 | with the corrected drain, a rejected call changes nothing, and a parked call registers a pending waiter for an executor that had none |
| Allocator.Expire | src/BrandUp.Worker.Allocator/TaskAllocator.cs:201-208 | a timed-out waiter still registered is withdrawn and resumes with no task; otherwise nothing happens |
| Allocator.ExpireKeepsInv | src/BrandUp.Worker.Allocator/TaskAllocator.cs:201-208 | expiry keeps the invariant |
| Allocator.WaitKeepsInv | src/BrandUp.Worker.Allocator/TaskAllocator.cs:274-302 | a wait call keeps the invariant under either drain |
| Allocator.WaitDelivers | src/BrandUp.Worker.Allocator/TaskAllocator.cs:281-301 | a wait that completes at once hands out between one task and the free capacity (room for one at least), each counted and held |
| Allocator.WaitAsWrittenThrowsOnDuplicate | src/BrandUp.Worker.Allocator/TaskAllocator.cs:183-187 | as written, a doubly delivered task makes the wait throw while the task is both assigned and queued; the corrected wait parks instead |
| Allocator.Release | src/BrandUp.Worker.Allocator/TaskAllocator.cs:305-311 | an unknown executor or task throws ArgumentException and changes nothing; otherwise the task leaves the executor and the counter drops by one |
| Allocator.Success | src/BrandUp.Worker.Allocator/TaskAllocator.cs:303-314 | a success report is a release: the task leaves its executor's set, the counter drops by one, the other executors and the rest of the state are unchanged |
| Allocator.Error | src/BrandUp.Worker.Allocator/TaskAllocator.cs:315-326 | an error report is the same transition as a success report, with the same removal and frame |
| Allocator.Defer | src/BrandUp.Worker.Allocator/TaskAllocator.cs:327-340 | a deferred task is released, leaving its executor's set with the counter one lower and every other executor, the waiters and the registry unchanged, and goes back to the tail of its type's queue |
| Allocator.ReleaseKeepsInv | src/BrandUp.Worker.Allocator/TaskAllocator.cs:305-311 | releasing keeps the invariant |
| Allocator.SuccessKeepsInv | src/BrandUp.Worker.Allocator/TaskAllocator.cs:303-326 | success and error reports keep the invariant |
| Allocator.DeferKeepsInv | src/BrandUp.Worker.Allocator/TaskAllocator.cs:327-340 | deferring keeps the invariant and always requeues a registered task |
| Allocator.RestoreAssigned | src/BrandUp.Worker.Allocator/TaskAllocator.cs:76-83 | a started record goes to its executor, created empty if absent, and is counted; a held id throws after the entry is created |
| Allocator.RestoreAssignedKeepsInv | src/BrandUp.Worker.Allocator/TaskAllocator.cs:76-83 | restoring onto an executor keeps the invariant |
| Allocator.RestoreOne | src/BrandUp.Worker.Allocator/TaskAllocator.cs:68-85 | a record without a registered payload throws and changes nothing; a started one is stored under its id in its executor's entry, only that entry changing; any other is appended to its type's queue; no executor loses a task |
| Allocator.RestoreOneKeepsInv | src/BrandUp.Worker.Allocator/TaskAllocator.cs:68-85 | restoring one record keeps the invariant |
| Allocator.Restore | src/BrandUp.Worker.Allocator/TaskAllocator.cs:66-87 | restoring keeps the invariant, failed or not; when every record restores, the started ones are counted as executing and the others are queued |
| Allocator.RestoreQueues | src/BrandUp.Worker.Allocator/TaskAllocator.cs:66-87 | when every record restores, each type's queue is its old queue followed by that type's unstarted records in record order |
| Allocator.RestoreHeld | src/BrandUp.Worker.Allocator/TaskAllocator.cs:66-87 | when every record restores, each started record is held by its executor under its id |
| Allocator.RestoreKeepsHeld | src/BrandUp.Worker.Allocator/TaskAllocator.cs:66-87 | restoring never removes an executor or a task an executor holds |
| Allocator.RestoreStartedThenWaiting | test/BrandUp.Worker.Allocator.Tests/TaskAllocatorAfterRestoreTests.cs:42-65 | one started and one waiting record restore to one executing task and one queued task |
| Allocator.RestoreWaitingThenStarted | test/BrandUp.Worker.Allocator.Tests/TaskAllocatorAfterRestoreTests.cs:42-65 | the same records in the other order give the same counts |
| LegacyFind.TakeTypePrefix | src/BrandUp.Worker.Allocator/Infrastructure/TaskAllocator.cs:170-176 | one type's loop takes the longest prefix of its queue that fits under the cap |
| LegacyFind.TakeStep | src/BrandUp.Worker.Allocator/Infrastructure/TaskAllocator.cs:170-176 | one dequeue followed by the rest of the loop takes the same prefix |
| LegacyFind.FindAllCounts | src/BrandUp.Worker.Allocator/Infrastructure/TaskAllocator.cs:168-180 | the outer loop extends the list up to the cap and the queue count drops by what it took |
| LegacyFind.TakeTypeFrame | src/BrandUp.Worker.Allocator/Infrastructure/TaskAllocator.cs:170-176 | taking from one type only shortens that type's queue from the front |
| LegacyFind.FindAllOrigin | src/BrandUp.Worker.Allocator/Infrastructure/TaskAllocator.cs:165-183 | every command found was queued under one of the executor's types |
| LegacyFind.FindAllFrame | src/BrandUp.Worker.Allocator/Infrastructure/TaskAllocator.cs:165-183 | queues only lose commands and other types' queues are untouched |
| LegacyFind.FindAllEmpties | src/BrandUp.Worker.Allocator/Infrastructure/TaskAllocator.cs:174-179 | a list short of the cap means every queue of the executor's types was emptied |
| LegacyFind.Find | src/BrandUp.Worker.Allocator/Infrastructure/TaskAllocator.cs:165-183 | the drain takes at most the cap and the queue count drops by exactly what it took |
| LegacyFind.FindAllNonEmpty | src/BrandUp.Worker.Allocator/Infrastructure/TaskAllocator.cs:165-183 | something is taken exactly when one of the types has a queued command |
| LegacyFind.FindAllNothing | src/BrandUp.Worker.Allocator/Infrastructure/TaskAllocator.cs:165-183 | with all the types' queues empty, nothing is taken and the queue is unchanged |
| LegacyFind.FindNonEmpty | src/BrandUp.Worker.Allocator/Infrastructure/TaskAllocator.cs:165-183 | the whole drain finds nothing exactly when every queue of the types is empty |
| LegacyAllocator.Init | src/BrandUp.Worker.Allocator/Infrastructure/TaskAllocator.cs:36-51 | a missing metadata manager throws ArgumentNullException; otherwise an empty allocator with the option values when positive and 30 s and 10 otherwise |
| LegacyAllocator.Offer | src/BrandUp.Worker.Allocator/Infrastructure/TaskAllocator.cs:76-97 | the command goes only to a waiting whose executor accepts the type and which accepted it; when none takes it every accepting waiting was cancelled |
| LegacyAllocator.OfferPicksLeastAccepting | src/BrandUp.Worker.Allocator/Infrastructure/TaskAllocator.cs:83-93 | with all waitings open, the least accepting executor gets the command exactly when one exists, whatever its load |
| LegacyAllocator.ToExecute | src/BrandUp.Worker.Allocator/Infrastructure/TaskAllocator.cs:162 | the commands handed out keep their order, ids and payloads |
| LegacyAllocator.Deliver | src/BrandUp.Worker.Allocator/Infrastructure/TaskAllocator.cs:155-162 | delivery succeeds exactly when the commands are assignable; they are then held, counted and returned in order; a held id throws |
| LegacyAllocator.DeliverKeepsInv | src/BrandUp.Worker.Allocator/Infrastructure/TaskAllocator.cs:155-162 | delivering keeps the invariant, whether or not it throws |
| LegacyAllocator.PushCommand | src/BrandUp.Worker.Allocator/Infrastructure/TaskAllocator.cs:55-74 | a null command throws ArgumentNullException and an unregistered one ArgumentException, changing nothing; a command not started reports the empty executor id |
| LegacyAllocator.PushWithoutWaiting | src/BrandUp.Worker.Allocator/Infrastructure/TaskAllocator.cs:69-73 | with no accepting waiting the command is queued at the tail and nothing else changes |
| LegacyAllocator.PushHandsOff | src/BrandUp.Worker.Allocator/Infrastructure/TaskAllocator.cs:66-68 | with an accepting waiting the least such executor gets the command; its waiting leaves the registry and the queue is untouched |
| LegacyAllocator.PushHandoffCounts | src/BrandUp.Worker.Allocator/Infrastructure/TaskAllocator.cs:151-160 | the resumed wait call holds the handed-off command and counts it once |
| LegacyAllocator.DeliverOne | src/BrandUp.Worker.Allocator/Infrastructure/TaskAllocator.cs:155-160 | delivering one new command adds exactly it and counts it |
| LegacyAllocator.PushKeepsInv | src/BrandUp.Worker.Allocator/Infrastructure/TaskAllocator.cs:55-74 | pushing keeps the invariant |
| LegacyAllocator.ConnectExecutor | src/BrandUp.Worker.Allocator/Infrastructure/TaskAllocator.cs:98-123 | a new executor accepting exactly the named types is connected exactly when all names resolve, the list is non-empty and the id is free; every other outcome changes nothing |
| LegacyAllocator.ConnectErrors | src/BrandUp.Worker.Allocator/Infrastructure/TaskAllocator.cs:107-120 | which error result a failed connection gives: no types, registration failed, or an unknown type name |
| LegacyAllocator.ConnectKeepsInv | src/BrandUp.Worker.Allocator/Infrastructure/TaskAllocator.cs:98-123 | connecting keeps the invariant |
| LegacyAllocator.Taken | src/BrandUp.Worker.Allocator/Infrastructure/TaskAllocator.cs:165-183 | the commands taken for a known executor are at most the cap and leave the queue |
| LegacyAllocator.WaitCommands | src/BrandUp.Worker.Allocator/Infrastructure/TaskAllocator.cs:136-163 | a non-positive timeout throws; an unknown executor or a cancelled call gives its error result and changes nothing; a success hands out between one command and the cap |
| LegacyAllocator.DefaultTimeoutNeverThrows | src/BrandUp.Worker.Allocator/Infrastructure/TaskAllocator.cs:124-131 | the overloads without a timeout never throw for the timeout |
| LegacyAllocator.WaitParks | src/BrandUp.Worker.Allocator/Infrastructure/TaskAllocator.cs:147-150 | a wait that finds nothing parks a fresh waiting, or throws InvalidOperationException when one is parked already |
| LegacyAllocator.WaitTakes | src/BrandUp.Worker.Allocator/Infrastructure/TaskAllocator.cs:147 | a wait that finds commands takes between one and the cap, each queued before under a supported type |
| LegacyAllocator.WaitDelivers | src/BrandUp.Worker.Allocator/Infrastructure/TaskAllocator.cs:155-162 | the commands found are held, counted and returned when none was assigned already |
| LegacyAllocator.WaitExceedsCap | src/BrandUp.Worker.Allocator/Infrastructure/TaskAllocator.cs:174-178 | an executor already running the cap still receives queued commands and ends above it |
| LegacyAllocator.WaitKeepsInv | src/BrandUp.Worker.Allocator/Infrastructure/TaskAllocator.cs:136-163 | waiting keeps the invariant |
| LegacyAllocator.Expire | src/BrandUp.Worker.Allocator/Infrastructure/TaskAllocator.cs:197-200 | a cancelled waiting leaves the registry and the call returns the empty result |
| LegacyAllocator.ExpireCollectsNothing | src/BrandUp.Worker.Allocator/Infrastructure/TaskAllocator.cs:151-152 | a registered waiting that expires collected nothing, so the result is SuccessEmpty, and the invariant holds |
| LegacyAllocator.Release | src/BrandUp.Worker.Allocator/Infrastructure/TaskAllocator.cs:204-215 | an unknown executor or command gives nothing and changes nothing; otherwise the command leaves the executor and the counter drops by one |
| LegacyAllocator.DoneCommandExecuting | src/BrandUp.Worker.Allocator/Infrastructure/TaskAllocator.cs:204-215 | true exactly when the executor held the command, which is then released |
| LegacyAllocator.TryPullExecutingCommand | src/BrandUp.Worker.Allocator/Infrastructure/TaskAllocator.cs:230-248 | as done, and the released command's payload is returned |
| LegacyAllocator.ReturnCommandToQueue | src/BrandUp.Worker.Allocator/Infrastructure/TaskAllocator.cs:216-229 | false and no change for an unknown command; otherwise it is released and appended to its type's queue |
| LegacyAllocator.ReportsKeepInv | src/BrandUp.Worker.Allocator/Infrastructure/TaskAllocator.cs:204-248 | the three report operations keep the invariant |
| LegacyAllocator.ReturnRequeues | src/BrandUp.Worker.Allocator/Infrastructure/TaskAllocator.cs:216-229 | returning a held command of a registered type succeeds |
| LegacyAllocator.DeliverThenDone | src/BrandUp.Worker.Allocator/Infrastructure/TaskAllocator.cs:155-215 | reporting done a just-delivered command restores the executor and the counter |
| MemoryRepository.StartTask | test/BrandUp.Worker.Allocator.Tests/Tasks/MemoryTaskRepository.cs:110-116 | a record with an execution throws; otherwise it gets a started execution for the executor and date, nothing else changes |
| MemoryRepository.DeferTask | test/BrandUp.Worker.Allocator.Tests/Tasks/MemoryTaskRepository.cs:117-123 | a record without an execution throws; otherwise only the execution is dropped |
| MemoryRepository.FinishTask | test/BrandUp.Worker.Allocator.Tests/Tasks/MemoryTaskRepository.cs:124-135 | the end date is always stored; with no execution a NullReferenceException follows; otherwise time and status are set and the executor and start date kept |
| MemoryRepository.CancelTask | test/BrandUp.Worker.Allocator.Tests/Tasks/MemoryTaskRepository.cs:136-139 | only the end date changes |
| MemoryRepository.Push | test/BrandUp.Worker.Allocator.Tests/Tasks/MemoryTaskRepository.cs:40-45 | a stored id throws and changes nothing; otherwise one new record without execution or end date is added |
| MemoryRepository.Apply | test/BrandUp.Worker.Allocator.Tests/Tasks/MemoryTaskRepository.cs:46-90 | an unknown id throws InvalidOperationException and changes nothing; only the named record can change |
| MemoryRepository.StateOf | test/BrandUp.Worker.Allocator.Tests/Tasks/MemoryTaskRepository.cs:22-35 | the restore record carries the executor and start date exactly when an execution exists |
| MemoryRepository.GetActualTasks | test/BrandUp.Worker.Allocator.Tests/Tasks/MemoryTaskRepository.cs:17-39 | exactly the records never started, or started and not finished, are listed |
| MemoryRepository.ListedIff | test/BrandUp.Worker.Allocator.Tests/Tasks/MemoryTaskRepository.cs:17-39 | the per-id view agrees with the listed set |
| MemoryRepository.Lifecycle | test/BrandUp.Worker.Allocator.Tests/ITaskRepositoryTests.cs:65-153 | pushed, started, deferred, finished and cancelled records are listed as the restore expects; a double start and an early defer throw |
| MemoryRepository.BeforeStart | test/BrandUp.Worker.Allocator.Tests/Tasks/MemoryTaskRepository.cs:46-90 | a record not yet started is listed without an executor; cancelling keeps the listing and deferring throws |
| MemoryRepository.StartedRecord | test/BrandUp.Worker.Allocator.Tests/Tasks/MemoryTaskRepository.cs:46-52 | starting such a record lists it with the executor and start date |
| MemoryRepository.AfterStart | test/BrandUp.Worker.Allocator.Tests/Tasks/MemoryTaskRepository.cs:46-90 | a started record: a second start throws, deferring lists it without an executor again, success or error ends its listing |
| MemoryRepository.FinishBeforeStart | test/BrandUp.Worker.Allocator.Tests/Tasks/MemoryTaskRepository.cs:64-72 | finishing a never-started record throws after storing its end date, and it stays listed |
| HandlerRegistry.MapTaskHandler | src/BrandUp.Worker.Executor/Builder/IWorkerExecutorBuilder.cs:23-38 | a type without metadata or already mapped throws ArgumentException; otherwise it is appended and the list stays repeat-free |
| HandlerRegistry.MapAllSucceedsIff | src/BrandUp.Worker.Executor/Builder/IWorkerExecutorBuilder.cs:23-38 | a chain of mappings succeeds exactly when every type has metadata and none repeats; the list is then the types in call order |
| HandlerRegistry.MapTwiceThrows | src/BrandUp.Worker.Executor/Builder/IWorkerExecutorBuilder.cs:31-32 | mapping a type a second time throws, whatever lies between |
| WorkerExecutor.AddFactories | src/BrandUp.Worker.Executor/TaskExecutor.cs:56-63 | the factory loop keeps the factories added before a failure; a type without metadata throws InvalidOperationException, a repeated one ArgumentException |
| WorkerExecutor.AddFactoriesIff | src/BrandUp.Worker.Executor/TaskExecutor.cs:56-63 | the loop completes exactly when all handler types are registered, pairwise different and without a factory yet |
| WorkerExecutor.AddFactoriesTypes | src/BrandUp.Worker.Executor/TaskExecutor.cs:56-63 | a completed loop appends one factory per handler type, in the order of the handler map |
| WorkerExecutor.AddFactoriesNames | src/BrandUp.Worker.Executor/TaskExecutor.cs:56-63 | each new factory carries the task name registered for its type |
| WorkerExecutor.Start | src/BrandUp.Worker.Executor/TaskExecutor.cs:50-65 | a started executor throws InvalidOperationException and changes nothing; otherwise it is marked started (even if the loop throws) and jobs and counters are untouched |
| WorkerExecutor.Stop | src/BrandUp.Worker.Executor/TaskExecutor.cs:69 | the executor is no longer started and keeps its factories and jobs |
| WorkerExecutor.StartFresh | src/BrandUp.Worker.Executor/TaskExecutor.cs:50-65 | a new executor starts exactly when its handler types are registered and distinct, and subscribes with their task names in order |
| WorkerExecutor.StartAfterMapping | src/BrandUp.Worker.Executor/Builder/IWorkerExecutorBuilder.cs:23-38 | whatever the builder mapped, the executor starts on it |
| WorkerExecutor.RestartThrows | src/BrandUp.Worker.Executor/TaskExecutor.cs:62 | a second run after a successful one throws ArgumentException, because the factories are never cleared |
| WorkerExecutor.StartJob | src/BrandUp.Worker.Executor/TaskExecutor.cs:86-109 | a type without a factory or an id already started throws InvalidOperationException and changes nothing; otherwise the job joins the started set |
| WorkerExecutor.StartJobs | src/BrandUp.Worker.Executor/TaskExecutor.cs:79-80 | starting a batch, complete or stopped by a throw, keeps the factories, the started flag and the three counters |
| WorkerExecutor.StartJobsIff | src/BrandUp.Worker.Executor/TaskExecutor.cs:79-80 | a batch starts completely exactly when every command has a factory and a new, distinct id |
| WorkerExecutor.StartJobsAdds | src/BrandUp.Worker.Executor/TaskExecutor.cs:79-80 | a startable batch adds exactly its ids to the started set |
| WorkerExecutor.StartJobsCount | src/BrandUp.Worker.Executor/TaskExecutor.cs:35 | a startable batch raises the executing count by its length |
| WorkerExecutor.OnSuccess | src/BrandUp.Worker.Executor/TaskExecutor.cs:118-128 | an unknown job throws and changes nothing; a known one is removed; executed rises only when the allocator report does not throw |
| WorkerExecutor.OnError | src/BrandUp.Worker.Executor/TaskExecutor.cs:135-146 | as OnSuccess, and faulted rises together with executed |
| WorkerExecutor.OnCancelledAsWritten | src/BrandUp.Worker.Executor/TaskExecutor.cs:129-134 | as written, only the cancelled counter rises and the job stays started |
| WorkerExecutor.OnCancelled | src/BrandUp.Worker.Executor/TaskExecutor.cs:129-134 | corrected: a started job leaves the set and is counted cancelled; an unknown one throws |
| WorkerExecutor.CallbacksAccount | src/BrandUp.Worker.Executor/TaskExecutor.cs:86-146 | running plus executed plus cancelled grows by one per started job and is kept by each completing callback; faulted never exceeds executed |
| WorkerExecutor.CancelAsWrittenCountsTwice | src/BrandUp.Worker.Executor/TaskExecutor.cs:129-134 | as written, a cancelled job is counted both as running and as cancelled |
| WorkerExecutor.HostStopped | test/BrandUp.Worker.Executor.Tests/TaskExecutorTests.cs:102-119 | after a host stop, as written one job is still executing; corrected, none is and one is cancelled |
| WorkerExecutor.SuccessAndError | test/BrandUp.Worker.Executor.Tests/TaskExecutorTests.cs:57-85 | one successful job leaves one executed and none faulted; one failing job leaves one executed and one faulted |
| TaskJob.Create | src/BrandUp.Worker.Executor/TaskJob.cs:22-37 | a job exists exactly when the model, handler and context are present and the timeout is positive; the errors are ArgumentNullException and ArgumentOutOfRangeException in source order |
| TaskJob.Stop | src/BrandUp.Worker.Executor/TaskJob.cs:59-74 | stopping a stopped watch keeps its reading |
| TaskJob.Classify | src/BrandUp.Worker.Executor/TaskJob.cs:63-77 | an exception is reported as a timeout, a deferral or an error |
| TaskJob.Execute | src/BrandUp.Worker.Executor/TaskJob.cs:49-83 | with no throwing callback, a run is OnStarted then the callback of the reference status; every run starts with OnStarted and has two to four callbacks, all reading the handler's end time; only OnUnhandledError's exception escapes |
| TaskJob.SuccessFaultReportsError | src/BrandUp.Worker.Executor/TaskJob.cs:61-77 | a fault inside OnSuccessJob makes the run report success and then the error, with one elapsed time |
| TaskJob.LateCancelIsDeferral | src/BrandUp.Worker.Executor/TaskJob.cs:63-70 | a cancellation raised by OnSuccessJob after the timeout is still a deferral, because the watch stopped earlier |
| Routing.RouteAsWritten | src/BrandUp.Worker.Allocator.Host/WorkerMiddleware.cs:18-92 | unknown paths pass on; known paths answer 405 to any verb but POST; no path ever reaches the error handler |
| Routing.Route | src/BrandUp.Worker.Allocator.Host/WorkerMiddleware.cs:18-92 | corrected routing, with the same pass-on and 405 behaviour |
| Routing.RouteServesPath | src/BrandUp.Worker.Allocator.Host/WorkerMiddleware.cs:21-88 | a POST reaches handler h exactly when the normalised path is h's path |
| Routing.ErrorRouteRunsSuccess | src/BrandUp.Worker.Allocator.Host/WorkerMiddleware.cs:76-81 | as written, POST /executor/error runs the success handler |
| Routing.RoutesAgreeElsewhere | src/BrandUp.Worker.Allocator.Host/WorkerMiddleware.cs:24-75 | the two routings agree on every path other than the error path |
| Routing.Normalize | src/BrandUp.Worker.Allocator.Host/WorkerMiddleware.cs:21 | the normalised path is a middle part of the lower-cased path, and everything cut off on either side is a slash; it has no upper-case letter, neither starts nor ends with a slash, and is no longer than the path |
| Routing.NormalizeIdempotent | src/BrandUp.Worker.Allocator.Host/WorkerMiddleware.cs:21 | normalising a normalised path changes nothing |
| Routing.RouteNormalized | src/BrandUp.Worker.Allocator.Host/WorkerMiddleware.cs:21 | routing a path and routing its normal form agree |
| Routing.Dispatch | src/BrandUp.Worker.Allocator.Host/WorkerMiddleware.cs:94-151 | a missing push model or type-name list answers 400 without a call; any other handled request calls its handler, answered 200 when the call returns and left with no status when it throws; the request passes on exactly when no route matched |
| Routing.InvokeAsWritten | src/BrandUp.Worker.Allocator.Host/WorkerMiddleware.cs:18-92 | as written, the request passes on exactly when its path is unknown, and the error handler is never called |
| Routing.InvokeAsWrittenCalls | src/BrandUp.Worker.Allocator.Host/WorkerMiddleware.cs:18-151 | as written, a handler is called exactly for a well-formed POST to its own path, the success handler also for the error path, and the error handler never |
| Routing.InvokeCorrected | src/BrandUp.Worker.Allocator.Host/WorkerMiddleware.cs:18-92 | corrected middleware: the request passes on exactly when its path is unknown, and a called handler is always the one of the request's path |
| Routing.InvokeCalls | src/BrandUp.Worker.Allocator.Host/WorkerMiddleware.cs:18-151 | with the corrected routing, a handler is called exactly for a well-formed POST to its path |
| Routing.ClientInvoke | src/BrandUp.Worker.Allocator.WebHost/Extensions/IApplicationBuilderExtensions.cs:29-52 | the web-host middleware always answers and calls nothing; 405 exactly for "pushtask" with a verb other than POST, otherwise 200 |
| Routing.SameNormalization | src/BrandUp.Worker.Allocator.WebHost/Extensions/IApplicationBuilderExtensions.cs:33 | trimming then lower-casing equals lower-casing then trimming |
| Routing.ClientExamples | src/BrandUp.Worker.Allocator.WebHost/Extensions/IApplicationBuilderExtensions.cs:39-45 | "/PushTask/" with GET answers 405, with POST 200 |

## Left out

- Concurrency: the source uses `ConcurrentDictionary`, `Interlocked` and async continuations. Each operation is modelled as one atomic step, and interleavings are not modelled.
- Timers and cancellation tokens: a waiter's timeout is the separate `Allocator.Expire` / `LegacyAllocator.Expire` step, and a cancelled caller is a boolean input.
- Repository I/O inside the allocators: calls such as `TaskStartedAsync`, `TaskSuccessAsync` and `TaskDeferedAsync` do not change the allocator's state. The cancellation in `TryTaskWaitingTimeout` is the `fails` input.
- Exceptions from the repository that escape push or wait are not modelled.
- Allocator.PushHandoffAssigns: assumes a repository that accepts a second start of the same task. A handoff records the start twice: once in `TryCommandExecute` (TaskAllocator.cs:132) and again in the resumed `WaitTasksAsync` (line 294). The test repository rejects the second start (MemoryTaskRepository.cs:110-116; `MemoryRepository.AfterStart`). With it, the resumed wait throws before `AddTask` and the increment, and the task is held by no executor.
- AllocatorState.Inv: does not state that a task sits in one place only, either queued once or held by one executor. The drain-level part is proved as `Drain.FindTasksDeliversOnce`: when no task is queued twice, the corrected drain delivers each task at most once and never one it leaves queued.
- The current allocator constructor's checks for null options and for an empty `Name` (TaskAllocator.cs:43-46), and for null metadata manager and repository (57-58), are not modelled. `AllocatorState.Init` takes a valid registry. The waiting timeout option is not part of the state.
- `LegacyAllocator.PushCommand`: the older `TaskContainer` has no creation time, so it is set to 0.
- `AddCommandWaiting`'s ArgumentException on a cancelled token (Infrastructure/TaskAllocator.cs:187-188) cannot be reached after the check at 144. It is not modelled as a separate branch.
- Reflection is reduced to a `ClassInfo` record:
  - class names;
  - `IsAbstract`;
  - the attribute.
  `TaskMetadata.Create` does not model the null-type check at TaskMetadata.cs:17.
- Dependency injection: `GetRequiredService` failures in `StartJob` and in the `TaskJob` constructor, and service scopes, are not modelled.
- `TaskJob.Run`: the stopwatch start, the linked token source and `Task.Run` are represented only by the `handlerEnd` and `outcome` inputs. A run whose linked token is already cancelled before `Task.Run(ExecuteAsync, token)` starts (TaskJob.cs:43-46) never enters `ExecuteAsync` and makes no callback at all, not even `OnStartedJob`; that path is not modelled, so `TaskJob.Execute` describes only runs that start.
- `WorkerExecutor`: the waiting cycle (TaskExecutor.cs:72-84) is modelled for one batch (`StartJobs`), not as an unbounded loop. The `SubscribeAsync` call is represented by the task names `Start` returns.
- `WorkerExecutor`: disposal of jobs and scopes is not modelled.
- HTTP bodies: serialization, content types and response bodies are not modelled. `Routing.Dispatch` sees only whether the required request field is present.
- Routing.Dispatch: which exception an allocator call throws is not modelled, only that it throws (the `throws` input). Examples are the ArgumentException for an unknown executor (TaskAllocator.cs:276-277) and the InvalidOperationException for a second waiter. The middleware catches nothing, so such a request ends as `Faulted`, with no status set by the middleware.
- A null request path, and the unreachable `ProcessErrorTaskAsync` body (WorkerMiddleware.cs:152-161), are not modelled. The latter is only shown to be unreachable.
- `MemoryRepository.StateOf`: the entity's end date is not copied, because the `TaskState` of ITaskRepository.cs:17-24 has no such field. Enumeration order is not modelled: `GetActualTasks` is a set.
- Text: .NET `ToLower` is modelled for ASCII letters only. Culture-specific casing is not modelled. `Text.EndsWith` is an ordinal, character-by-character comparison, where `string.EndsWith(string)` at TaskMetadata.cs:32 compares with the current culture; the two can differ only for culture-sensitive characters, which the model does not represent.
- `Dispose` methods and logging are not modelled.
- The Mongo repository, the remote allocator clients, the builders' service registration and the example programs are not part of this model.

## Findings

| source | as written | input that shows it | evidently intended | confidence | as-written member | corrected member |
|---|---|---|---|---|---|---|
| src/BrandUp.Worker.Allocator/TaskAllocator.cs:107 | `PushTask` increments `countExecutingTasks` after a direct handoff, and the resumed `WaitTasksAsync` increments it again for the same task (line 297) | with a repository that accepts a repeated start: an allocator with one parked, eligible executor receives one push; executing becomes 2 while one task is assigned | each assigned task is counted once | not executed | Allocator.PushAsWritten (Allocator.PushAsWrittenOvercounts) | Allocator.Push (Allocator.PushKeepsInv) |
| src/BrandUp.Worker.Allocator/TaskAllocator.cs:183-187 | a task whose start timeout passed but whose cancellation throws is put back in the queue, and `TryTaskWaitingTimeout` returns false, so the drain also delivers it and then dequeues it again | one expired task, cancellation failing, room for two: the drain returns it twice, it stays queued, and adding the second copy to the executor throws | the task stays queued and is not delivered; the corrected drain also stops draining that type, leaving the tasks behind it queued for the next call | not executed | Drain.FindTasksAsWritten (Drain.AsWrittenDeliversTwice, Allocator.WaitAsWrittenThrowsOnDuplicate) | Drain.FindTasks (Drain.DrainTypesConserves, Drain.DrainTypesFresh) |
| src/BrandUp.Worker.Allocator.Host/WorkerMiddleware.cs:76-81 | the `executor/error` case calls `ProcessSuccessTaskAsync` | POST /executor/error | it calls `ProcessErrorTaskAsync` | not executed | Routing.RouteAsWritten, Routing.InvokeAsWritten (Routing.ErrorRouteRunsSuccess, Routing.InvokeAsWrittenCalls) | Routing.Route, Routing.InvokeCorrected (Routing.RouteServesPath, Routing.InvokeCalls) |
| src/BrandUp.Worker.Executor/TaskExecutor.cs:129-134 | `OnCancelledJob` increments the cancelled counter but leaves the job in `_startedJobs` | a started job whose token the host cancels: ExecutingCommands stays 1 where the host-stop test expects 0 | the job leaves the started set, like the other two callbacks | not executed; the calling `JobTask` is not in the tree, so whether the callback is reached is not known | WorkerExecutor.OnCancelledAsWritten (WorkerExecutor.HostStopped, WorkerExecutor.CancelAsWrittenCountsTwice) | WorkerExecutor.OnCancelled (WorkerExecutor.CallbacksAccount) |

/** State of the current-revision task allocator and the invariant every
    operation keeps. */
module AllocatorState {
  import opened Common
  import MetadataRegistry
  import opened TaskMetadata
  import opened TaskQueue
  import opened ExecutorEntry
  import opened Waiting

  /** `maxTasksPerExecutor` when the options give no positive value. */
  const DefaultMaxTasksPerExecutor: int := 10

  /** `waiters` holds the result slot of each executor's parked wait call;
      `executing` is `countExecutingTasks`. */
  datatype State = State(
    registry: MetadataRegistry.Registry,
    queue: Queue,
    executors: map<Guid, Executor>,
    waiters: map<Guid, Slot>,
    executing: int,
    maxTasks: int)

  /** Response of one operation (or the exception it threw) together with
      the state it leaves behind, partial updates included. */
  datatype Step<T> = Step(response: Result<T, Error>, state: State)

  /** What a wait call hands to the executor for one task. */
  datatype TaskExecution = TaskExecution(taskId: Guid, model: TaskModel, timeout: int)

  /** The allocator invariant:
      - the registry is consistent and the queue has one queue per
        registered type;
      - each executor entry is stored under its own id and only accepts
        registered types;
      - each registered waiter belongs to a known executor and is still
        pending (it is removed from the registry before it is completed);
      - the executing counter is the number of assigned tasks. */
  ghost predicate Inv(s: State) {
    && MetadataRegistry.Valid(s.registry)
    && TaskQueue.Valid(s.queue)
    && s.queue.types == MetadataRegistry.TaskTypes(s.registry)
    && s.maxTasks > 0
    && (forall id :: id in s.executors ==> s.executors[id].id == id)
    && (forall id, t :: id in s.executors && t in s.executors[id].supported ==>
          HasTaskType(s.queue, t))
    && (forall id :: id in s.waiters ==> id in s.executors && s.waiters[id] == Pending)
    && s.executing == TotalExecuting(s.executors)
  }

  /** A type has a queue exactly when it is registered. */
  lemma QueueTypesRegistered(s: State, t: TypeId)
    requires MetadataRegistry.Valid(s.registry)
    requires s.queue.types == MetadataRegistry.TaskTypes(s.registry)
    requires TaskQueue.Valid(s.queue)
    ensures HasTaskType(s.queue, t) <==> MetadataRegistry.FindByType(s.registry, t).Some?
  {
    QueuedIffRegistered(s.registry, s.queue, t);
  }

  /** The same for any queue built over the registry's types. */
  lemma QueuedIffRegistered(reg: MetadataRegistry.Registry, q: Queue, t: TypeId)
    requires MetadataRegistry.Valid(reg)
    requires q.types == MetadataRegistry.TaskTypes(reg)
    requires TaskQueue.Valid(q)
    ensures HasTaskType(q, t) <==> MetadataRegistry.FindByType(reg, t).Some?
  {
    var ts := MetadataRegistry.TaskTypes(reg);
    if MetadataRegistry.FindByType(reg, t).Some? {
      var m := MetadataRegistry.FindByType(reg, t).value;
      var i :| 0 <= i < |reg.tasks| && reg.tasks[i] == m;
      assert ts[i] == t;
    }
  }

  /** The constructor over a metadata registry and the configured maximum. */
  function Init(registry: MetadataRegistry.Registry, maxOption: int): (s: State)
    requires MetadataRegistry.Valid(registry)
    ensures Inv(s)
    ensures s.executing == 0 && Count(s.queue) == 0
    ensures s.executors == map[] && s.waiters == map[]
    ensures s.maxTasks == if maxOption > 0 then maxOption else DefaultMaxTasksPerExecutor
    ensures forall t :: HasTaskType(s.queue, t) <==> MetadataRegistry.FindByType(registry, t).Some?
  {
    MetadataRegistry.TaskTypesDistinct(registry);
    var q := TaskQueue.New(MetadataRegistry.TaskTypes(registry)).value;
    var s := State(registry, q, map[], map[], 0,
                   if maxOption > 0 then maxOption else DefaultMaxTasksPerExecutor);
    assert forall t :: HasTaskType(s.queue, t) <==> MetadataRegistry.FindByType(registry, t).Some? by {
      forall t ensures HasTaskType(s.queue, t) <==> MetadataRegistry.FindByType(registry, t).Some? {
        QueueTypesRegistered(s, t);
      }
    }
    s
  }

  /** Start timeout of a task's type. Every queued task has a registered
      type, so the lookup always succeeds in a state satisfying `Inv`. */
  function StartTimeoutOf(reg: MetadataRegistry.Registry, t: TypeId): int {
    match MetadataRegistry.FindByType(reg, t)
    case Some(m) => m.startTimeout
    case None => 0
  }

  /** Execution timeout of a task's type (registered, as above). */
  function ExecutionTimeoutOf(reg: MetadataRegistry.Registry, t: TypeId): int {
    match MetadataRegistry.FindByType(reg, t)
    case Some(m) => m.executionTimeout
    case None => 0
  }

  /** The model handed out for a task. */
  function ExecutionOf(reg: MetadataRegistry.Registry, c: Container): TaskExecution {
    TaskExecution(c.taskId, c.task, ExecutionTimeoutOf(reg, c.task.typeId))
  }

  /** Any valid queue over the same types can replace the queue. */
  lemma NewQueueKeepsInv(s: State, q: Queue)
    requires Inv(s)
    requires TaskQueue.Valid(q) && q.types == s.queue.types
    ensures Inv(s.(queue := q))
  {
    forall id, t | id in s.executors && t in s.executors[id].supported
      ensures HasTaskType(q, t)
    {
      assert HasTaskType(s.queue, t);
    }
  }

  /** Connecting a new executor with no tasks and only queued types keeps
      the invariant. */
  lemma NewExecutorKeepsInv(s: State, e: Executor)
    requires Inv(s)
    requires e.id !in s.executors && CountExecuting(e) == 0
    requires forall t :: t in e.supported ==> HasTaskType(s.queue, t)
    ensures Inv(s.(executors := s.executors[e.id := e]))
  {
    TotalUpdate(s.executors, e.id, e);
  }

  /** Replacing a known executor's entry by one with the same id and types
      keeps the invariant once the counter moves by the difference. */
  lemma ReplaceExecutorKeepsInv(s: State, e: Executor)
    requires Inv(s)
    requires e.id in s.executors && e.supported == s.executors[e.id].supported
    ensures Inv(s.(executors := s.executors[e.id := e],
                   executing := s.executing - CountExecuting(s.executors[e.id]) + CountExecuting(e)))
  {
    TotalUpdate(s.executors, e.id, e);
  }
}

/** The in-memory task repository (`MemoryTaskRepository` with
    `MemoryTaskEntity`): one record per task id, its execution record, and
    the set of records the allocator restores from on start. Dates and
    durations are plain integers. */
module MemoryRepository {
  import opened Common

  /** `TaskExecutionStatus`. */
  datatype Status = Started | Success | Error

  /** `MemoryTaskExecutionEntity`. */
  datatype Execution = Execution(
    executorId: Guid,
    startDate: int,
    executionTime: Option<int>,
    status: Status)

  /** `MemoryTaskEntity`. */
  datatype Entity = Entity(
    taskId: Guid,
    createdDate: int,
    typeName: string,
    model: Option<TaskModel>,
    endDate: Option<int>,
    execution: Option<Execution>)

  datatype Repository = Repository(tasks: map<Guid, Entity>)

  const Empty: Repository := Repository(map[])

  /** Every record sits under its own id. */
  predicate Valid(r: Repository) {
    forall id :: id in r.tasks ==> r.tasks[id].taskId == id
  }

  /** The answer of a repository call (or the exception it throws) and the
      repository after it. */
  datatype Outcome = Outcome(response: Result<(), Error>, repo: Repository)

  /** A record after one of the entity's methods, and the exception the
      method threw part-way, if any. */
  datatype Change = Change(error: Option<Error>, entity: Entity)

  /** Stores the changed record under `id`. */
  function Store(r: Repository, id: Guid, c: Change): (o: Outcome)
    requires id in r.tasks
    ensures o.repo.tasks == r.tasks[id := c.entity]
    ensures o.response.Err? <==> c.error.Some?
  {
    Outcome(if c.error.Some? then Err(c.error.value) else Ok(()), Repository(r.tasks[id := c.entity]))
  }

  /** `StartTask`: a record that already has an execution throws; otherwise
      it gets a `Started` execution for the executor and date. */
  function StartTask(en: Entity, executorId: Guid, date: int): (c: Change)
    ensures c.error.Some? <==> en.execution.Some?
    ensures c.error.Some? ==> c == Change(Some(InvalidOperation), en)
    ensures c.error.None? ==> c.entity.execution == Some(Execution(executorId, date, None, Started))
    ensures c.entity.(execution := en.execution) == en
  {
    if en.execution.Some? then Change(Some(InvalidOperation), en)
    else Change(None, en.(execution := Some(Execution(executorId, date, None, Started))))
  }

  /** `DeferTask`: a record without an execution throws; otherwise the
      execution is dropped. */
  function DeferTask(en: Entity): (c: Change)
    ensures c.error.Some? <==> en.execution.None?
    ensures c.entity.execution.None? && c.entity.(execution := en.execution) == en
  {
    if en.execution.None? then Change(Some(InvalidOperation), en)
    else Change(None, en.(execution := None))
  }

  /** `SuccessTask` and `ErrorTask`: the end date is set first; a record
      without an execution then throws `NullReferenceException` with the
      end date already stored; otherwise the execution gets the running
      time and the final status, keeping its executor and start date. */
  function FinishTask(en: Entity, time: int, date: int, status: Status): (c: Change)
    ensures c.entity.endDate == Some(date)
    ensures c.error.Some? <==> en.execution.None?
    ensures c.error.Some? ==> c.error.value == NullReference && c.entity.execution.None?
    ensures c.error.None? ==>
      && c.entity.execution.Some?
      && c.entity.execution.value.executorId == en.execution.value.executorId
      && c.entity.execution.value.startDate == en.execution.value.startDate
      && c.entity.execution.value.executionTime == Some(time)
      && c.entity.execution.value.status == status
    ensures c.entity.taskId == en.taskId && c.entity.createdDate == en.createdDate
    ensures c.entity.model == en.model && c.entity.typeName == en.typeName
  {
    var ended := en.(endDate := Some(date));
    match en.execution
    case None => Change(Some(NullReference), ended)
    case Some(x) => Change(None, ended.(execution := Some(x.(executionTime := Some(time), status := status))))
  }

  /** `CancelTask`: only the end date is set. */
  function CancelTask(en: Entity, date: int): (c: Change)
    ensures c.error.None?
    ensures c.entity.endDate == Some(date) && c.entity.(endDate := en.endDate) == en
  {
    Change(None, en.(endDate := Some(date)))
  }

  /** `PushTaskAsync`: an id already stored throws; otherwise a new record
      without an execution or end date is added. */
  function Push(r: Repository, id: Guid, typeName: string, model: Option<TaskModel>, createdDate: int)
    : (o: Outcome)
    ensures id in r.tasks ==> o == Outcome(Err(InvalidOperation), r)
    ensures id !in r.tasks ==> o.response.Ok? && o.repo.tasks.Keys == r.tasks.Keys + {id}
    ensures id !in r.tasks ==>
      o.repo.tasks[id] == Entity(id, createdDate, typeName, model, None, None)
    ensures forall k :: k in r.tasks ==> k in o.repo.tasks && o.repo.tasks[k] == r.tasks[k]
    ensures Valid(r) ==> Valid(o.repo)
  {
    if id in r.tasks then Outcome(Err(InvalidOperation), r)
    else Outcome(Ok(()), Repository(r.tasks[id := Entity(id, createdDate, typeName, model, None, None)]))
  }

  /** The calls that look a record up: an unknown id throws
      `InvalidOperationException` and changes nothing. */
  datatype Call =
    | TaskStarted(executorId: Guid, startedDate: int)
    | TaskDefered
    | TaskSuccess(executingTime: int, doneDate: int)
    | TaskError(executingTime: int, doneDate: int)
    | TaskCancelled(doneDate: int, reason: string)

  /** What a call does to the record. */
  function ChangeOf(en: Entity, call: Call): (c: Change)
    ensures c.entity.taskId == en.taskId
  {
    match call
    case TaskStarted(ex, d) => StartTask(en, ex, d)
    case TaskDefered => DeferTask(en)
    case TaskSuccess(t, d) => FinishTask(en, t, d, Success)
    case TaskError(t, d) => FinishTask(en, t, d, Error)
    case TaskCancelled(d, _) => CancelTask(en, d)
  }

  /** One of the record calls on the repository. */
  function Apply(r: Repository, id: Guid, call: Call): (o: Outcome)
    ensures id !in r.tasks ==> o == Outcome(Err(InvalidOperation), r)
    ensures o.repo.tasks.Keys == r.tasks.Keys
    ensures forall k :: k in r.tasks && k != id ==> o.repo.tasks[k] == r.tasks[k]
    ensures Valid(r) ==> Valid(o.repo)
  {
    if id !in r.tasks then Outcome(Err(InvalidOperation), r)
    else Store(r, id, ChangeOf(r.tasks[id], call))
  }

  /** A record the allocator still has to deal with: never started, or
      started and not finished. */
  predicate Actual(en: Entity) {
    en.execution.None? || en.execution.value.status == Started
  }

  /** The restore record of an entity: executor and start date only when
      an execution exists. */
  function StateOf(en: Entity): (st: TaskState)
    ensures st.taskId == en.taskId && st.model == en.model && st.createdAt == en.createdDate
    ensures st.executorId.Some? <==> en.execution.Some?
    ensures en.execution.Some? ==>
      st.executorId == Some(en.execution.value.executorId) && st.startedAt == Some(en.execution.value.startDate)
    ensures en.execution.None? ==> st.startedAt.None?
  {
    TaskState(en.taskId, en.createdDate, en.model,
      if en.execution.Some? then Some(en.execution.value.executorId) else None,
      if en.execution.Some? then Some(en.execution.value.startDate) else None)
  }

  /** `GetActualTasksAsync`. The dictionary's enumeration order is not
      specified, so the records come as a set. */
  function GetActualTasks(r: Repository): (states: set<TaskState>)
    ensures Valid(r) ==> forall st :: st in states ==>
      st.taskId in r.tasks && Actual(r.tasks[st.taskId]) && st == StateOf(r.tasks[st.taskId])
    ensures forall id :: id in r.tasks && Actual(r.tasks[id]) ==> StateOf(r.tasks[id]) in states
  {
    set id | id in r.tasks && Actual(r.tasks[id]) :: StateOf(r.tasks[id])
  }

  /** The id's restore record, if the repository lists it as actual. */
  function Listed(r: Repository, id: Guid): Option<TaskState> {
    if id in r.tasks && Actual(r.tasks[id]) then Some(StateOf(r.tasks[id])) else None
  }

  /** `Listed` agrees with `GetActualTasks`. */
  lemma ListedIff(r: Repository, id: Guid, st: TaskState)
    requires Valid(r)
    ensures st in GetActualTasks(r) && st.taskId == id <==> Listed(r, id) == Some(st)
  {
  }

  /** The record lifecycle as the restore sees it. A pushed task is listed
      without an executor; a started one with its executor and start date;
      a deferred one without an executor again; a finished one (success or
      error) is no longer listed; a cancelled one keeps the listing it had,
      so a task cancelled before it started is restored again. */
  lemma Lifecycle(r: Repository, id: Guid, typeName: string, model: Option<TaskModel>, created: int,
                  executorId: Guid, started: int, time: int, done: int, reason: string)
    requires Valid(r) && id !in r.tasks
    ensures var p := Push(r, id, typeName, model, created).repo;
      && Listed(p, id) == Some(TaskState(id, created, model, None, None))
      && var s := Apply(p, id, TaskStarted(executorId, started));
      && s.response.Ok?
      && Listed(s.repo, id) == Some(TaskState(id, created, model, Some(executorId), Some(started)))
      && Apply(s.repo, id, TaskStarted(executorId, started)) == Outcome(Err(InvalidOperation), s.repo)
      && Listed(Apply(s.repo, id, TaskDefered).repo, id) == Some(TaskState(id, created, model, None, None))
      && Apply(s.repo, id, TaskSuccess(time, done)).response.Ok?
      && Listed(Apply(s.repo, id, TaskSuccess(time, done)).repo, id).None?
      && Listed(Apply(s.repo, id, TaskError(time, done)).repo, id).None?
      && Listed(Apply(p, id, TaskCancelled(done, reason)).repo, id) == Listed(p, id)
      && Apply(p, id, TaskDefered) == Outcome(Err(InvalidOperation), p)
  {
    var p := Push(r, id, typeName, model, created).repo;
    assert p.tasks[id] == Entity(id, created, typeName, model, None, None);
    BeforeStart(p, id, done, reason);
    var s := Apply(p, id, TaskStarted(executorId, started));
    StartedRecord(p, id, executorId, started);
    AfterStart(s.repo, id, executorId, started, time, done);
  }

  /** A record that has not started: it is listed without an executor,
      cancelling keeps that listing and deferring throws. */
  lemma BeforeStart(p: Repository, id: Guid, done: int, reason: string)
    requires id in p.tasks && p.tasks[id].taskId == id && p.tasks[id].execution.None?
    ensures var en := p.tasks[id];
      Listed(p, id) == Some(TaskState(id, en.createdDate, en.model, None, None))
    ensures Listed(Apply(p, id, TaskCancelled(done, reason)).repo, id) == Listed(p, id)
    ensures Apply(p, id, TaskDefered) == Outcome(Err(InvalidOperation), p)
  {
    assert p.tasks[id := p.tasks[id]] == p.tasks;
  }

  /** Starting a record that has no execution yet lists it with the
      executor and the start date. */
  lemma StartedRecord(p: Repository, id: Guid, executorId: Guid, started: int)
    requires id in p.tasks && p.tasks[id].taskId == id && p.tasks[id].execution.None?
    ensures var en := p.tasks[id];
      var s := Apply(p, id, TaskStarted(executorId, started));
      && s.response.Ok?
      && s.repo.tasks[id] == en.(execution := Some(Execution(executorId, started, None, Started)))
      && Listed(s.repo, id) == Some(TaskState(id, en.createdDate, en.model, Some(executorId), Some(started)))
  {
  }

  /** A started record: a second start throws, deferring lists it without
      an executor again, and success or error ends its listing. */
  lemma AfterStart(s: Repository, id: Guid, executorId: Guid, started: int, time: int, done: int)
    requires id in s.tasks && s.tasks[id].taskId == id
    requires s.tasks[id].execution == Some(Execution(executorId, started, None, Started))
    ensures Apply(s, id, TaskStarted(executorId, started)) == Outcome(Err(InvalidOperation), s)
    ensures var en := s.tasks[id];
      Listed(Apply(s, id, TaskDefered).repo, id) == Some(TaskState(id, en.createdDate, en.model, None, None))
    ensures Apply(s, id, TaskSuccess(time, done)).response.Ok?
    ensures Listed(Apply(s, id, TaskSuccess(time, done)).repo, id).None?
    ensures Listed(Apply(s, id, TaskError(time, done)).repo, id).None?
  {
    assert s.tasks[id := s.tasks[id]] == s.tasks;
  }

  /** Finishing a record that never started throws only after storing the
      end date: the record is changed although the call failed, and it is
      still listed. */
  lemma FinishBeforeStart(r: Repository, id: Guid, time: int, done: int)
    requires id in r.tasks && r.tasks[id].execution.None?
    ensures var o := Apply(r, id, TaskSuccess(time, done));
      && o.response == Err(NullReference)
      && o.repo.tasks[id].endDate == Some(done)
      && (o.repo.tasks[id] != r.tasks[id] <==> r.tasks[id].endDate != Some(done))
      && Listed(o.repo, id).Some?
  {
  }
}

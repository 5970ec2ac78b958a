/** The current-revision task allocator: push with direct handoff to a
    parked wait call, subscribe, wait (drain or park), the three outcome
    reports and restore, as transitions over `AllocatorState.State`. */
module Allocator {
  import opened Common
  import MetadataRegistry
  import opened TaskMetadata
  import opened TaskQueue
  import opened ExecutorEntry
  import opened Waiting
  import opened AllocatorState
  import opened Drain

  /** An executor the handoff may pick for a task of type `t`: known, below
      `maxTasks` and accepting the type. */
  predicate Eligible(s: State, id: Guid, t: TypeId) {
    id in s.executors && CountExecuting(s.executors[id]) < s.maxTasks && Supports(s.executors[id], t)
  }

  /** Outcome of `TryCommandExecute`: the waiter registry after the scan and
      the executor whose parked call received the task, if any. */
  datatype Handoff = Handoff(waiters: map<Guid, Slot>, target: Option<Guid>)

  /** `TryCommandExecute`: visits the registered waiters (in ascending id
      order) and skips those whose executor is full or does not accept the
      type. The first other one is taken out of the registry and sent the
      task; if its slot was already completed it stays out and the scan
      goes on. */
  function Scan(s: State, waiters: map<Guid, Slot>, c: Container, candidates: set<Guid>): (h: Handoff)
    requires candidates <= waiters.Keys
    ensures h.waiters.Keys <= waiters.Keys
    ensures forall id :: id in h.waiters ==> h.waiters[id] == waiters[id]
    ensures forall id :: id in waiters && id !in candidates ==> id in h.waiters
    ensures h.target.Some? ==>
      && h.target.value in candidates
      && Eligible(s, h.target.value, c.task.typeId)
      && waiters[h.target.value].result.None?
      && h.target.value !in h.waiters
    ensures h.target.None? ==>
      forall id :: id in candidates && Eligible(s, id, c.task.typeId) ==> waiters[id].result.Some?
    decreases |candidates|
  {
    if candidates == {} then Handoff(waiters, None)
    else
      var id := MinOf(candidates);
      var rest := candidates - {id};
      if !Eligible(s, id, c.task.typeId) then Scan(s, waiters, c, rest)
      else if SendTask(waiters[id], c).ok then Handoff(waiters - {id}, Some(id))
      else Scan(s, waiters - {id}, c, rest)
  }

  /** The eligible executors among the candidates. */
  function EligibleAmong(s: State, candidates: set<Guid>, t: TypeId): set<Guid> {
    set id | id in candidates && Eligible(s, id, t)
  }

  /** When every registered waiter is still pending (as `Inv` demands), the
      handoff picks the least eligible executor exactly when there is one,
      and removes only its waiter from the registry. */
  lemma {:induction false} ScanPicksLeastEligible(s: State, waiters: map<Guid, Slot>, c: Container,
                                                  candidates: set<Guid>)
    requires candidates <= waiters.Keys
    requires forall id :: id in waiters ==> waiters[id] == Pending
    ensures var h := Scan(s, waiters, c, candidates);
      var el := EligibleAmong(s, candidates, c.task.typeId);
      && (h.target.Some? <==> el != {})
      && (h.target.Some? ==> IsLeast(h.target.value, el) && h.waiters == waiters - {h.target.value})
      && (h.target.None? ==> h.waiters == waiters)
    decreases |candidates|
  {
    if candidates != {} {
      var t := c.task.typeId;
      var id := MinOf(candidates);
      var rest := candidates - {id};
      ScanPicksLeastEligible(s, waiters, c, rest);
      var el := EligibleAmong(s, candidates, t);
      var elRest := EligibleAmong(s, rest, t);
      if Eligible(s, id, t) {
        assert id in el;
      } else {
        assert el == elRest;
      }
    }
  }

  /** No two tasks share an id. */
  predicate DistinctIds(tasks: seq<Container>) {
    forall i, j :: 0 <= i < j < |tasks| ==> tasks[i].taskId != tasks[j].taskId
  }

  /** The tasks can all be added to an executor holding `held`: their
      ids are distinct and none is assigned yet. */
  predicate Assignable(held: map<Guid, Container>, tasks: seq<Container>) {
    DistinctIds(tasks) && forall c :: c in tasks ==> c.taskId !in held
  }

  /** `Assignable` one task at a time. */
  lemma AssignableStep(held: map<Guid, Container>, tasks: seq<Container>)
    requires |tasks| > 0
    ensures Assignable(held, tasks) <==>
      tasks[0].taskId !in held && Assignable(held[tasks[0].taskId := tasks[0]], tasks[1..])
  {
    var c := tasks[0];
    var rest := tasks[1..];
    if tasks[0].taskId !in held && Assignable(held[c.taskId := c], rest) {
      forall i, j | 0 <= i < j < |tasks| ensures tasks[i].taskId != tasks[j].taskId {
        if i == 0 {
          assert tasks[j] == rest[j - 1];
        } else {
          assert tasks[i] == rest[i - 1] && tasks[j] == rest[j - 1];
        }
      }
    }
    if Assignable(held, tasks) {
      forall d | d in rest ensures d.taskId !in held[c.taskId := c] {
        var j :| 0 <= j < |rest| && rest[j] == d;
        assert tasks[j + 1] == d;
      }
      forall i, j | 0 <= i < j < |rest| ensures rest[i].taskId != rest[j].taskId {
        assert rest[i] == tasks[i + 1] && rest[j] == tasks[j + 1];
      }
    }
  }

  /** Result of adding a list of tasks to an executor entry one by one:
      the entry after, how many were added, and whether all were. */
  datatype Added = Added(executor: Executor, count: nat, ok: bool)

  /** `AddTask` over the list: stops at the first id already in the set,
      keeping the tasks added before it. */
  function AddAll(e: Executor, tasks: seq<Container>): (r: Added)
    ensures r.executor.id == e.id && r.executor.supported == e.supported
    ensures CountExecuting(r.executor) == CountExecuting(e) + r.count
    ensures r.ok <==> Assignable(e.tasks, tasks)
    ensures r.ok ==> r.count == |tasks|
    decreases |tasks|
  {
    if tasks == [] then Added(e, 0, true)
    else
      var c := tasks[0];
      AssignableStep(e.tasks, tasks);
      match AddCommand(e, c)
      case Err(_) => Added(e, 0, false)
      case Ok(e1) =>
        var r := AddAll(e1, tasks[1..]);
        Added(r.executor, r.count + 1, r.ok)
  }

  /** The ids of a list of tasks. */
  function Ids(tasks: seq<Container>): (r: set<Guid>)
    ensures forall c :: c in tasks ==> c.taskId in r
  {
    if tasks == [] then {} else {tasks[0].taskId} + Ids(tasks[1..])
  }

  /** Adding a list whose head goes in is adding the rest to the entry
      that holds the head. */
  lemma AddAllStep(e: Executor, tasks: seq<Container>)
    requires tasks != [] && AddCommand(e, tasks[0]).Ok?
    ensures var r := AddAll(AddCommand(e, tasks[0]).value, tasks[1..]);
      AddAll(e, tasks) == Added(r.executor, r.count + 1, r.ok)
  {
  }

  /** Adding never changes an entry already in the set. */
  lemma {:induction false} AddAllKeeps(e: Executor, tasks: seq<Container>)
    ensures var r := AddAll(e, tasks);
      forall k :: k in e.tasks ==> k in r.executor.tasks && r.executor.tasks[k] == e.tasks[k]
    decreases |tasks|
  {
    if tasks != [] && AddCommand(e, tasks[0]).Ok? {
      AddAllKeeps(AddCommand(e, tasks[0]).value, tasks[1..]);
    }
  }

  /** When every task is added, the set gains exactly their ids. */
  lemma {:induction false} AddAllKeys(e: Executor, tasks: seq<Container>)
    ensures var r := AddAll(e, tasks);
      r.ok ==> r.executor.tasks.Keys == e.tasks.Keys + Ids(tasks)
    decreases |tasks|
  {
    if tasks != [] && AddCommand(e, tasks[0]).Ok? {
      AddAllKeys(AddCommand(e, tasks[0]).value, tasks[1..]);
      AddAllKeysStep(e, tasks);
    }
  }

  /** The step of `AddAllKeys`: the head's id joins the ids the rest adds. */
  lemma AddAllKeysStep(e: Executor, tasks: seq<Container>)
    requires tasks != [] && AddCommand(e, tasks[0]).Ok?
    requires var e1 := AddCommand(e, tasks[0]).value;
      var r1 := AddAll(e1, tasks[1..]);
      r1.ok ==> r1.executor.tasks.Keys == e1.tasks.Keys + Ids(tasks[1..])
    ensures var r := AddAll(e, tasks);
      r.ok ==> r.executor.tasks.Keys == e.tasks.Keys + Ids(tasks)
  {
    var e1 := AddCommand(e, tasks[0]).value;
    AddAllStep(e, tasks);
    assert e1.tasks.Keys == e.tasks.Keys + {tasks[0].taskId};
    assert Ids(tasks) == {tasks[0].taskId} + Ids(tasks[1..]);
  }

  /** When every task is added, each is stored under its own id. */
  lemma {:induction false} AddAllStores(e: Executor, tasks: seq<Container>)
    ensures var r := AddAll(e, tasks);
      r.ok ==> forall c :: c in tasks ==> c.taskId in r.executor.tasks && r.executor.tasks[c.taskId] == c
    decreases |tasks|
  {
    if tasks != [] && AddCommand(e, tasks[0]).Ok? {
      var c := tasks[0];
      var e1 := AddCommand(e, c).value;
      AddAllStores(e1, tasks[1..]);
      AddAllKeeps(e1, tasks[1..]);
      assert forall d :: d in tasks ==> d == c || d in tasks[1..] by {
        assert tasks == [c] + tasks[1..];
      }
    }
  }

  /** The execution models handed out for the tasks, in order. */
  function Executions(reg: MetadataRegistry.Registry, tasks: seq<Container>): (xs: seq<TaskExecution>)
    ensures |xs| == |tasks|
  {
    seq(|tasks|, i requires 0 <= i < |tasks| => ExecutionOf(reg, tasks[i]))
  }

  /** The wait call's completion loop: each task is added to the
      executor's set and counted as executing, and its execution model is
      handed out. A task id already in the set throws, keeping the tasks
      added before it. */
  function Complete(s: State, id: Guid, tasks: seq<Container>): (r: Step<seq<TaskExecution>>)
    requires id in s.executors
    ensures r.state.registry == s.registry && r.state.queue == s.queue
    ensures r.state.waiters == s.waiters && r.state.maxTasks == s.maxTasks
    ensures r.state.executors.Keys == s.executors.Keys
    ensures forall k :: k in s.executors && k != id ==> r.state.executors[k] == s.executors[k]
    ensures r.state.executors[id].id == s.executors[id].id
    ensures r.state.executors[id].supported == s.executors[id].supported
    ensures r.state.executing - CountExecuting(r.state.executors[id])
         == s.executing - CountExecuting(s.executors[id])
    ensures r.response.Ok? <==> Assignable(s.executors[id].tasks, tasks)
    ensures r.response.Err? ==> r.response.error == InvalidOperation
    ensures r.response.Ok? ==>
      && r.response.value == Executions(s.registry, tasks)
      && r.state.executors[id].tasks.Keys == s.executors[id].tasks.Keys + Ids(tasks)
      && (forall c :: c in tasks ==> c.taskId in r.state.executors[id].tasks && r.state.executors[id].tasks[c.taskId] == c)
      && r.state.executing == s.executing + |tasks|
  {
    var a := AddAll(s.executors[id], tasks);
    AddAllKeys(s.executors[id], tasks);
    AddAllStores(s.executors[id], tasks);
    var s1 := s.(executors := s.executors[id := a.executor], executing := s.executing + a.count);
    Step(if a.ok then Ok(Executions(s.registry, tasks)) else Err(InvalidOperation), s1)
  }

  /** What `PushTask` reports: the new task id, whether it went straight to
      a parked wait call, and that call's executor (`EmptyGuid` if none). */
  datatype Pushed = Pushed(taskId: Guid, isStarted: bool, executorId: Guid)

  /** `PushTask` with the handoff completed inline: the chosen waiter's
      wait call resumes with the one task, adds it to its executor and
      counts it. `countAtPush` adds the second increment the source makes
      on the push side. `taskId` and `now` stand for `Guid.NewGuid()` and
      the clock. */
  function PushWith(countAtPush: bool, s: State, model: Option<TaskModel>, taskId: Guid, now: int)
    : (r: Step<Pushed>)
    requires Inv(s)
    ensures r.response.Err? ==> r.state == s
    ensures r.response.Err? <==>
      model.None? || MetadataRegistry.FindByType(s.registry, model.value.typeId).None?
    ensures r.response.Err? ==>
      r.response.error == if model.None? then ArgumentNull else InvalidArgument
    ensures r.response.Ok? ==> r.response.value.taskId == taskId
  {
    match MetadataRegistry.FindByModel(s.registry, model)
    case Err(e) => Step(Err(e), s)
    case Ok(None) => Step(Err(InvalidArgument), s)
    case Ok(Some(m)) =>
      var c := Container(taskId, model.value, now);
      var h := Scan(s, s.waiters, c, s.waiters.Keys);
      match h.target
      case None =>
        QueueTypesRegistered(s, c.task.typeId);
        var q := Enqueue(s.queue, c).value;
        Step(Ok(Pushed(taskId, false, EmptyGuid)), s.(queue := q))
      case Some(id) =>
        var w := Complete(s.(waiters := h.waiters), id, [c]);
        var extra := if countAtPush then 1 else 0;
        Step(Ok(Pushed(taskId, true, id)), w.state.(executing := w.state.executing + extra))
  }

  /** `PushTask` as written: the handoff is counted twice. It answers as
      the corrected push does and leaves the same state, except that a
      handoff leaves the executing counter one higher. */
  function PushAsWritten(s: State, model: Option<TaskModel>, taskId: Guid, now: int): (r: Step<Pushed>)
    requires Inv(s)
    ensures r.response.Err? ==> r.state == s
    ensures r.response.Ok? ==> r.response.value.taskId == taskId
    ensures var c := Push(s, model, taskId, now);
      && r.response == c.response
      && r.state == c.state.(executing := r.state.executing)
      && r.state.executing == c.state.executing + (if r.response.Ok? && r.response.value.isStarted then 1 else 0)
  {
    PushWith(true, s, model, taskId, now)
  }

  /** `PushTask` with the handoff counted once, by the resumed wait call. */
  function Push(s: State, model: Option<TaskModel>, taskId: Guid, now: int): (r: Step<Pushed>)
    requires Inv(s)
    ensures r.response.Err? ==> r.state == s
    ensures r.response.Ok? ==> r.response.value.taskId == taskId
  {
    PushWith(false, s, model, taskId, now)
  }

  /** The completion loop keeps the invariant, whether or not it throws. */
  lemma CompleteKeepsInv(s: State, id: Guid, tasks: seq<Container>)
    requires Inv(s) && id in s.executors
    ensures Inv(Complete(s, id, tasks).state)
  {
    var r := Complete(s, id, tasks).state;
    assert r.executors == s.executors[id := r.executors[id]];
    TotalUpdate(s.executors, id, r.executors[id]);
  }

  /** Withdrawing waiters from the registry keeps the invariant. */
  lemma FewerWaitersKeepInv(s: State, waiters: map<Guid, Slot>)
    requires Inv(s)
    requires waiters.Keys <= s.waiters.Keys
    requires forall id :: id in waiters ==> waiters[id] == s.waiters[id]
    ensures Inv(s.(waiters := waiters))
  {
  }

  /** With no eligible parked call, push queues the task at the tail of its
      type's queue and reports it not started: the queue grows by one, the
      executing count and everything else stay as they were. */
  lemma PushWithoutWaiter(countAtPush: bool, s: State, model: TaskModel, taskId: Guid, now: int)
    requires Inv(s)
    requires MetadataRegistry.FindByType(s.registry, model.typeId).Some?
    requires EligibleAmong(s, s.waiters.Keys, model.typeId) == {}
    ensures var r := PushWith(countAtPush, s, Some(model), taskId, now);
      var t := model.typeId;
      && r.response == Ok(Pushed(taskId, false, EmptyGuid))
      && Count(r.state.queue) == Count(s.queue) + 1
      && r.state.queue.queues == s.queue.queues[t := s.queue.queues[t] + [Container(taskId, model, now)]]
      && r.state == s.(queue := r.state.queue)
  {
    var c := Container(taskId, model, now);
    ScanPicksLeastEligible(s, s.waiters, c, s.waiters.Keys);
    QueueTypesRegistered(s, model.typeId);
  }

  /** Completing a wait call with one new task assigns it and counts it. */
  lemma CompleteOne(s: State, id: Guid, c: Container)
    requires id in s.executors && c.taskId !in s.executors[id].tasks
    ensures var r := Complete(s, id, [c]);
      && r.response == Ok([ExecutionOf(s.registry, c)])
      && r.state.executors[id].tasks == s.executors[id].tasks[c.taskId := c]
      && r.state.executing == s.executing + 1
  {
    assert Assignable(s.executors[id].tasks, [c]);
    assert Ids([c]) == {c.taskId};
    AddAllKeeps(s.executors[id], [c]);
    var r := Complete(s, id, [c]);
    assert Executions(s.registry, [c]) == [ExecutionOf(s.registry, c)];
    assert r.state.executors[id].tasks.Keys == s.executors[id].tasks[c.taskId := c].Keys;
  }

  /** With an eligible parked call, push hands the task to the least such
      executor, withdraws only that waiter and leaves the queue alone. */
  lemma PushHandsOff(countAtPush: bool, s: State, model: TaskModel, taskId: Guid, now: int)
    requires Inv(s)
    requires MetadataRegistry.FindByType(s.registry, model.typeId).Some?
    requires EligibleAmong(s, s.waiters.Keys, model.typeId) != {}
    ensures var r := PushWith(countAtPush, s, Some(model), taskId, now);
      && r.response.Ok? && r.response.value.isStarted
      && IsLeast(r.response.value.executorId, EligibleAmong(s, s.waiters.Keys, model.typeId))
      && r.state.waiters == s.waiters - {r.response.value.executorId}
      && r.state.queue == s.queue
  {
    ScanPicksLeastEligible(s, s.waiters, Container(taskId, model, now), s.waiters.Keys);
  }

  /** The resumed wait call of a handoff adds the task to the chosen
      executor's set and, with the push side not counting, the executing
      count rises by exactly one. */
  lemma PushHandoffAssigns(s: State, model: TaskModel, taskId: Guid, now: int)
    requires Inv(s)
    requires MetadataRegistry.FindByType(s.registry, model.typeId).Some?
    requires EligibleAmong(s, s.waiters.Keys, model.typeId) != {}
    ensures var r := Push(s, Some(model), taskId, now);
      var id := r.response.value.executorId;
      r.response.Ok? && id in s.executors && taskId !in s.executors[id].tasks ==>
        && r.state.executors[id].tasks == s.executors[id].tasks[taskId := Container(taskId, model, now)]
        && r.state.executing == s.executing + 1
  {
    var c := Container(taskId, model, now);
    var h := Scan(s, s.waiters, c, s.waiters.Keys);
    ScanPicksLeastEligible(s, s.waiters, c, s.waiters.Keys);
    var id := h.target.value;
    if taskId !in s.executors[id].tasks {
      CompleteOne(s.(waiters := h.waiters), id, c);
    }
  }

  /** Push, counting the handoff once, keeps the invariant. */
  lemma PushKeepsInv(s: State, model: Option<TaskModel>, taskId: Guid, now: int)
    requires Inv(s)
    ensures Inv(Push(s, model, taskId, now).state)
  {
    if model.Some? && MetadataRegistry.FindByType(s.registry, model.value.typeId).Some? {
      var c := Container(taskId, model.value, now);
      var h := Scan(s, s.waiters, c, s.waiters.Keys);
      if h.target.Some? {
        FewerWaitersKeepInv(s, h.waiters);
        CompleteKeepsInv(s.(waiters := h.waiters), h.target.value, [c]);
      } else {
        QueueTypesRegistered(s, c.task.typeId);
        NewQueueKeepsInv(s, Enqueue(s.queue, c).value);
      }
    }
  }

  /** Counterexample to the counter invariant for push as written: whenever
      a task goes straight to a parked call, the executing count ends one
      above the number of assigned tasks, where the corrected push keeps
      them equal. */
  lemma PushAsWrittenOvercounts(s: State, model: TaskModel, taskId: Guid, now: int)
    requires Inv(s)
    requires MetadataRegistry.FindByType(s.registry, model.typeId).Some?
    requires EligibleAmong(s, s.waiters.Keys, model.typeId) != {}
    ensures var r := PushAsWritten(s, Some(model), taskId, now).state;
      r.executing == TotalExecuting(r.executors) + 1
    ensures var r := Push(s, Some(model), taskId, now).state;
      r.executing == TotalExecuting(r.executors)
  {
    var c := Container(taskId, model, now);
    ScanPicksLeastEligible(s, s.waiters, c, s.waiters.Keys);
    var h := Scan(s, s.waiters, c, s.waiters.Keys);
    FewerWaitersKeepInv(s, h.waiters);
    CompleteKeepsInv(s.(waiters := h.waiters), h.target.value, [c]);
    PushKeepsInv(s, Some(model), taskId, now);
  }

  /** The registered type of each name, in order, as `SubscribeAsync`
      collects them: a null name throws, an unknown one is an invalid
      operation. */
  function ResolveNames(reg: MetadataRegistry.Registry, names: seq<Option<string>>)
    : (r: Result<seq<TypeId>, Error>)
    requires MetadataRegistry.Valid(reg)
    ensures r.Ok? <==> forall i :: 0 <= i < |names| ==>
      names[i].Some? && MetadataRegistry.FindByName(reg, names[i]).value.Some?
    ensures r.Err? ==> r.error == ArgumentNull || r.error == InvalidOperation
    ensures r.Ok? ==> |r.value| == |names|
    ensures r.Ok? ==> forall i :: 0 <= i < |names| ==>
      r.value[i] == MetadataRegistry.FindByName(reg, names[i]).value.value.taskType
    ensures r.Ok? ==> forall t :: t in r.value ==> MetadataRegistry.FindByType(reg, t).Some?
    decreases |names|
  {
    if names == [] then Ok([])
    else
      match MetadataRegistry.FindByName(reg, names[0])
      case Err(e) => Err(e)
      case Ok(None) => Err(InvalidOperation)
      case Ok(Some(m)) =>
        MetadataRegistry.LookupRoundTrip(reg, m, m.taskName, TaskModel(m.taskType, []));
        match ResolveNames(reg, names[1..])
        case Err(e) => Err(e)
        case Ok(ts) => Ok([m.taskType] + ts)
  }

  /** `SubscribeAsync`: connects a new executor accepting the named types.
      An unknown name or an empty list is an invalid operation and changes
      nothing, as does an id already in use; `newId` stands for
      `Guid.NewGuid()`. */
  function Subscribe(s: State, names: seq<Option<string>>, newId: Guid): (r: Step<Guid>)
    requires Inv(s)
    ensures r.response.Err? ==> r.state == s
    ensures r.response.Ok? <==>
      ResolveNames(s.registry, names).Ok? && |names| > 0 && newId !in s.executors
    ensures r.response.Err? && ResolveNames(s.registry, names).Ok? ==> r.response.error == InvalidOperation
    ensures r.response.Ok? ==>
      && r.response.value == newId
      && r.state == s.(executors := r.state.executors)
      && r.state.executors.Keys == s.executors.Keys + {newId}
      && (forall k :: k in s.executors ==> r.state.executors[k] == s.executors[k])
      && CountExecuting(r.state.executors[newId]) == 0
      && forall t :: Supports(r.state.executors[newId], t) <==> t in ResolveNames(s.registry, names).value
  {
    match ResolveNames(s.registry, names)
    case Err(e) => Step(Err(e), s)
    case Ok(types) =>
      if |types| == 0 then Step(Err(InvalidOperation), s)
      else if newId in s.executors then Step(Err(InvalidOperation), s)
      else
        var e := ExecutorEntry.New(newId, Some(types)).value;
        Step(Ok(newId), s.(executors := s.executors[newId := e]))
  }

  /** Subscribing keeps the invariant: the new executor only accepts
      registered types, which all have a queue. */
  lemma SubscribeKeepsInv(s: State, names: seq<Option<string>>, newId: Guid)
    requires Inv(s)
    ensures Inv(Subscribe(s, names, newId).state)
  {
    match ResolveNames(s.registry, names)
    case Err(_) =>
    case Ok(types) =>
      if |types| > 0 && newId !in s.executors {
        var e := ExecutorEntry.New(newId, Some(types)).value;
        forall t | t in e.supported ensures HasTaskType(s.queue, t) {
          QueueTypesRegistered(s, t);
        }
        NewExecutorKeepsInv(s, e);
      }
  }

  /** What a wait call returns: the execution models of the tasks it took
      from the queue, or nothing yet because it parked a waiter. */
  datatype Waited = Delivered(tasks: seq<TaskExecution>) | Parked

  /** `WaitTasksAsync` up to the point where it returns or parks: an
      unknown executor is an invalid argument and a cancelled call throws,
      both changing nothing. Otherwise the queue is drained for the
      executor; an empty drain parks a waiter (a second one for the same
      executor throws), a non-empty one completes at once. */
  function WaitWith(p: Policy, s: State, executorId: Guid, cancelled: bool, now: int,
                    fails: set<Guid>): (r: Step<Waited>)
    requires Inv(s)
    ensures r.response.Err? && r.response.error in {InvalidArgument, OperationCanceled} ==> r.state == s
    ensures r.response == Err(InvalidArgument) <==> executorId !in s.executors
    ensures executorId in s.executors ==> (r.response == Err(OperationCanceled) <==> cancelled)
    ensures r.state.registry == s.registry && r.state.maxTasks == s.maxTasks
    ensures r.state.executors.Keys == s.executors.Keys
    ensures TaskQueue.Valid(r.state.queue) && r.state.queue.types == s.queue.types
    ensures r.response == Ok(Parked) ==>
      && executorId !in s.waiters
      && r.state == s.(queue := r.state.queue, waiters := s.waiters[executorId := Pending])
    ensures executorId in s.executors && !cancelled ==>
      var d := FindTasksWith(p, s, s.executors[executorId], now, fails);
      && (d.tasks == [] && executorId in s.waiters ==> r.response == Err(InvalidOperation))
      && (d.tasks == [] && executorId !in s.waiters ==> r.response == Ok(Parked))
      && (d.tasks != [] ==>
            || r.response == Err(InvalidOperation)
            || (r.response.Ok? && r.response.value.Delivered? && |r.response.value.tasks| == |d.tasks|))
  {
    if executorId !in s.executors then Step(Err(InvalidArgument), s)
    else if cancelled then Step(Err(OperationCanceled), s)
    else
      var e := s.executors[executorId];
      var d := FindTasksWith(p, s, e, now, fails);
      var s1 := s.(queue := d.queue);
      if |d.tasks| == 0 then
        if executorId in s.waiters then Step(Err(InvalidOperation), s1)
        else Step(Ok(Parked), s1.(waiters := s.waiters[executorId := Pending]))
      else
        var w := Complete(s1, executorId, d.tasks);
        match w.response
        case Ok(xs) => Step(Ok(Delivered(xs)), w.state)
        case Err(err) => Step(Err(err), w.state)
  }

  /** The wait call with the corrected drain. */
  function Wait(s: State, executorId: Guid, cancelled: bool, now: int, fails: set<Guid>): (r: Step<Waited>)
    requires Inv(s)
    ensures r.response.Ok? ==> executorId in s.executors && r.state.executors.Keys == s.executors.Keys
    ensures r.response.Err? && r.response.error in {InvalidArgument, OperationCanceled} ==> r.state == s
    ensures r.response == Ok(Parked) ==> executorId !in s.waiters && r.state.waiters == s.waiters[executorId := Pending]
  {
    WaitWith(Corrected, s, executorId, cancelled, now, fails)
  }

  /** Partner of the wait call: for a known executor with room for a task,
      and every cancellation succeeding, the call parks exactly when no
      supported queue holds a task within its start timeout and the
      executor has no waiter yet; with a waiter already registered the
      same call throws instead. */
  lemma WaitParksIff(s: State, executorId: Guid, now: int, fails: set<Guid>)
    requires Inv(s) && executorId in s.executors
    requires fails == {} && s.maxTasks - CountExecuting(s.executors[executorId]) > 0
    ensures var r := Wait(s, executorId, false, now, fails);
      var ready := exists t, c :: Supports(s.executors[executorId], t) && t in s.queue.queues
                                  && c in s.queue.queues[t] && !Expired(s.registry, c, now);
      && (r.response == Ok(Parked) <==> !ready && executorId !in s.waiters)
      && (!ready && executorId in s.waiters ==> r.response == Err(InvalidOperation))
  {
    FindTasksNonEmpty(s, s.executors[executorId], now, fails);
  }

  /** The wait call with the drain as written. */
  function WaitAsWritten(s: State, executorId: Guid, cancelled: bool, now: int, fails: set<Guid>)
    : (r: Step<Waited>)
    requires Inv(s)
    ensures r.response.Err? && r.response.error in {InvalidArgument, OperationCanceled} ==> r.state == s
    ensures r.response == Ok(Parked) ==> executorId !in s.waiters && r.state.waiters == s.waiters[executorId := Pending]
  {
    WaitWith(AsWritten, s, executorId, cancelled, now, fails)
  }

  /** The timeout or cancellation of a parked wait call: if its waiter is
      still registered it is withdrawn and the call resumes with no task;
      otherwise a handoff got there first and nothing happens. */
  function Expire(s: State, executorId: Guid): (r: Step<Option<Waited>>)
    ensures r.response.Ok?
    ensures executorId in s.waiters ==>
      r.response.value == Some(Delivered([])) && r.state == s.(waiters := s.waiters - {executorId})
    ensures executorId !in s.waiters ==> r.response.value == None && r.state == s
  {
    if executorId in s.waiters then Step(Ok(Some(Delivered([]))), s.(waiters := s.waiters - {executorId}))
    else Step(Ok(None), s)
  }

  /** Expiry keeps the invariant. */
  lemma ExpireKeepsInv(s: State, executorId: Guid)
    requires Inv(s)
    ensures Inv(Expire(s, executorId).state)
  {
  }

  /** A wait call keeps the invariant under either drain: delivered tasks
      are counted as they are assigned, and a parked waiter is pending and
      belongs to a known executor. */
  lemma WaitKeepsInv(p: Policy, s: State, executorId: Guid, cancelled: bool, now: int, fails: set<Guid>)
    requires Inv(s)
    ensures Inv(WaitWith(p, s, executorId, cancelled, now, fails).state)
  {
    if executorId in s.executors && !cancelled {
      var e := s.executors[executorId];
      var d := FindTasksWith(p, s, e, now, fails);
      NewQueueKeepsInv(s, d.queue);
      var s1 := s.(queue := d.queue);
      WaitState(p, s, executorId, now, fails);
      if |d.tasks| > 0 {
        CompleteKeepsInv(s1, executorId, d.tasks);
      } else if executorId !in s.waiters {
        ParkKeepsInv(s1, executorId);
      }
    }
  }

  /** The state a wait call for a known executor leaves: the drained
      queue, then either the completion or the parked waiter. */
  lemma WaitState(p: Policy, s: State, executorId: Guid, now: int, fails: set<Guid>)
    requires Inv(s) && executorId in s.executors
    ensures var d := FindTasksWith(p, s, s.executors[executorId], now, fails);
      var s1 := s.(queue := d.queue);
      WaitWith(p, s, executorId, false, now, fails).state ==
        if |d.tasks| > 0 then Complete(s1, executorId, d.tasks).state
        else if executorId in s.waiters then s1
        else s1.(waiters := s1.waiters[executorId := Pending])
  {
  }

  /** Parking a waiter for a known executor keeps the invariant. */
  lemma ParkKeepsInv(s: State, executorId: Guid)
    requires Inv(s) && executorId in s.executors
    ensures Inv(s.(waiters := s.waiters[executorId := Pending]))
  {
  }

  /** A wait call that completes at once hands out at least one and at
      most `maxTasks - executing` tasks (at least room for one), counts
      each as executing, records each in the executor's set, and takes at
      least as many tasks out of the queue. */
  lemma WaitDelivers(s: State, executorId: Guid, now: int, fails: set<Guid>)
    requires Inv(s)
    ensures var r := Wait(s, executorId, false, now, fails);
      r.response.Ok? && r.response.value.Delivered? ==>
        var xs := r.response.value.tasks;
        && 1 <= |xs| <= Bound(s.maxTasks - CountExecuting(s.executors[executorId]))
        && r.state.executing == s.executing + |xs|
        && (forall x :: x in xs ==> x.taskId in r.state.executors[executorId].tasks)
        && Count(r.state.queue) + |xs| <= Count(s.queue)
  {
    if executorId in s.executors {
      var e := s.executors[executorId];
      var d := FindTasks(s, e, now, fails);
      var s1 := s.(queue := d.queue);
      if |d.tasks| > 0 {
        var w := Complete(s1, executorId, d.tasks);
        if w.response.Ok? {
          assert Wait(s, executorId, false, now, fails) == Step(Ok(Delivered(w.response.value)), w.state);
          ExecutionsHeld(s.registry, d.tasks, w.state.executors[executorId].tasks);
        }
      }
    }
  }

  /** The execution models handed out name tasks the executor holds. */
  lemma ExecutionsHeld(reg: MetadataRegistry.Registry, tasks: seq<Container>, held: map<Guid, Container>)
    requires forall c :: c in tasks ==> c.taskId in held
    ensures forall x :: x in Executions(reg, tasks) ==> x.taskId in held
  {
    forall x | x in Executions(reg, tasks) ensures x.taskId in held {
      var i :| 0 <= i < |tasks| && Executions(reg, tasks)[i] == x;
      assert tasks[i] in tasks;
    }
  }

  /** Counterexample for the as-written drain at the level of the wait
      call: one expired task whose cancellation fails, with room for two,
      is delivered twice, so adding the second copy to the executor's set
      throws; the task ends up both assigned and still queued. The
      corrected wait parks the call and leaves the task queued only. */
  lemma WaitAsWrittenThrowsOnDuplicate(s: State, executorId: Guid, c: Container, now: int)
    requires Inv(s)
    requires executorId in s.executors && executorId !in s.waiters
    requires s.executors[executorId].supported == [c.task.typeId]
    requires c.taskId !in s.executors[executorId].tasks
    requires HasTaskType(s.queue, c.task.typeId) && s.queue.queues[c.task.typeId] == [c]
    requires s.maxTasks - CountExecuting(s.executors[executorId]) == 2
    requires Expired(s.registry, c, now)
    ensures var r := WaitAsWritten(s, executorId, false, now, {c.taskId});
      && r.response == Err(InvalidOperation)
      && c.taskId in r.state.executors[executorId].tasks
      && r.state.queue.queues[c.task.typeId] == [c]
    ensures var r := Wait(s, executorId, false, now, {c.taskId});
      && r.response == Ok(Parked)
      && r.state.executors == s.executors
      && r.state.queue.queues[c.task.typeId] == [c]
  {
    var e := s.executors[executorId];
    AsWrittenDeliversTwice(s, e, c, now);
    var d := FindTasksWith(AsWritten, s, e, now, {c.taskId});
    assert d.tasks == [c, c];
    var s1 := s.(queue := d.queue);
    assert !DistinctIds(d.tasks) by {
      assert d.tasks[0].taskId == d.tasks[1].taskId;
    }
    var w := Complete(s1, executorId, d.tasks);
    AddAllKeeps(e, [c]);
    assert AddAll(e, [c, c]).executor == AddAll(AddCommand(e, c).value, [c]).executor;
  }

  /** The common part of `SuccessTaskAsync`, `ErrorTaskAsync` and
      `DeferTaskAsync`: the task leaves its executor's set and stops being
      counted. An unknown executor, or a task not assigned to it, is an
      invalid argument and changes nothing. */
  function Release(s: State, executorId: Guid, taskId: Guid): (r: Step<Container>)
    ensures r.response.Ok? <==> executorId in s.executors && taskId in s.executors[executorId].tasks
    ensures r.response.Err? ==> r.response == Err(InvalidArgument) && r.state == s
    ensures r.response.Ok? ==>
      && r.response.value == s.executors[executorId].tasks[taskId]
      && r.state == s.(executors := r.state.executors, executing := s.executing - 1)
      && r.state.executors.Keys == s.executors.Keys
      && (forall k :: k in s.executors && k != executorId ==> r.state.executors[k] == s.executors[k])
      && r.state.executors[executorId].tasks == s.executors[executorId].tasks - {taskId}
  {
    if executorId !in s.executors then Step(Err(InvalidArgument), s)
    else
      var rm := TryRemoveCommand(s.executors[executorId], taskId);
      match rm.item
      case None => Step(Err(InvalidArgument), s)
      case Some(c) =>
        Step(Ok(c), s.(executors := s.executors[executorId := rm.executor], executing := s.executing - 1))
  }

  /** `SuccessTaskAsync`; the repository update is not part of the state. */
  function Success(s: State, executorId: Guid, taskId: Guid): (r: Step<()>)
    ensures r.response.Ok? <==> executorId in s.executors && taskId in s.executors[executorId].tasks
    ensures r.response.Err? ==> r.state == s
    ensures r.response.Ok? ==> r.state.executing == s.executing - 1 && r.state.queue == s.queue
    ensures r.response.Ok? ==>
      && r.state == s.(executors := r.state.executors, executing := s.executing - 1)
      && r.state.executors.Keys == s.executors.Keys
      && r.state.executors[executorId].tasks == s.executors[executorId].tasks - {taskId}
      && (forall k :: k in s.executors && k != executorId ==> r.state.executors[k] == s.executors[k])
  {
    var rel := Release(s, executorId, taskId);
    Step(if rel.response.Ok? then Ok(()) else Err(InvalidArgument), rel.state)
  }

  /** `ErrorTaskAsync`: the same transition as `SuccessTaskAsync`; only the
      repository record differs. */
  function Error(s: State, executorId: Guid, taskId: Guid): (r: Step<()>)
    ensures r.response.Ok? <==> executorId in s.executors && taskId in s.executors[executorId].tasks
    ensures r.response.Err? ==> r.state == s
    ensures r.response.Ok? ==> r.state.executing == s.executing - 1 && r.state.queue == s.queue
    ensures r.response.Ok? ==>
      && r.state == s.(executors := r.state.executors, executing := s.executing - 1)
      && r.state.executors.Keys == s.executors.Keys
      && r.state.executors[executorId].tasks == s.executors[executorId].tasks - {taskId}
      && (forall k :: k in s.executors && k != executorId ==> r.state.executors[k] == s.executors[k])
    ensures r == Success(s, executorId, taskId)
  {
    var rel := Release(s, executorId, taskId);
    Step(if rel.response.Ok? then Ok(()) else Err(InvalidArgument), rel.state)
  }

  /** `DeferTaskAsync`: the released task goes back to the tail of its
      type's queue. Should its type have no queue, the enqueue throws
      after the release. */
  function Defer(s: State, executorId: Guid, taskId: Guid): (r: Step<()>)
    requires Inv(s)
    ensures Release(s, executorId, taskId).response.Err? ==> r == Step(Err(InvalidArgument), s)
    ensures r.response.Ok? ==>
      var c := s.executors[executorId].tasks[taskId];
      && Count(r.state.queue) == Count(s.queue) + 1
      && c.task.typeId in s.queue.queues
      && r.state.queue.queues == s.queue.queues[c.task.typeId := s.queue.queues[c.task.typeId] + [c]]
      && r.state.executing == s.executing - 1
    ensures r.response.Ok? ==> r.state == Release(s, executorId, taskId).state.(queue := r.state.queue)
  {
    var rel := Release(s, executorId, taskId);
    match rel.response
    case Err(e) => Step(Err(e), s)
    case Ok(c) =>
      match Enqueue(s.queue, c)
      case Err(e) => Step(Err(e), rel.state)
      case Ok(q) => Step(Ok(()), rel.state.(queue := q))
  }

  /** Releasing keeps the invariant. */
  lemma ReleaseKeepsInv(s: State, executorId: Guid, taskId: Guid)
    requires Inv(s)
    ensures Inv(Release(s, executorId, taskId).state)
  {
    var r := Release(s, executorId, taskId);
    if r.response.Ok? {
      TotalUpdate(s.executors, executorId, r.state.executors[executorId]);
      assert r.state.executors == s.executors[executorId := r.state.executors[executorId]];
    }
  }

  /** Success and error reports keep the invariant. */
  lemma SuccessKeepsInv(s: State, executorId: Guid, taskId: Guid)
    requires Inv(s)
    ensures Inv(Success(s, executorId, taskId).state)
    ensures Inv(Error(s, executorId, taskId).state)
  {
    ReleaseKeepsInv(s, executorId, taskId);
  }

  /** Deferring keeps the invariant, and a task of a registered type is
      always put back: the task moves from the executing count to the
      queue count. */
  lemma DeferKeepsInv(s: State, executorId: Guid, taskId: Guid)
    requires Inv(s)
    ensures Inv(Defer(s, executorId, taskId).state)
    ensures var rel := Release(s, executorId, taskId);
      rel.response.Ok? && MetadataRegistry.FindByType(s.registry, rel.response.value.task.typeId).Some? ==>
        Defer(s, executorId, taskId).response.Ok?
  {
    ReleaseKeepsInv(s, executorId, taskId);
    var rel := Release(s, executorId, taskId);
    if rel.response.Ok? {
      QueueTypesRegistered(s, rel.response.value.task.typeId);
      if HasTaskType(s.queue, rel.response.value.task.typeId) {
        NewQueueKeepsInv(rel.state, Enqueue(s.queue, rel.response.value).value);
      }
    }
  }

  /** The executor entry a restored record goes to: the known one, or a new
      entry accepting no type. */
  function RestoreTarget(s: State, id: Guid): Executor {
    if id in s.executors then s.executors[id] else NewRestored(id)
  }

  /** A restored record started on executor `id`: the entry is created
      if absent, then the task is added to it and counted. A task id the
      entry already holds throws after the entry is created. */
  function RestoreAssigned(s: State, id: Guid, c: Container): (r: Step<()>)
    ensures r.state.registry == s.registry && r.state.queue == s.queue
    ensures r.state.waiters == s.waiters && r.state.maxTasks == s.maxTasks
    ensures r.response.Ok? <==> c.taskId !in RestoreTarget(s, id).tasks
    ensures r.response.Err? ==> r.response.error == InvalidOperation
    ensures id in r.state.executors
    ensures r.state.executors == s.executors[id := r.state.executors[id]]
    ensures r.response.Err? ==> r.state.executors[id] == RestoreTarget(s, id) && r.state.executing == s.executing
    ensures r.response.Ok? ==>
      && r.state.executing == s.executing + 1
      && r.state.executors[id].tasks == RestoreTarget(s, id).tasks[c.taskId := c]
    ensures forall k :: k in s.executors ==>
      k in r.state.executors && s.executors[k].tasks.Keys <= r.state.executors[k].tasks.Keys
  {
    var e := RestoreTarget(s, id);
    match AddCommand(e, c)
    case Err(err) => Step(Err(err), s.(executors := s.executors[id := e]))
    case Ok(e1) => Step(Ok(()), s.(executors := s.executors[id := e1], executing := s.executing + 1))
  }

  /** Restoring onto an executor keeps the invariant. */
  lemma RestoreAssignedKeepsInv(s: State, id: Guid, c: Container)
    requires Inv(s)
    ensures Inv(RestoreAssigned(s, id, c).state)
  {
    RestoreTargetKeepsInv(s, id);
    var e := RestoreTarget(s, id);
    var s1 := s.(executors := s.executors[id := e]);
    if AddCommand(e, c).Ok? {
      var e1 := AddCommand(e, c).value;
      RestoreAddedKeepsInv(s1, e1);
      RestoreAssignedAdded(s, id, c);
    }
  }

  /** The state after a restore that adds the task to its entry. */
  lemma RestoreAssignedAdded(s: State, id: Guid, c: Container)
    requires AddCommand(RestoreTarget(s, id), c).Ok?
    ensures var s1 := s.(executors := s.executors[id := RestoreTarget(s, id)]);
      var e1 := AddCommand(RestoreTarget(s, id), c).value;
      RestoreAssigned(s, id, c).state == s1.(executors := s1.executors[id := e1], executing := s1.executing + 1)
  {
    var e := RestoreTarget(s, id);
    var e1 := AddCommand(e, c).value;
    assert s.executors[id := e][id := e1] == s.executors[id := e1];
  }

  /** Adding one task to a known executor's entry, counted once, keeps the
      invariant. */
  lemma RestoreAddedKeepsInv(s: State, e: Executor)
    requires Inv(s)
    requires e.id in s.executors && e.supported == s.executors[e.id].supported
    requires CountExecuting(e) == CountExecuting(s.executors[e.id]) + 1
    ensures Inv(s.(executors := s.executors[e.id := e], executing := s.executing + 1))
  {
    ReplaceExecutorKeepsInv(s, e);
  }

  /** Creating the restore target if absent keeps the invariant. */
  lemma RestoreTargetKeepsInv(s: State, id: Guid)
    requires Inv(s)
    ensures var e := RestoreTarget(s, id);
      e.id == id && Inv(s.(executors := s.executors[id := e])) && s.executors[id := e][id] == e
  {
    var e := RestoreTarget(s, id);
    if id !in s.executors {
      NewExecutorKeepsInv(s, e);
    } else {
      assert s.executors[id := e] == s.executors;
      assert s.(executors := s.executors[id := e]) == s;
    }
  }

  /** One record of `RestoreTasksAsync`: a null payload, or one with no
      metadata, throws and changes nothing; a record started on an
      executor is assigned to it; any other is queued. */
  function RestoreOne(s: State, ts: TaskState): (r: Step<()>)
    requires Inv(s)
    ensures r.state.registry == s.registry && r.state.waiters == s.waiters && r.state.maxTasks == s.maxTasks
    ensures TaskQueue.Valid(r.state.queue) && r.state.queue.types == s.queue.types
    ensures r.response.Ok? <==>
      && ts.model.Some? && MetadataRegistry.FindByType(s.registry, ts.model.value.typeId).Some?
      && (ts.executorId.Some? ==> ts.taskId !in RestoreTarget(s, ts.executorId.value).tasks)
    ensures ts.model.None? || MetadataRegistry.FindByType(s.registry, ts.model.value.typeId).None?
      ==> r.state == s
    ensures r.response.Ok? && ts.executorId.None? ==>
      var c := Container(ts.taskId, ts.model.value, ts.createdAt);
      && r.state == s.(queue := r.state.queue)
      && Count(r.state.queue) == Count(s.queue) + 1
      && c.task.typeId in s.queue.queues
      && r.state.queue.queues == s.queue.queues[c.task.typeId := s.queue.queues[c.task.typeId] + [c]]
    ensures r.response.Ok? && ts.executorId.Some? ==>
      var id := ts.executorId.value;
      && r.state.queue == s.queue && r.state.executing == s.executing + 1
      && id in r.state.executors
      && r.state.executors == s.executors[id := r.state.executors[id]]
      && r.state.executors[id].tasks
           == RestoreTarget(s, id).tasks[ts.taskId := Container(ts.taskId, ts.model.value, ts.createdAt)]
    ensures forall k :: k in s.executors ==>
      k in r.state.executors && s.executors[k].tasks.Keys <= r.state.executors[k].tasks.Keys
  {
    match MetadataRegistry.FindByModel(s.registry, ts.model)
    case Err(e) => Step(Err(e), s)
    case Ok(None) => Step(Err(InvalidArgument), s)
    case Ok(Some(_)) =>
      var c := Container(ts.taskId, ts.model.value, ts.createdAt);
      match ts.executorId
      case None => RestoreQueued(s, c)
      case Some(id) => RestoreAssigned(s, id, c)
  }

  /** A restored record not started anywhere: appended to the queue of its
      type. */
  function RestoreQueued(s: State, c: Container): (r: Step<()>)
    requires Inv(s) && MetadataRegistry.FindByType(s.registry, c.task.typeId).Some?
    ensures r.response.Ok? && r.state == s.(queue := r.state.queue)
    ensures TaskQueue.Valid(r.state.queue) && r.state.queue.types == s.queue.types
    ensures Count(r.state.queue) == Count(s.queue) + 1
    ensures c.task.typeId in s.queue.queues
    ensures r.state.queue.queues == s.queue.queues[c.task.typeId := s.queue.queues[c.task.typeId] + [c]]
  {
    QueueTypesRegistered(s, c.task.typeId);
    Step(Ok(()), s.(queue := Enqueue(s.queue, c).value))
  }

  /** Restoring one record keeps the invariant. */
  lemma RestoreOneKeepsInv(s: State, ts: TaskState)
    requires Inv(s)
    ensures Inv(RestoreOne(s, ts).state)
  {
    if ts.model.Some? && MetadataRegistry.FindByType(s.registry, ts.model.value.typeId).Some? {
      var c := Container(ts.taskId, ts.model.value, ts.createdAt);
      if ts.executorId.None? {
        QueueTypesRegistered(s, c.task.typeId);
        NewQueueKeepsInv(s, Enqueue(s.queue, c).value);
      } else {
        RestoreAssignedKeepsInv(s, ts.executorId.value, c);
      }
    }
  }

  /** Number of records started on an executor. */
  function StartedCount(records: seq<TaskState>): (n: nat)
    ensures n <= |records|
  {
    if records == [] then 0
    else (if records[0].executorId.Some? then 1 else 0) + StartedCount(records[1..])
  }

  /** `RestoreTasksAsync`: the records in order, stopping at the first that
      throws. When all succeed, every started record is counted as
      executing and every other one is queued. */
  function Restore(s: State, records: seq<TaskState>): (r: Step<()>)
    requires Inv(s)
    ensures Inv(r.state)
    ensures r.state.registry == s.registry && r.state.waiters == s.waiters
    ensures r.response.Ok? ==>
      && r.state.executing == s.executing + StartedCount(records)
      && Count(r.state.queue) == Count(s.queue) + |records| - StartedCount(records)
    decreases |records|
  {
    if records == [] then Step(Ok(()), s)
    else
      var r1 := RestoreOne(s, records[0]);
      RestoreOneKeepsInv(s, records[0]);
      if r1.response.Err? then r1 else Restore(r1.state, records[1..])
  }

  /** The tasks of the records not started on an executor whose payload
      has type `t`, in record order. */
  function Unassigned(records: seq<TaskState>, t: TypeId): seq<Container> {
    if records == [] then [] else UnassignedOne(records[0], t) + Unassigned(records[1..], t)
  }

  /** The task of one record, if it is not started on an executor and its
      payload has type `t`. */
  function UnassignedOne(ts: TaskState, t: TypeId): seq<Container> {
    if ts.executorId.None? && ts.model.Some? && ts.model.value.typeId == t
    then [Container(ts.taskId, ts.model.value, ts.createdAt)] else []
  }

  /** One restored record adds its task to the queue of its type when it
      is not started on an executor, and leaves the other queues alone. */
  lemma RestoreOneQueue(s: State, ts: TaskState, t: TypeId)
    requires Inv(s) && RestoreOne(s, ts).response.Ok? && t in s.queue.queues
    ensures var q := RestoreOne(s, ts).state.queue;
      t in q.queues && q.queues[t] == s.queue.queues[t] + UnassignedOne(ts, t)
  {
  }

  /** A restore that goes through appends the records not started on an
      executor to the queues of their types, in record order. */
  lemma {:induction false} RestoreQueues(s: State, records: seq<TaskState>)
    requires Inv(s)
    ensures var r := Restore(s, records);
      r.response.Ok? ==>
        forall t :: t in s.queue.queues ==>
          t in r.state.queue.queues && r.state.queue.queues[t] == s.queue.queues[t] + Unassigned(records, t)
    decreases |records|
  {
    if records != [] {
      var r1 := RestoreOne(s, records[0]);
      RestoreOneKeepsInv(s, records[0]);
      if r1.response.Ok? {
        RestoreQueues(r1.state, records[1..]);
        var r := Restore(r1.state, records[1..]);
        assert Restore(s, records) == r;
        forall t | t in s.queue.queues && r.response.Ok?
          ensures t in r.state.queue.queues && r.state.queue.queues[t] == s.queue.queues[t] + Unassigned(records, t)
        {
          RestoreOneQueue(s, records[0], t);
          AppendTwice(s.queue.queues[t], UnassignedOne(records[0], t), Unassigned(records[1..], t),
                      r1.state.queue.queues[t], r.state.queue.queues[t]);
        }
      }
    }
  }

  /** The record, if started on an executor, is held by it in `st`. */
  ghost predicate Held(st: State, ts: TaskState) {
    ts.executorId.Some? ==>
      ts.executorId.value in st.executors && ts.taskId in st.executors[ts.executorId.value].tasks
  }

  /** Every task an executor holds in `a` it still holds in `b`. */
  ghost predicate Retains(a: State, b: State) {
    forall k, id :: k in a.executors && id in a.executors[k].tasks ==>
      k in b.executors && id in b.executors[k].tasks
  }

  /** A held record stays held in a state that retains every task. */
  lemma HeldRetained(a: State, b: State, ts: TaskState)
    requires Held(a, ts) && Retains(a, b)
    ensures Held(b, ts)
  {
  }

  /** Restoring never takes a task away from an executor, even when a
      record throws part way. */
  lemma {:induction false} RestoreKeepsHeld(s: State, records: seq<TaskState>)
    requires Inv(s)
    ensures Retains(s, Restore(s, records).state)
    decreases |records|
  {
    if records != [] {
      var r1 := RestoreOne(s, records[0]);
      RestoreOneKeepsInv(s, records[0]);
      if r1.response.Ok? {
        RestoreKeepsHeld(r1.state, records[1..]);
        assert Retains(s, r1.state);
      }
    }
  }

  /** One restored record started on an executor is held by it. */
  lemma RestoreOneHeld(s: State, ts: TaskState)
    requires Inv(s) && RestoreOne(s, ts).response.Ok?
    ensures Held(RestoreOne(s, ts).state, ts)
  {
  }

  /** A restore that goes through leaves every record started on an
      executor held by that executor. */
  lemma {:induction false} RestoreHeld(s: State, records: seq<TaskState>)
    requires Inv(s)
    ensures var r := Restore(s, records);
      r.response.Ok? ==> forall i :: 0 <= i < |records| ==> Held(r.state, records[i])
    decreases |records|
  {
    if records != [] {
      var r1 := RestoreOne(s, records[0]);
      RestoreOneKeepsInv(s, records[0]);
      if r1.response.Ok? {
        RestoreHeld(r1.state, records[1..]);
        RestoreKeepsHeld(r1.state, records[1..]);
        RestoreOneHeld(s, records[0]);
        var r := Restore(r1.state, records[1..]);
        assert Restore(s, records) == r;
        HeldRetained(r1.state, r.state, records[0]);
        forall i | 0 < i < |records| && r.response.Ok? ensures Held(r.state, records[i]) {
          assert records[1..][i - 1] == records[i];
        }
      }
    }
  }

  /** The preconditions shared by the two restore examples: a fresh
      allocator and two registered records, the first started on an
      executor and the second not. */
  ghost predicate FreshWithTwoRecords(s: State, started: TaskState, waiting: TaskState) {
    && Inv(s) && s.executors == map[] && Count(s.queue) == 0 && s.executing == 0
    && started.model.Some? && MetadataRegistry.FindByType(s.registry, started.model.value.typeId).Some?
    && waiting.model.Some? && MetadataRegistry.FindByType(s.registry, waiting.model.value.typeId).Some?
    && started.executorId.Some? && waiting.executorId.None?
  }

  /** Restoring two records is restoring the first and then, if that went
      through, the second. */
  lemma RestorePair(s: State, a: TaskState, b: TaskState)
    requires Inv(s)
    ensures Restore(s, [a]) == RestoreOne(s, a)
    ensures Restore(s, [a, b]) ==
      if Restore(s, [a]).response.Err? then Restore(s, [a]) else Restore(Restore(s, [a]).state, [b])
  {
    assert [a, b][1..] == [b];
    assert [a][1..] == [];
  }

  /** Restoring a started and then a waiting record into a fresh allocator
      leaves one task queued and one executing. */
  lemma RestoreStartedThenWaiting(s: State, started: TaskState, waiting: TaskState)
    requires FreshWithTwoRecords(s, started, waiting)
    ensures var r := Restore(s, [started, waiting]);
      r.response.Ok? && Count(r.state.queue) == 1 && r.state.executing == 1
  {
    RestorePair(s, started, waiting);
    var r1 := RestoreOne(s, started);
    assert RestoreTarget(s, started.executorId.value).tasks == map[];
    assert r1.response.Ok? && r1.state.executing == 1 && r1.state.queue == s.queue;
    RestorePair(r1.state, waiting, waiting);
  }

  /** The same two records in the other order give the same counts. */
  lemma RestoreWaitingThenStarted(s: State, started: TaskState, waiting: TaskState)
    requires FreshWithTwoRecords(s, started, waiting)
    ensures var r := Restore(s, [waiting, started]);
      r.response.Ok? && Count(r.state.queue) == 1 && r.state.executing == 1
  {
    RestorePair(s, waiting, started);
    var r1 := RestoreOne(s, waiting);
    assert r1.response.Ok? && r1.state.executors == map[] && r1.state.executing == 0;
    assert Count(r1.state.queue) == 1;
    RestorePair(r1.state, started, started);
    assert RestoreTarget(r1.state, started.executorId.value).tasks == map[];
  }
}

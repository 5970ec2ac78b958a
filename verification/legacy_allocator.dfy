/** The older task allocator (`Infrastructure/TaskAllocator.cs`): commands
    are pushed to a collecting waiting or queued, drained by `WaitCommands`
    up to a fixed cap, and reported back with boolean results. Unlike the
    current revision it reports most failures as result objects, hands a
    command to a waiting without looking at the executor's load, and counts
    a command as executing only on the wait side. */
module LegacyAllocator {
  import opened Common
  import MetadataRegistry
  import opened TaskQueue
  import opened ExecutorEntry
  import opened Waiting
  import AllocatorState
  import Allocator
  import opened LegacyFind

  /** `defaultCommandWaitingTimeout` (30 s, in ms) and
      `maxCommandsPerExecutor` when the options give no positive value. */
  const DefaultWaitingTimeout: int := 30000
  const DefaultMaxCommandsPerExecutor: int := 10

  /** `waitings` holds the collecting waiting of each executor's parked
      `WaitCommands` call; `executing` is `countExecutingCommands`. */
  datatype State = State(
    registry: MetadataRegistry.Registry,
    queue: Queue,
    executors: map<Guid, Executor>,
    waitings: map<Guid, Collector>,
    executing: int,
    waitingTimeout: int,
    maxCommands: int)

  /** Response of one operation (or the exception it threw) together with
      the state it leaves behind. */
  datatype Step<T> = Step(response: Result<T, Error>, state: State)

  /** The invariant:
      - the registry is consistent and the queue has one queue per
        registered type;
      - each executor entry is stored under its own id and only accepts
        registered types;
      - each registered waiting belongs to a known executor and has not
        been cancelled (its cancellation removes it from the registry);
      - the executing counter is the number of assigned commands. */
  ghost predicate Inv(s: State) {
    && MetadataRegistry.Valid(s.registry)
    && TaskQueue.Valid(s.queue)
    && s.queue.types == MetadataRegistry.TaskTypes(s.registry)
    && s.waitingTimeout > 0 && s.maxCommands > 0
    && (forall id :: id in s.executors ==> s.executors[id].id == id)
    && (forall id, t :: id in s.executors && t in s.executors[id].supported ==>
          HasTaskType(s.queue, t))
    && (forall id :: id in s.waitings ==> id in s.executors && s.waitings[id] == Fresh)
    && s.executing == TotalExecuting(s.executors)
  }

  /** The constructor: a missing metadata manager throws; non-positive
      options fall back to the defaults. */
  function Init(registry: Option<MetadataRegistry.Registry>, timeoutOption: int, maxOption: int)
    : (r: Result<State, Error>)
    requires registry.Some? ==> MetadataRegistry.Valid(registry.value)
    ensures r.Ok? <==> registry.Some?
    ensures r.Err? ==> r.error == ArgumentNull
    ensures r.Ok? ==>
      && Inv(r.value)
      && r.value.executing == 0 && Count(r.value.queue) == 0
      && r.value.executors == map[] && r.value.waitings == map[]
      && r.value.waitingTimeout == (if timeoutOption > 0 then timeoutOption else DefaultWaitingTimeout)
      && r.value.maxCommands == (if maxOption > 0 then maxOption else DefaultMaxCommandsPerExecutor)
      && forall t :: HasTaskType(r.value.queue, t) <==>
           MetadataRegistry.FindByType(registry.value, t).Some?
  {
    match registry
    case None => Err(ArgumentNull)
    case Some(reg) =>
      MetadataRegistry.TaskTypesDistinct(reg);
      var q := TaskQueue.New(MetadataRegistry.TaskTypes(reg)).value;
      assert forall t :: HasTaskType(q, t) <==> MetadataRegistry.FindByType(reg, t).Some? by {
        forall t ensures HasTaskType(q, t) <==> MetadataRegistry.FindByType(reg, t).Some? {
          AllocatorState.QueuedIffRegistered(reg, q, t);
        }
      }
      Ok(State(reg, q, map[], map[], 0,
               if timeoutOption > 0 then timeoutOption else DefaultWaitingTimeout,
               if maxOption > 0 then maxOption else DefaultMaxCommandsPerExecutor))
  }

  /** Any valid queue over the same types can replace the queue. */
  lemma NewQueueKeepsInv(s: State, q: Queue)
    requires Inv(s)
    requires TaskQueue.Valid(q) && q.types == s.queue.types
    ensures Inv(s.(queue := q))
  {
    forall id, t | id in s.executors && t in s.executors[id].supported
      ensures HasTaskType(q, t)
    {
      assert HasTaskType(s.queue, t);
    }
  }

  /** Replacing a known executor's entry by one with the same id and types
      keeps the invariant once the counter moves by the difference. */
  lemma ReplaceExecutorKeepsInv(s: State, e: Executor)
    requires Inv(s)
    requires e.id in s.executors && e.supported == s.executors[e.id].supported
    ensures Inv(s.(executors := s.executors[e.id := e],
                   executing := s.executing - CountExecuting(s.executors[e.id]) + CountExecuting(e)))
  {
    TotalUpdate(s.executors, e.id, e);
  }

  /** Withdrawing waitings from the registry keeps the invariant. */
  lemma FewerWaitingsKeepInv(s: State, waitings: map<Guid, Collector>)
    requires Inv(s)
    requires waitings.Keys <= s.waitings.Keys
    requires forall id :: id in waitings ==> waitings[id] == s.waitings[id]
    ensures Inv(s.(waitings := waitings))
  {
  }

  /** Connecting a new executor with no commands and only queued types
      keeps the invariant. */
  lemma NewExecutorKeepsInv(s: State, e: Executor)
    requires Inv(s)
    requires e.id !in s.executors && CountExecuting(e) == 0
    requires forall t :: t in e.supported ==> HasTaskType(s.queue, t)
    ensures Inv(s.(executors := s.executors[e.id := e]))
  {
    TotalUpdate(s.executors, e.id, e);
  }

  /** Every type a known executor accepts has a queue. */
  lemma SupportedQueued(s: State, id: Guid)
    requires Inv(s) && id in s.executors
    ensures forall t :: t in s.executors[id].supported ==> t in s.queue.queues
  {
    forall t | t in s.executors[id].supported ensures t in s.queue.queues {
      assert HasTaskType(s.queue, t);
    }
  }

  // ---------------------------------------------------------------------
  // Pushing a command

  /** An executor whose waiting may take a command of type `t`: known and
      accepting the type. Its load is not looked at. */
  predicate Accepts(s: State, id: Guid, t: TypeId) {
    id in s.executors && Supports(s.executors[id], t)
  }

  /** Outcome of `TryCommandExecute`: the waiting registry after the scan
      and the executor whose waiting took the command, if any. */
  datatype Handoff = Handoff(waitings: map<Guid, Collector>, target: Option<Guid>)

  /** `TryCommandExecute`: visits the registered waitings (in ascending id
      order), skips those whose executor does not accept the type, and
      offers the command to the others. The first one to accept it has
      cancelled itself, which takes it out of the registry. */
  function Offer(s: State, waitings: map<Guid, Collector>, c: Container, candidates: set<Guid>)
    : (h: Handoff)
    requires candidates <= waitings.Keys
    ensures h.waitings.Keys <= waitings.Keys
    ensures forall id :: id in h.waitings ==> h.waitings[id] == waitings[id]
    ensures forall id :: id in waitings && id !in candidates ==> id in h.waitings
    ensures h.target.Some? ==>
      && h.target.value in candidates
      && Accepts(s, h.target.value, c.task.typeId)
      && TryAddCommand(waitings[h.target.value], c).ok
      && h.target.value !in h.waitings
    ensures h.target.None? ==>
      forall id :: id in candidates && Accepts(s, id, c.task.typeId) ==> waitings[id].cancelled
    decreases |candidates|
  {
    if candidates == {} then Handoff(waitings, None)
    else
      var id := MinOf(candidates);
      var rest := candidates - {id};
      if !Accepts(s, id, c.task.typeId) then Offer(s, waitings, c, rest)
      else if TryAddCommand(waitings[id], c).ok then Handoff(waitings - {id}, Some(id))
      else Offer(s, waitings, c, rest)
  }

  /** The executors among the candidates that accept type `t`. */
  function AcceptingAmong(s: State, candidates: set<Guid>, t: TypeId): set<Guid> {
    set id | id in candidates && Accepts(s, id, t)
  }

  /** With every registered waiting still open (as `Inv` demands), the
      command goes to the least executor accepting its type exactly when
      there is one, and only that waiting leaves the registry. */
  lemma {:induction false} OfferPicksLeastAccepting(s: State, waitings: map<Guid, Collector>,
                                                    c: Container, candidates: set<Guid>)
    requires candidates <= waitings.Keys
    requires forall id :: id in waitings ==> waitings[id] == Fresh
    ensures var h := Offer(s, waitings, c, candidates);
      var acc := AcceptingAmong(s, candidates, c.task.typeId);
      && (h.target.Some? <==> acc != {})
      && (h.target.Some? ==> IsLeast(h.target.value, acc) && h.waitings == waitings - {h.target.value})
      && (h.target.None? ==> h.waitings == waitings)
    decreases |candidates|
  {
    if candidates != {} {
      var t := c.task.typeId;
      var id := MinOf(candidates);
      var rest := candidates - {id};
      OfferPicksLeastAccepting(s, waitings, c, rest);
      var acc := AcceptingAmong(s, candidates, t);
      if Accepts(s, id, t) {
        assert id in acc;
      } else {
        assert acc == AcceptingAmong(s, rest, t);
      }
    }
  }

  /** What `WaitCommands` hands the executor for one command. */
  datatype CommandToExecute = CommandToExecute(commandId: Guid, command: TaskModel)

  /** Why `WaitCommands` gave an error result. */
  datatype WaitFailure = ExecutorNotFound | CancelledBeforeWaiting

  /** `WaitCommandsResult`: the commands to run (an empty list is
      `SuccessEmpty`) or an error result. */
  datatype WaitCommandsResult = WaitSuccess(commands: seq<CommandToExecute>) | WaitError(reason: WaitFailure)

  /** `IsEmpty`. */
  predicate IsEmpty(r: WaitCommandsResult) {
    r.WaitSuccess? && |r.commands| == 0
  }

  /** The commands as handed out, in order. */
  function ToExecute(cs: seq<Container>): (r: seq<CommandToExecute>)
    ensures |r| == |cs|
    ensures forall i :: 0 <= i < |cs| ==> r[i] == CommandToExecute(cs[i].taskId, cs[i].task)
  {
    seq(|cs|, i requires 0 <= i < |cs| => CommandToExecute(cs[i].taskId, cs[i].task))
  }

  /** The end of `WaitCommands`: each command is added to the executor and
      counted, then the list is returned. A command id the executor
      already holds throws, keeping the commands added before it. */
  function Deliver(s: State, id: Guid, commands: seq<Container>): (r: Step<Option<WaitCommandsResult>>)
    requires id in s.executors
    ensures r.state.registry == s.registry && r.state.queue == s.queue
    ensures r.state.waitings == s.waitings
    ensures r.state.waitingTimeout == s.waitingTimeout && r.state.maxCommands == s.maxCommands
    ensures r.state.executors.Keys == s.executors.Keys
    ensures forall k :: k in s.executors && k != id ==> r.state.executors[k] == s.executors[k]
    ensures r.state.executors[id].id == s.executors[id].id
    ensures r.state.executors[id].supported == s.executors[id].supported
    ensures r.state.executing - CountExecuting(r.state.executors[id])
         == s.executing - CountExecuting(s.executors[id])
    ensures r.response.Ok? <==> Allocator.Assignable(s.executors[id].tasks, commands)
    ensures r.response.Err? ==> r.response.error == InvalidOperation
    ensures r.response.Ok? ==>
      && r.response.value == Some(WaitSuccess(ToExecute(commands)))
      && r.state.executors[id].tasks.Keys == s.executors[id].tasks.Keys + Allocator.Ids(commands)
      && (forall c :: c in commands ==>
            c.taskId in r.state.executors[id].tasks && r.state.executors[id].tasks[c.taskId] == c)
      && r.state.executing == s.executing + |commands|
  {
    var a := Allocator.AddAll(s.executors[id], commands);
    Allocator.AddAllKeys(s.executors[id], commands);
    Allocator.AddAllStores(s.executors[id], commands);
    var s1 := s.(executors := s.executors[id := a.executor], executing := s.executing + a.count);
    Step(if a.ok then Ok(Some(WaitSuccess(ToExecute(commands)))) else Err(InvalidOperation), s1)
  }

  /** Delivering keeps the invariant, whether or not it throws. */
  lemma DeliverKeepsInv(s: State, id: Guid, commands: seq<Container>)
    requires Inv(s) && id in s.executors
    ensures Inv(Deliver(s, id, commands).state)
  {
    var r := Deliver(s, id, commands).state;
    assert r.executors == s.executors[id := r.executors[id]];
    TotalUpdate(s.executors, id, r.executors[id]);
  }

  /** The out-parameters of `PushCommand`. */
  datatype Started = Started(isStarted: bool, executorId: Guid)

  /** `PushCommand`: a null command throws `ArgumentNullException`, an
      unregistered type `ArgumentException`, both changing nothing. If a
      waiting takes the command, its parked `WaitCommands` call resumes at
      once with the commands it collected and delivers them; otherwise the
      command is queued. The older container has no creation time, so it
      is set to 0. */
  function PushCommand(s: State, commandId: Guid, command: Option<TaskModel>): (r: Step<Started>)
    requires Inv(s)
    ensures r.response.Err? ==> r.state == s
    ensures r.response.Err? <==>
      command.None? || MetadataRegistry.FindByType(s.registry, command.value.typeId).None?
    ensures r.response.Err? ==>
      r.response.error == if command.None? then ArgumentNull else InvalidArgument
    ensures r.response.Ok? && !r.response.value.isStarted ==> r.response.value.executorId == EmptyGuid
  {
    match MetadataRegistry.FindByModel(s.registry, command)
    case Err(e) => Step(Err(e), s)
    case Ok(None) => Step(Err(InvalidArgument), s)
    case Ok(Some(_)) =>
      var c := Container(commandId, command.value, 0);
      var h := Offer(s, s.waitings, c, s.waitings.Keys);
      match h.target
      case None =>
        AllocatorState.QueuedIffRegistered(s.registry, s.queue, c.task.typeId);
        Step(Ok(Started(false, EmptyGuid)), s.(queue := Enqueue(s.queue, c).value))
      case Some(id) =>
        var collected := TryAddCommand(s.waitings[id], c).collector.commands;
        var w := Deliver(s.(waitings := h.waitings), id, collected);
        Step(Ok(Started(true, id)), w.state)
  }

  /** With no waiting whose executor accepts the type, the command is
      queued at the back of its type's queue, reported as not started with
      an empty executor id, and nothing else changes. */
  lemma PushWithoutWaiting(s: State, commandId: Guid, command: TaskModel)
    requires Inv(s) && MetadataRegistry.FindByType(s.registry, command.typeId).Some?
    requires AcceptingAmong(s, s.waitings.Keys, command.typeId) == {}
    ensures var r := PushCommand(s, commandId, Some(command));
      && r.response == Ok(Started(false, EmptyGuid))
      && Count(r.state.queue) == Count(s.queue) + 1
      && r.state.queue.queues[command.typeId]
           == s.queue.queues[command.typeId] + [Container(commandId, command, 0)]
      && r.state == s.(queue := r.state.queue)
  {
    var c := Container(commandId, command, 0);
    OfferPicksLeastAccepting(s, s.waitings, c, s.waitings.Keys);
    AllocatorState.QueuedIffRegistered(s.registry, s.queue, command.typeId);
  }

  /** Direct handoff: when a waiting's executor accepts the type, the least
      such executor gets the command, whatever it already runs. Its waiting
      leaves the registry and the queue is untouched. */
  lemma PushHandsOff(s: State, commandId: Guid, command: TaskModel)
    requires Inv(s) && MetadataRegistry.FindByType(s.registry, command.typeId).Some?
    requires AcceptingAmong(s, s.waitings.Keys, command.typeId) != {}
    ensures var r := PushCommand(s, commandId, Some(command));
      var id := r.response.value.executorId;
      && r.response.Ok? && r.response.value.isStarted
      && IsLeast(id, AcceptingAmong(s, s.waitings.Keys, command.typeId))
      && r.state.waitings == s.waitings - {id}
      && r.state.queue == s.queue
  {
    var c := Container(commandId, command, 0);
    OfferPicksLeastAccepting(s, s.waitings, c, s.waitings.Keys);
  }

  /** The resumed wait call of a handoff puts the command in the chosen
      executor's set and counts it exactly once. */
  lemma PushHandoffCounts(s: State, commandId: Guid, command: TaskModel)
    requires Inv(s) && MetadataRegistry.FindByType(s.registry, command.typeId).Some?
    requires AcceptingAmong(s, s.waitings.Keys, command.typeId) != {}
    ensures var r := PushCommand(s, commandId, Some(command));
      var id := r.response.value.executorId;
      commandId !in s.executors[id].tasks ==>
        && r.state.executing == s.executing + 1
        && r.state.executors[id].tasks == s.executors[id].tasks[commandId := Container(commandId, command, 0)]
  {
    var c := Container(commandId, command, 0);
    OfferPicksLeastAccepting(s, s.waitings, c, s.waitings.Keys);
    var h := Offer(s, s.waitings, c, s.waitings.Keys);
    var id := h.target.value;
    var a := TryAddCommand(s.waitings[id], c);
    assert a.collector.commands == [c];
    var s1 := s.(waitings := h.waitings);
    var d := Deliver(s1, id, [c]);
    assert PushCommand(s, commandId, Some(command)) == Step(Ok(Started(true, id)), d.state);
    if commandId !in s.executors[id].tasks {
      DeliverOne(s1, id, c);
    }
  }

  /** Delivering one new command adds exactly it to the set. */
  lemma DeliverOne(s: State, id: Guid, c: Container)
    requires id in s.executors && c.taskId !in s.executors[id].tasks
    ensures var d := Deliver(s, id, [c]);
      && d.response.Ok?
      && d.state.executing == s.executing + 1
      && d.state.executors[id].tasks == s.executors[id].tasks[c.taskId := c]
  {
    var e := s.executors[id];
    assert Allocator.Assignable(e.tasks, [c]);
    Allocator.AddAllKeeps(e, [c]);
    var d := Deliver(s, id, [c]);
    assert Allocator.Ids([c]) == {c.taskId};
    assert d.state.executors[id].tasks.Keys == e.tasks.Keys + {c.taskId};
  }

  /** Pushing keeps the invariant. */
  lemma PushKeepsInv(s: State, commandId: Guid, command: Option<TaskModel>)
    requires Inv(s)
    ensures Inv(PushCommand(s, commandId, command).state)
  {
    match MetadataRegistry.FindByModel(s.registry, command)
    case Err(_) =>
    case Ok(None) =>
    case Ok(Some(_)) =>
      var c := Container(commandId, command.value, 0);
      var h := Offer(s, s.waitings, c, s.waitings.Keys);
      match h.target
      case None =>
        AllocatorState.QueuedIffRegistered(s.registry, s.queue, c.task.typeId);
        NewQueueKeepsInv(s, Enqueue(s.queue, c).value);
      case Some(id) =>
        FewerWaitingsKeepInv(s, h.waitings);
        DeliverKeepsInv(s.(waitings := h.waitings), id, TryAddCommand(s.waitings[id], c).collector.commands);
  }

  // ---------------------------------------------------------------------
  // Connecting an executor

  /** Why `ConnectExecutor` gave an error result. */
  datatype ConnectFailure = UnknownTypeName | NoTypeNames | RegistrationFailed

  /** `ConnectExecutorResult`. */
  datatype ConnectExecutorResult = Connected(executorId: Guid) | ConnectError(reason: ConnectFailure)

  /** `ConnectExecutor`: a null name throws; an unknown name, an empty
      list or an id already in use gives an error result. Each of these
      leaves the state alone. `newId` stands for `Guid.NewGuid()`. */
  function ConnectExecutor(s: State, names: seq<Option<string>>, newId: Guid)
    : (r: Step<ConnectExecutorResult>)
    requires Inv(s)
    ensures !(r.response.Ok? && r.response.value.Connected?) ==> r.state == s
    ensures r.response.Err? ==> r.response.error == ArgumentNull
    ensures r.response == Ok(Connected(newId)) <==>
      Allocator.ResolveNames(s.registry, names).Ok? && |names| > 0 && newId !in s.executors
    ensures r.response.Ok? && r.response.value.Connected? ==>
      && r.response.value.executorId == newId
      && r.state == s.(executors := r.state.executors)
      && r.state.executors.Keys == s.executors.Keys + {newId}
      && (forall k :: k in s.executors ==> r.state.executors[k] == s.executors[k])
      && CountExecuting(r.state.executors[newId]) == 0
      && forall t :: Supports(r.state.executors[newId], t) <==>
           t in Allocator.ResolveNames(s.registry, names).value
  {
    match Allocator.ResolveNames(s.registry, names)
    case Err(e) =>
      if e == ArgumentNull then Step(Err(ArgumentNull), s)
      else Step(Ok(ConnectError(UnknownTypeName)), s)
    case Ok(types) =>
      if |types| == 0 then Step(Ok(ConnectError(NoTypeNames)), s)
      else if newId in s.executors then Step(Ok(ConnectError(RegistrationFailed)), s)
      else
        var e := ExecutorEntry.New(newId, Some(types)).value;
        Step(Ok(Connected(newId)), s.(executors := s.executors[newId := e]))
  }

  /** Which error result a failed connection gives: an empty list and an
      id in use have their own; a name that resolves to no type gives
      `UnknownTypeName`. */
  lemma ConnectErrors(s: State, names: seq<Option<string>>, newId: Guid)
    requires Inv(s)
    ensures names == [] ==> ConnectExecutor(s, names, newId).response == Ok(ConnectError(NoTypeNames))
    ensures Allocator.ResolveNames(s.registry, names).Ok? && names != [] && newId in s.executors ==>
      ConnectExecutor(s, names, newId).response == Ok(ConnectError(RegistrationFailed))
    ensures (forall i :: 0 <= i < |names| ==> names[i].Some?) &&
            Allocator.ResolveNames(s.registry, names).Err? ==>
      ConnectExecutor(s, names, newId).response == Ok(ConnectError(UnknownTypeName))
  {
    if (forall i :: 0 <= i < |names| ==> names[i].Some?) && Allocator.ResolveNames(s.registry, names).Err? {
      NamesPresentNotNull(s.registry, names);
    }
  }

  /** With every name present, resolving can only fail on an unknown one. */
  lemma {:induction false} NamesPresentNotNull(reg: MetadataRegistry.Registry, names: seq<Option<string>>)
    requires MetadataRegistry.Valid(reg)
    requires forall i :: 0 <= i < |names| ==> names[i].Some?
    ensures Allocator.ResolveNames(reg, names).Err? ==>
      Allocator.ResolveNames(reg, names).error == InvalidOperation
    decreases |names|
  {
    if names != [] {
      NamesPresentNotNull(reg, names[1..]);
    }
  }

  /** Connecting keeps the invariant. */
  lemma ConnectKeepsInv(s: State, names: seq<Option<string>>, newId: Guid)
    requires Inv(s)
    ensures Inv(ConnectExecutor(s, names, newId).state)
  {
    match Allocator.ResolveNames(s.registry, names)
    case Err(_) =>
    case Ok(types) =>
      if |types| > 0 && newId !in s.executors {
        var e := ExecutorEntry.New(newId, Some(types)).value;
        forall t | t in e.supported ensures HasTaskType(s.queue, t) {
          AllocatorState.QueuedIffRegistered(s.registry, s.queue, t);
        }
        NewExecutorKeepsInv(s, e);
      }
  }

  // ---------------------------------------------------------------------
  // Waiting for commands

  /** What `FindCommandsToExecute` takes for a known executor. */
  function Taken(s: State, executorId: Guid): (f: Found)
    requires Inv(s) && executorId in s.executors
    ensures TaskQueue.Valid(f.queue) && f.queue.types == s.queue.types
    ensures |f.commands| <= s.maxCommands
    ensures Count(f.queue) == Count(s.queue) - |f.commands|
  {
    SupportedQueued(s, executorId);
    Find(s.queue, s.executors[executorId].supported, s.maxCommands)
  }

  /** `WaitCommands` up to the point where it returns or parks (`Ok(None)`):
      a timeout that is not positive throws; an unknown executor or an
      already cancelled call gives an error result and changes nothing.
      Otherwise up to `maxCommandsPerExecutor` commands are taken from the
      queue; none parks a waiting (a second one for the executor throws),
      some are delivered at once. */
  function WaitCommands(s: State, executorId: Guid, cancelled: bool, timeout: int)
    : (r: Step<Option<WaitCommandsResult>>)
    requires Inv(s)
    ensures r.response.Err? ==> r.response.error in {InvalidArgument, InvalidOperation}
    ensures (r.response.Err? && r.response.error == InvalidArgument) <==> timeout <= 0
    ensures timeout <= 0 ==> r.state == s
    ensures timeout > 0 && executorId !in s.executors ==>
      r == Step(Ok(Some(WaitError(ExecutorNotFound))), s)
    ensures timeout > 0 && executorId in s.executors && cancelled ==>
      r == Step(Ok(Some(WaitError(CancelledBeforeWaiting))), s)
    ensures r.response.Ok? && r.response.value.Some? && r.response.value.value.WaitSuccess? ==>
      0 < |r.response.value.value.commands| <= s.maxCommands
  {
    if timeout <= 0 then Step(Err(InvalidArgument), s)
    else if executorId !in s.executors then Step(Ok(Some(WaitError(ExecutorNotFound))), s)
    else if cancelled then Step(Ok(Some(WaitError(CancelledBeforeWaiting))), s)
    else
      var f := Taken(s, executorId);
      var s1 := s.(queue := f.queue);
      if f.commands == [] then
        if executorId in s.waitings then Step(Err(InvalidOperation), s1)
        else Step(Ok(None), s1.(waitings := s.waitings[executorId := Fresh]))
      else Deliver(s1, executorId, f.commands)
  }

  /** The overloads without a timeout use `defaultCommandWaitingTimeout`,
      which is positive, so they never throw for the timeout. */
  lemma DefaultTimeoutNeverThrows(s: State, executorId: Guid, cancelled: bool)
    requires Inv(s)
    ensures var r := WaitCommands(s, executorId, cancelled, s.waitingTimeout);
      r.response.Err? ==> r.response.error == InvalidOperation
  {
  }

  /** A wait that finds nothing parks a fresh waiting for the executor
      (or throws if one is parked already) and changes nothing else. */
  lemma WaitParks(s: State, executorId: Guid, timeout: int)
    requires Inv(s) && timeout > 0 && executorId in s.executors
    requires forall t :: t in s.executors[executorId].supported ==>
      (t in s.queue.queues && s.queue.queues[t] == [])
    ensures var r := WaitCommands(s, executorId, false, timeout);
      && (executorId !in s.waitings ==>
            r == Step(Ok(None), s.(waitings := s.waitings[executorId := Fresh])))
      && (executorId in s.waitings ==> r == Step(Err(InvalidOperation), s))
  {
    TakenNothing(s, executorId);
  }

  /** Nothing is taken, and the queue is left as it was, when every queue
      of the executor's types is empty. */
  lemma TakenNothing(s: State, executorId: Guid)
    requires Inv(s) && executorId in s.executors
    requires forall t :: t in s.executors[executorId].supported ==>
      (t in s.queue.queues && s.queue.queues[t] == [])
    ensures Taken(s, executorId) == Found([], s.queue)
  {
    SupportedQueued(s, executorId);
    FindAllNothing(s.queue, s.executors[executorId].supported, s.maxCommands, []);
  }

  /** A wait that finds commands hands out between one and
      `maxCommandsPerExecutor` of them, each queued before under one of
      the executor's types, and they leave the queue. The cap ignores what
      the executor already runs. */
  lemma WaitTakes(s: State, executorId: Guid)
    requires Inv(s) && executorId in s.executors
    requires exists t ::
      t in s.executors[executorId].supported && t in s.queue.queues && s.queue.queues[t] != []
    ensures var e := s.executors[executorId];
      var f := Taken(s, executorId);
      && 1 <= |f.commands| <= s.maxCommands
      && Count(f.queue) == Count(s.queue) - |f.commands|
      && forall c :: c in f.commands ==>
           (Supports(e, c.task.typeId) && c.task.typeId in s.queue.queues &&
            c in s.queue.queues[c.task.typeId])
  {
    var e := s.executors[executorId];
    SupportedQueued(s, executorId);
    FindNonEmpty(s.queue, e.supported, s.maxCommands);
    FindAllOrigin(s.queue, e.supported, s.maxCommands, []);
  }

  /** What a wait does with the commands it found: if none was assigned
      already they enter the executor's set, are counted and returned. */
  lemma WaitDelivers(s: State, executorId: Guid, timeout: int)
    requires Inv(s) && timeout > 0 && executorId in s.executors
    requires Taken(s, executorId).commands != []
    ensures var r := WaitCommands(s, executorId, false, timeout);
      var e := s.executors[executorId];
      var cs := Taken(s, executorId).commands;
      && r.state.queue == Taken(s, executorId).queue
      && (r.response.Ok? <==> Allocator.Assignable(e.tasks, cs))
      && (r.response.Ok? ==>
            && r.response.value == Some(WaitSuccess(ToExecute(cs)))
            && r.state.executing == s.executing + |cs|
            && forall c :: c in cs ==> c.taskId in r.state.executors[executorId].tasks)
  {
    var f := Taken(s, executorId);
    var s1 := s.(queue := f.queue);
    assert WaitCommands(s, executorId, false, timeout) == Deliver(s1, executorId, f.commands);
  }

  /** The cap does not look at the executor's load: an executor already
      running `maxCommandsPerExecutor` commands still receives what is
      queued for it and ends up above the cap. */
  lemma WaitExceedsCap(s: State, executorId: Guid, timeout: int)
    requires Inv(s) && timeout > 0 && executorId in s.executors
    requires CountExecuting(s.executors[executorId]) == s.maxCommands
    requires exists t ::
      t in s.executors[executorId].supported && t in s.queue.queues && s.queue.queues[t] != []
    requires Allocator.Assignable(s.executors[executorId].tasks, Taken(s, executorId).commands)
    ensures var r := WaitCommands(s, executorId, false, timeout);
      && r.response.Ok?
      && CountExecuting(r.state.executors[executorId]) > s.maxCommands
  {
    WaitTakes(s, executorId);
    WaitDelivers(s, executorId, timeout);
    var f := Taken(s, executorId);
    var s1 := s.(queue := f.queue);
    assert WaitCommands(s, executorId, false, timeout) == Deliver(s1, executorId, f.commands);
  }

  /** Waiting keeps the invariant. */
  lemma WaitKeepsInv(s: State, executorId: Guid, cancelled: bool, timeout: int)
    requires Inv(s)
    ensures Inv(WaitCommands(s, executorId, cancelled, timeout).state)
  {
    if timeout > 0 && executorId in s.executors && !cancelled {
      var f := Taken(s, executorId);
      NewQueueKeepsInv(s, f.queue);
      var s1 := s.(queue := f.queue);
      if f.commands != [] {
        DeliverKeepsInv(s1, executorId, f.commands);
      }
    }
  }

  /** The parked call's waiting is cancelled (timeout, caller cancellation
      or disposal) before any command arrived: it leaves the registry and
      the call returns `SuccessEmpty`. An executor with no parked call is
      left alone. */
  function Expire(s: State, executorId: Guid): (r: Step<Option<WaitCommandsResult>>)
    ensures executorId !in s.waitings ==> r == Step(Ok(None), s)
    ensures executorId in s.waitings ==>
      && r.response == Ok(Some(WaitSuccess([])))
      && r.state == s.(waitings := s.waitings - {executorId})
  {
    if executorId in s.waitings then
      Step(Ok(Some(WaitSuccess([]))), s.(waitings := s.waitings - {executorId}))
    else Step(Ok(None), s)
  }

  /** A registered waiting has collected nothing, so cancelling it gives
      the empty result, which `IsEmpty` recognises. */
  lemma ExpireCollectsNothing(s: State, executorId: Guid)
    requires Inv(s) && executorId in s.waitings
    ensures Collected(Cancel(s.waitings[executorId])) == None
    ensures IsEmpty(Expire(s, executorId).response.value.value)
    ensures Inv(Expire(s, executorId).state)
  {
    FewerWaitingsKeepInv(s, s.waitings - {executorId});
  }

  // ---------------------------------------------------------------------
  // Reporting back

  /** Result of the operations that never throw: the returned value and
      the state after. */
  datatype Reply<T> = Reply(value: T, state: State)

  /** The common part of the three report operations: an unknown executor
      or command gives nothing and changes nothing; otherwise the command
      leaves the executor's set and the counter drops by one. */
  function Release(s: State, executorId: Guid, commandId: Guid): (r: Reply<Option<Container>>)
    ensures r.value.Some? <==> executorId in s.executors && commandId in s.executors[executorId].tasks
    ensures r.value.None? ==> r.state == s
    ensures r.value.Some? ==>
      && r.value.value == s.executors[executorId].tasks[commandId]
      && r.state == s.(executors := r.state.executors, executing := r.state.executing)
      && r.state.executors.Keys == s.executors.Keys
      && (forall k :: k in s.executors && k != executorId ==> r.state.executors[k] == s.executors[k])
      && r.state.executors[executorId].id == s.executors[executorId].id
      && r.state.executors[executorId].supported == s.executors[executorId].supported
      && r.state.executors[executorId].tasks == s.executors[executorId].tasks - {commandId}
      && r.state.executing == s.executing - 1
  {
    if executorId !in s.executors then Reply(None, s)
    else
      var rm := TryRemoveCommand(s.executors[executorId], commandId);
      match rm.item
      case None => Reply(None, s)
      case Some(c) =>
        Reply(Some(c), s.(executors := s.executors[executorId := rm.executor],
                          executing := s.executing - 1))
  }

  /** Releasing keeps the invariant. */
  lemma ReleaseKeepsInv(s: State, executorId: Guid, commandId: Guid)
    requires Inv(s)
    ensures Inv(Release(s, executorId, commandId).state)
  {
    var r := Release(s, executorId, commandId);
    if r.value.Some? {
      var e := r.state.executors[executorId];
      ReplaceExecutorKeepsInv(s, e);
      assert r.state.executors == s.executors[executorId := e];
    }
  }

  /** `DoneCommandExecuting`. */
  function DoneCommandExecuting(s: State, executorId: Guid, commandId: Guid): (r: Reply<bool>)
    ensures r.value <==> executorId in s.executors && commandId in s.executors[executorId].tasks
    ensures r.state == Release(s, executorId, commandId).state
  {
    var rel := Release(s, executorId, commandId);
    Reply(rel.value.Some?, rel.state)
  }

  /** `TryPullExecutingCommand`: as `DoneCommandExecuting`, and the
      command's payload is returned. */
  function TryPullExecutingCommand(s: State, executorId: Guid, commandId: Guid)
    : (r: Reply<Option<TaskModel>>)
    ensures r.value.Some? <==> executorId in s.executors && commandId in s.executors[executorId].tasks
    ensures r.value.Some? ==> r.value.value == s.executors[executorId].tasks[commandId].task
    ensures r.state == DoneCommandExecuting(s, executorId, commandId).state
  {
    var rel := Release(s, executorId, commandId);
    match rel.value
    case None => Reply(None, rel.state)
    case Some(c) => Reply(Some(c.task), rel.state)
  }

  /** `ReturnCommandToQueue`: released as above, then queued again. If the
      type has no queue the enqueue throws after the release. */
  function ReturnCommandToQueue(s: State, executorId: Guid, commandId: Guid): (r: Step<bool>)
    requires Inv(s)
    ensures r.response == Ok(false) <==>
      !(executorId in s.executors && commandId in s.executors[executorId].tasks)
    ensures r.response == Ok(false) ==> r.state == s
    ensures r.response.Err? ==> r.response.error == InvalidArgument
    ensures r.response == Ok(true) ==>
      var c := s.executors[executorId].tasks[commandId];
      var rel := Release(s, executorId, commandId).state;
      && c.task.typeId in s.queue.queues
      && r.state == rel.(queue := r.state.queue)
      && Count(r.state.queue) == Count(s.queue) + 1
      && r.state.queue.queues == s.queue.queues[c.task.typeId := s.queue.queues[c.task.typeId] + [c]]
  {
    var rel := Release(s, executorId, commandId);
    match rel.value
    case None => Step(Ok(false), s)
    case Some(c) =>
      match Enqueue(rel.state.queue, c)
      case Err(e) => Step(Err(e), rel.state)
      case Ok(q) => Step(Ok(true), rel.state.(queue := q))
  }

  /** The report operations keep the invariant. */
  lemma ReportsKeepInv(s: State, executorId: Guid, commandId: Guid)
    requires Inv(s)
    ensures Inv(DoneCommandExecuting(s, executorId, commandId).state)
    ensures Inv(TryPullExecutingCommand(s, executorId, commandId).state)
    ensures Inv(ReturnCommandToQueue(s, executorId, commandId).state)
  {
    ReleaseKeepsInv(s, executorId, commandId);
    var rel := Release(s, executorId, commandId);
    if rel.value.Some? && HasTaskType(rel.state.queue, rel.value.value.task.typeId) {
      NewQueueKeepsInv(rel.state, Enqueue(rel.state.queue, rel.value.value).value);
    }
  }

  /** Returning a command of a registered type succeeds. */
  lemma ReturnRequeues(s: State, executorId: Guid, commandId: Guid)
    requires Inv(s)
    requires executorId in s.executors && commandId in s.executors[executorId].tasks
    requires MetadataRegistry.FindByType(s.registry, s.executors[executorId].tasks[commandId].task.typeId).Some?
    ensures ReturnCommandToQueue(s, executorId, commandId).response == Ok(true)
  {
    AllocatorState.QueuedIffRegistered(s.registry, s.queue, s.executors[executorId].tasks[commandId].task.typeId);
  }

  /** Round trip: reporting done a command that a wait just delivered
      gives the executor back its previous set and the counter its
      previous value. */
  lemma DeliverThenDone(s: State, executorId: Guid, c: Container)
    requires Inv(s) && executorId in s.executors && c.taskId !in s.executors[executorId].tasks
    ensures var d := Deliver(s, executorId, [c]);
      var r := DoneCommandExecuting(d.state, executorId, c.taskId);
      && d.response.Ok? && r.value
      && r.state.executing == s.executing
      && r.state.executors[executorId] == s.executors[executorId]
  {
    var e := s.executors[executorId];
    DeliverOne(s, executorId, c);
    var d := Deliver(s, executorId, [c]);
    var e1 := d.state.executors[executorId];
    assert e1.tasks - {c.taskId} == e.tasks;
    var rel := Release(d.state, executorId, c.taskId);
    assert rel.state.executors[executorId] == e;
  }
}

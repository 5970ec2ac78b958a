/** The worker-side executor (`Executor/TaskExecutor.cs`): the start
    guard, the handler factories it builds from the handler map, the set of
    started jobs and the counters the job callbacks keep. Calls into the
    allocator are inputs: whether they throw, and what they return. */
module WorkerExecutor {
  import opened Common
  import MetadataRegistry
  import HandlerRegistry

  /** A handler factory: the task type and the task name it subscribes
      under. */
  datatype Factory = Factory(taskType: TypeId, taskName: string)

  /** `started` holds the ids of `_startedJobs`; `factories` the entries
      of `handlerFactories` in insertion order. */
  datatype Executor = Executor(
    isStarted: bool,
    factories: seq<Factory>,
    started: set<Guid>,
    executed: nat,
    faulted: nat,
    cancelled: nat)

  /** A new executor. */
  const Initial: Executor := Executor(false, [], {}, 0, 0, 0)

  /** An answer (or the exception thrown) and the executor after it. */
  datatype Step<T> = Step(response: Result<T, Error>, state: Executor)

  /** `ExecutingCommands`. */
  function Executing(e: Executor): nat {
    |e.started|
  }

  function Types(fs: seq<Factory>): (ts: seq<TypeId>)
    ensures |ts| == |fs| && forall i :: 0 <= i < |fs| ==> ts[i] == fs[i].taskType
  {
    seq(|fs|, i requires 0 <= i < |fs| => fs[i].taskType)
  }

  /** The names handed to `SubscribeAsync`, in factory order. */
  function Names(fs: seq<Factory>): (ns: seq<string>)
    ensures |ns| == |fs| && forall i :: 0 <= i < |fs| ==> ns[i] == fs[i].taskName
  {
    seq(|fs|, i requires 0 <= i < |fs| => fs[i].taskName)
  }

  /** The factories after the loop over the handler types, and the
      exception that ended it early, if any. */
  datatype Added = Added(factories: seq<Factory>, error: Option<Error>)

  /** The `foreach` of `WorkAsync`: a handler type without metadata throws
      `InvalidOperationException`, and one that already has a factory makes
      the dictionary throw `ArgumentException`. Factories added before the
      throw stay. */
  function AddFactories(fs: seq<Factory>, types: seq<TypeId>, reg: MetadataRegistry.Registry): (r: Added)
    ensures |fs| <= |r.factories| && r.factories[..|fs|] == fs
    ensures r.error.None? ==> |r.factories| == |fs| + |types|
    ensures r.error.Some? ==> r.error.value in {InvalidOperation, InvalidArgument}
    decreases |types|
  {
    if types == [] then Added(fs, None)
    else
      match MetadataRegistry.FindByType(reg, types[0])
      case None => Added(fs, Some(InvalidOperation))
      case Some(m) =>
        if types[0] in Types(fs) then Added(fs, Some(InvalidArgument))
        else
          var r := AddFactories(fs + [Factory(types[0], m.taskName)], types[1..], reg);
          assert r.factories[..|fs|] == (r.factories[..|fs| + 1])[..|fs|];
          r
  }

  /** The loop goes through exactly when every handler type has metadata,
      the handler types are pairwise different and none already has a
      factory. */
  lemma {:induction false} AddFactoriesIff(fs: seq<Factory>, types: seq<TypeId>, reg: MetadataRegistry.Registry)
    ensures AddFactories(fs, types, reg).error.None? <==>
      && (forall t :: t in types ==> MetadataRegistry.FindByType(reg, t).Some?)
      && Distinct(types)
      && (forall t :: t in types ==> t !in Types(fs))
    decreases |types|
  {
    if types != [] {
      var t := types[0];
      var r := AddFactories(fs, types, reg);
      if MetadataRegistry.FindByType(reg, t).Some? && t !in Types(fs) {
        var fs1 := fs + [Factory(t, MetadataRegistry.FindByType(reg, t).value.taskName)];
        assert Types(fs1) == Types(fs) + [t];
        AddFactoriesIff(fs1, types[1..], reg);
        assert r == AddFactories(fs1, types[1..], reg);
        AfterHead(types);
      } else {
        assert t in types;
      }
    }
  }

  /** A sequence splits into its head and its tail: every element is one
      of them, and it is free of duplicates exactly when the tail is and
      does not hold the head. */
  lemma AfterHead(types: seq<TypeId>)
    requires types != []
    ensures forall u :: u in types <==> u == types[0] || u in types[1..]
    ensures Distinct(types) <==> Distinct(types[1..]) && types[0] !in types[1..]
  {
    assert types == [types[0]] + types[1..];
    if Distinct(types[1..]) && types[0] !in types[1..] {
      forall i, j | 0 <= i < j < |types|
        ensures types[i] != types[j]
      {
        if i > 0 {
          assert types[i] == types[1..][i - 1] && types[j] == types[1..][j - 1];
        } else {
          assert types[j] == types[1..][j - 1];
        }
      }
    }
    if Distinct(types) {
      forall i, j | 0 <= i < j < |types[1..]|
        ensures types[1..][i] != types[1..][j]
      {
        assert types[1..][i] == types[i + 1] && types[1..][j] == types[j + 1];
      }
    }
  }

  /** A loop that goes through added a factory for the first handler
      type and then went through for the rest. */
  lemma AddFactoriesStep(fs: seq<Factory>, types: seq<TypeId>, reg: MetadataRegistry.Registry)
    requires types != [] && AddFactories(fs, types, reg).error.None?
    ensures MetadataRegistry.FindByType(reg, types[0]).Some? && types[0] !in Types(fs)
    ensures AddFactories(fs, types, reg)
         == AddFactories(fs + [Factory(types[0], MetadataRegistry.FindByType(reg, types[0]).value.taskName)],
                         types[1..], reg)
  {
  }

  /** When the loop goes through, the new factories carry the handler types
      in order. */
  lemma {:induction false} AddFactoriesTypes(fs: seq<Factory>, types: seq<TypeId>, reg: MetadataRegistry.Registry)
    ensures var r := AddFactories(fs, types, reg);
      r.error.None? ==> Types(r.factories) == Types(fs) + types
    decreases |types|
  {
    var r := AddFactories(fs, types, reg);
    if types != [] && r.error.None? {
      var t := types[0];
      AddFactoriesStep(fs, types, reg);
      var fs1 := fs + [Factory(t, MetadataRegistry.FindByType(reg, t).value.taskName)];
      AddFactoriesTypes(fs1, types[1..], reg);
      assert Types(fs1) == Types(fs) + [t];
      assert Types(fs) + types == Types(fs1) + types[1..];
    }
  }

  /** When the loop goes through, the factory of each handler type carries
      the task name registered for it. */
  lemma {:induction false} AddFactoriesNames(fs: seq<Factory>, types: seq<TypeId>, reg: MetadataRegistry.Registry)
    ensures var r := AddFactories(fs, types, reg);
      r.error.None? ==>
        forall j :: 0 <= j < |types| ==>
          && MetadataRegistry.FindByType(reg, types[j]).Some?
          && r.factories[|fs| + j].taskName == MetadataRegistry.FindByType(reg, types[j]).value.taskName
    decreases |types|
  {
    var r := AddFactories(fs, types, reg);
    if types != [] && r.error.None? {
      var t := types[0];
      AddFactoriesStep(fs, types, reg);
      var fs1 := fs + [Factory(t, MetadataRegistry.FindByType(reg, t).value.taskName)];
      AddFactoriesNames(fs1, types[1..], reg);
      forall j | 0 <= j < |types|
        ensures && MetadataRegistry.FindByType(reg, types[j]).Some?
                && r.factories[|fs| + j].taskName == MetadataRegistry.FindByType(reg, types[j]).value.taskName
      {
        if j == 0 {
          assert r.factories[|fs|] == r.factories[..|fs1|][|fs|] == fs1[|fs|];
        } else {
          assert types[j] == types[1..][j - 1] && |fs| + j == |fs1| + (j - 1);
        }
      }
    }
  }

  /** `WorkAsync` up to the subscription: an executor already started
      throws; otherwise it is marked started before anything else (and
      stays so if the loop throws), and the answer is the list of task
      names it subscribes with. */
  function Start(e: Executor, types: seq<TypeId>, reg: MetadataRegistry.Registry): (r: Step<seq<string>>)
    ensures r.state.isStarted
    ensures e.isStarted ==> r == Step(Err(InvalidOperation), e)
    ensures r.state.started == e.started
    ensures r.state.executed == e.executed && r.state.faulted == e.faulted && r.state.cancelled == e.cancelled
    ensures r.response.Err? ==> r.response.error in {InvalidOperation, InvalidArgument}
  {
    if e.isStarted then Step(Err(InvalidOperation), e)
    else
      var a := AddFactories(e.factories, types, reg);
      var e1 := e.(isStarted := true, factories := a.factories);
      if a.error.Some? then Step(Err(a.error.value), e1)
      else Step(Ok(Names(a.factories)), e1)
  }

  /** The end of `WorkAsync`, once the waiting cycle returns. */
  function Stop(e: Executor): (r: Executor)
    ensures !r.isStarted
    ensures r.factories == e.factories && r.started == e.started
  {
    e.(isStarted := false)
  }

  /** A new executor starts exactly when every handler type has metadata
      and none is listed twice, and then subscribes with the task names of
      the handler types in their order. */
  lemma StartFresh(types: seq<TypeId>, reg: MetadataRegistry.Registry)
    ensures Start(Initial, types, reg).response.Ok? <==>
      (forall t :: t in types ==> MetadataRegistry.FindByType(reg, t).Some?) && Distinct(types)
    ensures var r := Start(Initial, types, reg);
      r.response.Ok? ==>
        && |r.response.value| == |types|
        && (forall i :: 0 <= i < |types| ==>
              r.response.value[i] == MetadataRegistry.FindByType(reg, types[i]).value.taskName)
        && Types(r.state.factories) == types
  {
    AddFactoriesIff([], types, reg);
    AddFactoriesTypes([], types, reg);
    AddFactoriesNames([], types, reg);
    assert Types([]) + types == types;
  }

  /** Whatever the builder mapped, the executor starts on it: the handler
      map holds registered, pairwise different types. */
  lemma StartAfterMapping(reg: MetadataRegistry.Registry, ts: seq<TypeId>)
    requires HandlerRegistry.MapAll(HandlerRegistry.Empty, reg, ts).Ok?
    ensures Start(Initial, HandlerRegistry.MapAll(HandlerRegistry.Empty, reg, ts).value.taskTypes, reg).response.Ok?
  {
    HandlerRegistry.MapAllSucceedsIff(HandlerRegistry.Empty, reg, ts);
    assert HandlerRegistry.Empty.taskTypes + ts == ts;
    StartFresh(ts, reg);
  }

  /** The factories are never cleared, so running `WorkAsync` a second time
      after a successful first run throws when the handler map is not
      empty. */
  lemma RestartThrows(types: seq<TypeId>, reg: MetadataRegistry.Registry)
    requires types != []
    requires Start(Initial, types, reg).response.Ok?
    ensures Start(Stop(Start(Initial, types, reg).state), types, reg).response == Err(InvalidArgument)
  {
    StartFresh(types, reg);
    var e := Stop(Start(Initial, types, reg).state);
    assert Types(e.factories) == types;
    assert types[0] in Types(e.factories);
  }

  /** `StartJob`: a payload type without a factory, or a task id that
      already has a job, throws `InvalidOperationException`; otherwise the
      job joins the started set. */
  function StartJob(e: Executor, taskId: Guid, task: TaskModel): (r: Step<()>)
    ensures r.response.Ok? <==> task.typeId in Types(e.factories) && taskId !in e.started
    ensures r.response.Err? ==> r == Step(Err(InvalidOperation), e)
    ensures r.response.Ok? ==> r.state == e.(started := e.started + {taskId})
  {
    if task.typeId !in Types(e.factories) then Step(Err(InvalidOperation), e)
    else if taskId in e.started then Step(Err(InvalidOperation), e)
    else Step(Ok(()), e.(started := e.started + {taskId}))
  }

  /** One batch of the waiting cycle: `StartJob` for every command the
      allocator handed out, in order; the first throw ends the batch (and
      `WorkAsync`). */
  function StartJobs(e: Executor, commands: seq<(Guid, TaskModel)>): (r: Step<()>)
    ensures r.state.factories == e.factories && r.state.isStarted == e.isStarted
    ensures r.state.executed == e.executed && r.state.faulted == e.faulted && r.state.cancelled == e.cancelled
    decreases |commands|
  {
    if commands == [] then Step(Ok(()), e)
    else
      var s := StartJob(e, commands[0].0, commands[0].1);
      if s.response.Err? then s else StartJobs(s.state, commands[1..])
  }

  /** The task ids of a batch, as a set. */
  function IdSet(commands: seq<(Guid, TaskModel)>): (ids: set<Guid>)
    ensures forall i :: 0 <= i < |commands| ==> commands[i].0 in ids
    ensures forall x :: x in ids ==> exists i :: 0 <= i < |commands| && commands[i].0 == x
    decreases |commands|
  {
    if commands == [] then {}
    else
      var rest := IdSet(commands[1..]);
      assert forall i :: 1 <= i < |commands| ==> commands[i] == commands[1..][i - 1];
      {commands[0].0} + rest
  }

  /** The ids of a batch are pairwise different. */
  predicate DistinctIds(commands: seq<(Guid, TaskModel)>) {
    forall i, j :: 0 <= i < j < |commands| ==> commands[i].0 != commands[j].0
  }

  /** Every command of the batch has a factory and a new id. */
  predicate Startable(e: Executor, commands: seq<(Guid, TaskModel)>) {
    forall i :: 0 <= i < |commands| ==>
      commands[i].1.typeId in Types(e.factories) && commands[i].0 !in e.started
  }

  /** Pairwise different ids: the head is not among the tail's ids and the
      tail's ids are pairwise different. */
  lemma DistinctIdsCons(commands: seq<(Guid, TaskModel)>)
    requires commands != []
    ensures DistinctIds(commands) <==>
      commands[0].0 !in IdSet(commands[1..]) && DistinctIds(commands[1..])
  {
    var rest := commands[1..];
    assert forall i :: 0 <= i < |rest| ==> rest[i] == commands[i + 1];
  }

  /** A batch starts every command exactly when each has a factory and
      the ids are new and pairwise different. */
  lemma {:induction false} StartJobsIff(e: Executor, commands: seq<(Guid, TaskModel)>)
    ensures StartJobs(e, commands).response.Ok? <==> Startable(e, commands) && DistinctIds(commands)
    decreases |commands|
  {
    if commands != [] {
      var c := commands[0];
      var rest := commands[1..];
      var s := StartJob(e, c.0, c.1);
      DistinctIdsCons(commands);
      assert forall i :: 0 <= i < |rest| ==> rest[i] == commands[i + 1];
      if s.response.Ok? {
        StartJobsIff(s.state, rest);
        assert Startable(e, commands) && DistinctIds(commands) <==>
          Startable(s.state, rest) && DistinctIds(rest) && c.0 !in IdSet(rest);
        if c.0 in IdSet(rest) {
          assert !Startable(s.state, rest);
        }
      }
    }
  }

  /** A batch of startable commands with pairwise different ids starts,
      and adds exactly its ids to the started set. */
  lemma {:induction false} StartJobsAdds(e: Executor, commands: seq<(Guid, TaskModel)>)
    requires Startable(e, commands) && DistinctIds(commands)
    ensures StartJobs(e, commands).response.Ok?
    ensures StartJobs(e, commands).state.started == e.started + IdSet(commands)
    decreases |commands|
  {
    if commands != [] {
      var c := commands[0];
      var rest := commands[1..];
      DistinctIdsCons(commands);
      var s := StartJob(e, c.0, c.1);
      assert s.response.Ok? && s.state.started == e.started + {c.0};
      assert Startable(s.state, rest) by {
        forall i | 0 <= i < |rest|
          ensures rest[i].1.typeId in Types(s.state.factories) && rest[i].0 !in s.state.started
        {
          assert rest[i] == commands[i + 1];
        }
      }
      StartJobsAdds(s.state, rest);
      assert StartJobs(e, commands) == StartJobs(s.state, rest);
      assert IdSet(commands) == {c.0} + IdSet(rest);
    }
  }

  /** Pairwise different ids make a set as large as the batch. */
  lemma {:induction false} IdSetSize(commands: seq<(Guid, TaskModel)>)
    requires DistinctIds(commands)
    ensures |IdSet(commands)| == |commands|
    decreases |commands|
  {
    if commands != [] {
      DistinctIdsCons(commands);
      IdSetSize(commands[1..]);
      assert IdSet(commands) == {commands[0].0} + IdSet(commands[1..]);
    }
  }

  /** Such a batch raises `ExecutingCommands` by its length. */
  lemma StartJobsCount(e: Executor, commands: seq<(Guid, TaskModel)>)
    requires Startable(e, commands) && DistinctIds(commands)
    ensures Executing(StartJobs(e, commands).state) == Executing(e) + |commands|
  {
    StartJobsAdds(e, commands);
    IdSetSize(commands);
    var ids := IdSet(commands);
    assert e.started !! ids;
    assert (e.started + ids) - e.started == ids;
  }

  /** `OnSuccessJob`: a job that is not in the started set throws
      `InvalidOperationException`. Otherwise it is removed, the success is
      reported to the allocator (`report` is the exception that call
      throws, if any), and only then is `executed` raised. */
  function OnSuccess(e: Executor, taskId: Guid, report: Option<Error>): (r: Step<()>)
    ensures taskId !in e.started ==> r == Step(Err(InvalidOperation), e)
    ensures taskId in e.started ==> r.state.started == e.started - {taskId} && Executing(r.state) == Executing(e) - 1
    ensures r.response.Ok? <==> taskId in e.started && report.None?
    ensures r.state.executed == e.executed + (if r.response.Ok? then 1 else 0)
    ensures r.state.faulted == e.faulted && r.state.cancelled == e.cancelled
  {
    if taskId !in e.started then Step(Err(InvalidOperation), e)
    else
      var e1 := e.(started := e.started - {taskId});
      match report
      case Some(x) => Step(Err(x), e1)
      case None => Step(Ok(()), e1.(executed := e.executed + 1))
  }

  /** `OnErrorJob`: as `OnSuccessJob`, but an error is reported and both
      `executed` and `faulted` are raised. */
  function OnError(e: Executor, taskId: Guid, report: Option<Error>): (r: Step<()>)
    ensures taskId !in e.started ==> r == Step(Err(InvalidOperation), e)
    ensures taskId in e.started ==> r.state.started == e.started - {taskId} && Executing(r.state) == Executing(e) - 1
    ensures r.response.Ok? <==> taskId in e.started && report.None?
    ensures r.state.executed == e.executed + (if r.response.Ok? then 1 else 0)
    ensures r.state.faulted == e.faulted + (if r.response.Ok? then 1 else 0)
    ensures r.state.cancelled == e.cancelled
  {
    if taskId !in e.started then Step(Err(InvalidOperation), e)
    else
      var e1 := e.(started := e.started - {taskId});
      match report
      case Some(x) => Step(Err(x), e1)
      case None => Step(Ok(()), e1.(executed := e.executed + 1, faulted := e.faulted + 1))
  }

  /** `OnCancelledJob` as written: it raises `cancelled` and nothing else,
      so the job stays among the executing ones. */
  function OnCancelledAsWritten(e: Executor, taskId: Guid): (r: Step<()>)
    ensures r.response.Ok?
    ensures r.state.started == e.started && r.state.cancelled == e.cancelled + 1
  {
    Step(Ok(()), e.(cancelled := e.cancelled + 1))
  }

  /** `OnCancelledJob` as the other two callbacks and the host-stop test
      evidently intend it: the job leaves the started set, and a job that
      is not there throws. */
  function OnCancelled(e: Executor, taskId: Guid): (r: Step<()>)
    ensures r.response.Ok? <==> taskId in e.started
    ensures r.response.Err? ==> r == Step(Err(InvalidOperation), e)
    ensures r.response.Ok? ==> r.state.started == e.started - {taskId} && r.state.cancelled == e.cancelled + 1
    ensures r.state.executed == e.executed && r.state.faulted == e.faulted
  {
    if taskId !in e.started then Step(Err(InvalidOperation), e)
    else Step(Ok(()), e.(started := e.started - {taskId}, cancelled := e.cancelled + 1))
  }

  /** Every job the executor started is either still running or counted
      once: as executed or as cancelled. */
  function Accounted(e: Executor): nat {
    Executing(e) + e.executed + e.cancelled
  }

  /** Faulted jobs are a part of the executed ones. */
  predicate Inv(e: Executor) {
    e.faulted <= e.executed
  }

  /** The accounting: starting a job adds one, and every callback that
      completes moves a job from running to counted; a callback whose
      allocator report throws drops the job from both. All of them keep
      `faulted <= executed`. */
  lemma CallbacksAccount(e: Executor, taskId: Guid, task: TaskModel, report: Option<Error>)
    ensures StartJob(e, taskId, task).response.Ok? ==> Accounted(StartJob(e, taskId, task).state) == Accounted(e) + 1
    ensures OnSuccess(e, taskId, report).response.Ok? ==> Accounted(OnSuccess(e, taskId, report).state) == Accounted(e)
    ensures OnError(e, taskId, report).response.Ok? ==> Accounted(OnError(e, taskId, report).state) == Accounted(e)
    ensures OnCancelled(e, taskId).response.Ok? ==> Accounted(OnCancelled(e, taskId).state) == Accounted(e)
    ensures taskId in e.started && report.Some? ==>
      Accounted(OnSuccess(e, taskId, report).state) == Accounted(e) - 1
      && Accounted(OnError(e, taskId, report).state) == Accounted(e) - 1
    ensures Inv(e) ==>
      && Inv(Start(e, [], MetadataRegistry.Empty).state)
      && Inv(StartJob(e, taskId, task).state)
      && Inv(OnSuccess(e, taskId, report).state)
      && Inv(OnError(e, taskId, report).state)
      && Inv(OnCancelled(e, taskId).state)
      && Inv(OnCancelledAsWritten(e, taskId).state)
  {
  }

  /** As written, a cancelled job is counted as cancelled and still
      counted as executing: the accounting gains one. */
  lemma CancelAsWrittenCountsTwice(e: Executor, taskId: Guid)
    requires taskId in e.started
    ensures Accounted(OnCancelledAsWritten(e, taskId).state) == Accounted(e) + 1
    ensures Executing(OnCancelledAsWritten(e, taskId).state) == Executing(e)
  {
  }

  /** The host-stop scenario: one job starts and its token is cancelled by
      the host. As written the executor ends with one executing command and
      one cancelled, where zero executing is expected; the corrected
      callback gives zero and one. */
  lemma HostStopped(reg: MetadataRegistry.Registry, t: TypeId, taskId: Guid, fields: seq<int>)
    requires MetadataRegistry.FindByType(reg, t).Some?
    ensures var s := Start(Initial, [t], reg).state;
      var j := StartJob(s, taskId, TaskModel(t, fields));
      && j.response.Ok?
      && Executing(OnCancelledAsWritten(j.state, taskId).state) == 1
      && OnCancelledAsWritten(j.state, taskId).state.cancelled == 1
      && Executing(OnCancelled(j.state, taskId).state) == 0
      && OnCancelled(j.state, taskId).state.cancelled == 1
      && OnCancelled(j.state, taskId).state.executed == 0
  {
    StartFresh([t], reg);
    var s := Start(Initial, [t], reg).state;
    assert t in Types(s.factories);
  }

  /** The success and error scenarios: a started job that succeeds leaves
      one executed and none executing or faulted; one that fails leaves one
      executed and one faulted. */
  lemma SuccessAndError(reg: MetadataRegistry.Registry, t: TypeId, taskId: Guid, fields: seq<int>)
    requires MetadataRegistry.FindByType(reg, t).Some?
    ensures var s := Start(Initial, [t], reg).state;
      var j := StartJob(s, taskId, TaskModel(t, fields)).state;
      var ok := OnSuccess(j, taskId, None).state;
      var bad := OnError(j, taskId, None).state;
      && (ok.executed, Executing(ok), ok.faulted, ok.cancelled) == (1, 0, 0, 0)
      && (bad.executed, Executing(bad), bad.faulted, bad.cancelled) == (1, 0, 1, 0)
  {
    StartFresh([t], reg);
    var s := Start(Initial, [t], reg).state;
    assert t in Types(s.factories);
  }
}

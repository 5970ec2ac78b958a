/** One job on the worker side (`TaskJob`): construction checks, and the
    sequence of executor callbacks a run produces, from how the handler
    ended, the stopwatch reading and the job's timeout. Callbacks may
    themselves throw; which ones do is an input. */
module TaskJob {
  import opened Common

  /** What `TaskJob` needs from `TaskExecutionModel`. */
  datatype ExecutionModel = ExecutionModel(taskId: Guid, model: TaskModel, timeout: int)

  /** A constructed job; `timeout` is `timeoutInMilliseconds`. */
  datatype Job = Job(taskId: Guid, model: TaskModel, timeout: int, handler: nat)

  /** The constructor: a missing execution model or handler metadata
      throws `ArgumentNullException`, a timeout that is not positive
      `ArgumentOutOfRangeException`, and a missing executor context
      `ArgumentNullException`, in that order. */
  function Create(execution: Option<ExecutionModel>, handler: Option<nat>, hasContext: bool)
    : (r: Result<Job, Error>)
    ensures r.Ok? <==>
      execution.Some? && handler.Some? && execution.value.timeout > 0 && hasContext
    ensures r.Err? && execution.Some? && handler.Some? && execution.value.timeout <= 0 ==>
      r.error == ArgumentOutOfRange
    ensures r.Err? && !(execution.Some? && handler.Some? && execution.value.timeout <= 0) ==>
      r.error == ArgumentNull
    ensures r.Ok? ==>
      && r.value.taskId == execution.value.taskId
      && r.value.model == execution.value.model
      && r.value.timeout == execution.value.timeout
      && r.value.timeout > 0
  {
    match execution
    case None => Err(ArgumentNull)
    case Some(x) =>
      match handler
      case None => Err(ArgumentNull)
      case Some(h) =>
        if x.timeout <= 0 then Err(ArgumentOutOfRange)
        else if !hasContext then Err(ArgumentNull)
        else Ok(Job(x.taskId, x.model, x.timeout, h))
  }

  /** An exception: `OperationCanceledException` (a cancelled token,
      including the job's own timeout) or any other, identified by a
      code. */
  datatype Exc = Canceled | Fault(code: nat)

  /** The executor callbacks of `IJobExecutorContext`. */
  datatype Kind = OnStarted | OnSuccess | OnTimeout | OnDefer | OnError | OnUnhandled

  /** One callback invocation: the `Elapsed` it can read when the job's
      stopwatch is stopped, and the exception it is handed. */
  datatype Call = Call(kind: Kind, elapsed: Option<int>, exception: Option<Exc>)

  /** A whole run: the callbacks in order, and the exception that escapes
      `ExecuteAsync` when `OnUnhandledError` itself throws. */
  datatype Run = Run(calls: seq<Call>, escaped: Option<Exc>)

  /** The job's stopwatch, started at time 0. `Stop` on a stopped watch
      keeps its reading. */
  datatype Watch = Running | Stopped(elapsed: int)

  function Stop(w: Watch, now: int): (r: Watch)
    ensures r.Stopped?
    ensures w.Stopped? ==> r == w
  {
    match w
    case Running => Stopped(now)
    case Stopped(_) => w
  }

  /** Which callback the handler's `catch` blocks pick for an exception:
      cancellation is a timeout once the run took at least the timeout and
      a deferral before it; anything else is an error. */
  function Classify(e: Exc, elapsed: int, timeout: int): (k: Kind)
    ensures k in {OnTimeout, OnDefer, OnError}
  {
    match e
    case Canceled => if elapsed >= timeout then OnTimeout else OnDefer
    case Fault(_) => OnError
  }

  /** The outer `catch`: `OnUnhandledError` with the exception, which
      escapes if that callback throws too. */
  function Unhandled(prefix: seq<Call>, e: Exc, throws: map<Kind, Exc>): (r: Run)
    ensures r.calls == prefix + [Call(OnUnhandled, None, Some(e))]
  {
    Run(prefix + [Call(OnUnhandled, None, Some(e))],
        if OnUnhandled in throws then Some(throws[OnUnhandled]) else None)
  }

  /** An inner `catch` block: stop the watch (a no-op if already stopped),
      classify, and invoke the chosen callback. If that callback throws,
      the outer `catch` takes over. */
  function Catch(prefix: seq<Call>, e: Exc, w: Watch, now: int, timeout: int, throws: map<Kind, Exc>)
    : (r: Run)
  {
    var el := Stop(w, now).elapsed;
    var k := Classify(e, el, timeout);
    var call := Call(k, Some(el), if k == OnError then Some(e) else None);
    if k in throws then Unhandled(prefix + [call], throws[k], throws)
    else Run(prefix + [call], None)
  }

  /** The status a run reports when no callback throws, as the handler
      test harness reads it: the reference classification. */
  datatype Status = Success | Timeout | Deferred | Error(e: Exc)

  function Expected(outcome: Option<Exc>, elapsed: int, timeout: int): Status {
    match outcome
    case None => Success
    case Some(Canceled) => if elapsed >= timeout then Timeout else Deferred
    case Some(Fault(c)) => Error(Fault(c))
  }

  /** The callback that reports a status. */
  function Report(st: Status, elapsed: int): Call {
    match st
    case Success => Call(OnSuccess, Some(elapsed), None)
    case Timeout => Call(OnTimeout, Some(elapsed), None)
    case Deferred => Call(OnDefer, Some(elapsed), None)
    case Error(e) => Call(OnError, Some(elapsed), Some(e))
  }

  /** `ExecuteAsync`. With no throwing callback a run is `OnStartedJob`
      followed by the one callback of its status. Every run starts with
      `OnStartedJob` and has at most four callbacks; each callback that
      reads `Elapsed` reads the time the handler ended, since the watch is
      stopped before the first of them and never restarted. A throwing
      callback leads to `OnUnhandledError` with its exception, and only an
      exception of that last callback escapes. `outcome` is how the handler's `WorkAsync` ended
      (`None`: it returned), `handlerEnd` the time it did so and `faultAt`
      the time a throwing `OnSuccessJob` hands back control. `throws`
      names the callbacks that throw, and what. */
  function Execute(outcome: Option<Exc>, handlerEnd: int, faultAt: int, timeout: int,
                   throws: map<Kind, Exc>): (r: Run)
    ensures throws == map[] ==>
      r == Run([Call(OnStarted, None, None), Report(Expected(outcome, handlerEnd, timeout), handlerEnd)], None)
    ensures 2 <= |r.calls| <= 4 && r.calls[0] == Call(OnStarted, None, None)
    ensures forall i :: 0 <= i < |r.calls| && r.calls[i].elapsed.Some? ==>
      r.calls[i].elapsed.value == handlerEnd
    ensures r.escaped.Some? ==> OnUnhandled in throws && r.escaped.value == throws[OnUnhandled]
    ensures OnStarted in throws ==>
      r.calls == [Call(OnStarted, None, None), Call(OnUnhandled, None, Some(throws[OnStarted]))]
    ensures r.calls[|r.calls| - 1].kind == OnUnhandled ==>
      exists k :: k in throws && k != OnUnhandled && r.calls[|r.calls| - 1].exception == Some(throws[k])
  {
    var started := Call(OnStarted, None, None);
    if OnStarted in throws then Unhandled([started], throws[OnStarted], throws)
    else
      match outcome
      case Some(e) => Catch([started], e, Running, handlerEnd, timeout, throws)
      case None =>
        var w := Stop(Running, handlerEnd);
        var success := Call(OnSuccess, Some(w.elapsed), None);
        if OnSuccess in throws then Catch([started, success], throws[OnSuccess], w, faultAt, timeout, throws)
        else Run([started, success], None)
  }

  /** A fault inside `OnSuccessJob` is caught by the inner handler: the run
      reports success and then the error, both with the same `Elapsed`. */
  lemma SuccessFaultReportsError(handlerEnd: int, faultAt: int, timeout: int, code: nat)
    ensures Execute(None, handlerEnd, faultAt, timeout, map[OnSuccess := Fault(code)]).calls
         == [Call(OnStarted, None, None),
             Call(OnSuccess, Some(handlerEnd), None),
             Call(OnError, Some(handlerEnd), Some(Fault(code)))]
  {
  }

  /** A cancellation raised by `OnSuccessJob` is classified by the stopped
      watch, not by the time it was raised: it is a deferral even when it
      comes after the timeout. */
  lemma LateCancelIsDeferral(handlerEnd: int, faultAt: int, timeout: int)
    requires handlerEnd < timeout <= faultAt
    ensures Execute(None, handlerEnd, faultAt, timeout, map[OnSuccess := Canceled]).calls[2].kind == OnDefer
  {
  }
}

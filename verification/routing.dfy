/** The routing decision of the two HTTP front ends of the allocator: the
    host's `WorkerMiddleware` and the web host's `WorkerClientMiddleware`.
    Only the path and method matter; request bodies are reduced to the
    fields the host checks for null. */
module Routing {
  import opened Common
  import Text

  const StatusOk: int := 200
  const StatusBadRequest: int := 400
  const StatusMethodNotAllowed: int := 405

  /** The allocator calls the host can make. */
  datatype Handler = PushTask | Subscribe | WaitTasks | SuccessTask | ErrorTask

  /** Where a request goes: to a handler, answered 405, or on to the next
      middleware. */
  datatype Decision = Handle(handler: Handler) | MethodNotAllowed | Next

  /** The end of a request: passed on to the next middleware, answered
      with a status after calling at most one allocator handler, or left by
      an exception the called handler threw (the middleware catches
      nothing, so no status is set). */
  datatype Outcome = Passed | Answered(status: int, called: Option<Handler>) | Faulted(handler: Handler)

  /** The allocator handler a request reached, if any. */
  function Called(o: Outcome): Option<Handler> {
    match o
    case Passed => None
    case Answered(_, called) => called
    case Faulted(h) => Some(h)
  }

  /** The path each handler is meant to serve. */
  function PathOf(h: Handler): string {
    match h
    case PushTask => "task"
    case Subscribe => "executor/subscribe"
    case WaitTasks => "executor/wait"
    case SuccessTask => "executor/success"
    case ErrorTask => "executor/error"
  }

  /** The paths `WorkerMiddleware` answers. */
  predicate Known(p: string) {
    p in {"task", "executor/subscribe", "executor/wait", "executor/success", "executor/error"}
  }

  /** The host's path: lower-cased, then stripped of leading and trailing
      slashes. The result is a middle part of the lower-cased path, with
      only slashes cut off on either side. */
  function Normalize(path: string): (n: string)
    ensures |n| <= |path|
    ensures forall i :: 0 <= i < |n| ==> !Text.IsUpper(n[i])
    ensures |n| > 0 ==> n[0] != '/' && n[|n| - 1] != '/'
    ensures Text.CutFrom(n, Text.ToLower(path), '/')
  {
    Text.TrimCutFrom(Text.ToLower(path), '/');
    NormalizeNoUpper(path);
    Text.Trim(Text.ToLower(path), '/')
  }

  /** No upper-case letter survives normalization. */
  lemma NormalizeNoUpper(path: string)
    ensures var n := Text.Trim(Text.ToLower(path), '/');
      forall m :: 0 <= m < |n| ==> !Text.IsUpper(n[m])
  {
    var lower := Text.ToLower(path);
    var a := Text.TrimStart(lower, '/');
    var n := Text.TrimEnd(a, '/');
    var i := |lower| - |a|;
    forall m | 0 <= m < |n| ensures !Text.IsUpper(n[m]) {
      assert n[m] == a[m] == lower[i + m];
    }
  }

  /** The handler the host's `switch` runs for a known path, as written:
      the `executor/error` case calls the success handler. */
  function TargetAsWritten(p: string): Handler
    requires Known(p)
  {
    if p == "task" then PushTask
    else if p == "executor/subscribe" then Subscribe
    else if p == "executor/wait" then WaitTasks
    else SuccessTask
  }

  /** The handler for a known path as the path names it, with
      `executor/error` going to the error handler. */
  function Target(p: string): Handler
    requires Known(p)
  {
    if p == "task" then PushTask
    else if p == "executor/subscribe" then Subscribe
    else if p == "executor/wait" then WaitTasks
    else if p == "executor/success" then SuccessTask
    else ErrorTask
  }

  /** `WorkerMiddleware.InvokeAsync`'s decision, as written. */
  function RouteAsWritten(path: string, verb: string): (d: Decision)
    ensures d.Next? <==> !Known(Normalize(path))
    ensures d.MethodNotAllowed? <==> Known(Normalize(path)) && verb != "POST"
    ensures d.Handle? ==> d.handler != ErrorTask
  {
    var p := Normalize(path);
    if !Known(p) then Next
    else if verb != "POST" then MethodNotAllowed
    else Handle(TargetAsWritten(p))
  }

  /** The decision with the error route calling the error handler. */
  function Route(path: string, verb: string): (d: Decision)
    ensures d.Next? <==> !Known(Normalize(path))
    ensures d.MethodNotAllowed? <==> Known(Normalize(path)) && verb != "POST"
  {
    var p := Normalize(path);
    if !Known(p) then Next
    else if verb != "POST" then MethodNotAllowed
    else Handle(Target(p))
  }

  /** A POST reaches a handler exactly when its normalized path is the
      handler's path: every handler is reachable, through one path only. */
  lemma RouteServesPath(path: string, h: Handler)
    ensures Route(path, "POST") == Handle(h) <==> Normalize(path) == PathOf(h)
  {
    var p := Normalize(path);
    PathTarget(h);
    if Known(p) {
      TargetPath(p);
    }
  }

  /** Each known path is the path of the handler it targets. */
  lemma TargetPath(p: string)
    requires Known(p)
    ensures PathOf(Target(p)) == p
  {
  }

  /** Each handler's path is known and targets that handler. */
  lemma PathTarget(h: Handler)
    ensures Known(PathOf(h)) && Target(PathOf(h)) == h
  {
    assert |"task"| == 4 && |"executor/subscribe"| == 18 && |"executor/wait"| == 13;
    assert |"executor/success"| == 16 && |"executor/error"| == 14;
  }

  lemma ErrorPathLower()
    ensures Text.ToLower("/executor/error") == "/executor/error"
  {
    Text.LowerNoUpper("/executor/error");
  }

  lemma ErrorPathTrim()
    ensures Text.Trim("/executor/error", '/') == "executor/error"
  {
    var path := "/executor/error";
    var rest := path[1..];
    assert Text.TrimStart(path, '/') == Text.TrimStart(rest, '/') == rest;
    assert Text.TrimEnd(rest, '/') == rest;
  }

  /** `/executor/error` normalizes to `executor/error`. */
  lemma NormalizeErrorPath()
    ensures Normalize("/executor/error") == "executor/error"
  {
    ErrorPathLower();
    ErrorPathTrim();
  }

  /** The `executor/error` case of the switch calls the success handler. */
  lemma ErrorCaseTarget()
    ensures Known("executor/error") && TargetAsWritten("executor/error") == SuccessTask
  {
    var p := "executor/error";
    assert |p| == 14 && |"task"| == 4 && |"executor/subscribe"| == 18 && |"executor/wait"| == 13;
  }

  /** As written, a POST to `/executor/error` runs the success handler;
      by the contract of `RouteAsWritten` no request reaches the error
      handler. */
  lemma ErrorRouteRunsSuccess()
    ensures RouteAsWritten("/executor/error", "POST") == Handle(SuccessTask)
  {
    NormalizeErrorPath();
    ErrorCaseTarget();
  }

  /** The two decisions differ only on the error route. */
  lemma RoutesAgreeElsewhere(path: string, verb: string)
    requires Normalize(path) != "executor/error"
    ensures RouteAsWritten(path, verb) == Route(path, verb)
  {
  }

  /** Normalizing twice is normalizing once. */
  lemma NormalizeIdempotent(path: string)
    ensures Normalize(Normalize(path)) == Normalize(path)
  {
    var lower := Text.ToLower(path);
    Text.TrimLowerCommute(lower, '/');
    Text.ToLowerIdempotent(path);
    Text.TrimIdempotent(lower, '/');
  }

  /** A path is routed as its normalized form, so case and surrounding
      slashes do not matter. */
  lemma RouteNormalized(path: string, verb: string)
    ensures Route(Normalize(path), verb) == Route(path, verb)
    ensures RouteAsWritten(Normalize(path), verb) == RouteAsWritten(path, verb)
  {
    NormalizeIdempotent(path);
  }

  /** What the body of a request carries that the host checks: the task
      model of a push and the type names of a subscribe. */
  datatype Request = Request(
    path: string,
    verb: string,
    taskModel: Option<TaskModel>,
    typeNames: Option<seq<Option<string>>>)

  /** `InvokeAsync` with the handlers' null checks, given a routing
      decision and whether the allocator call throws: a push without a task
      model or a subscribe without type names is answered 400 without
      calling the allocator; any other handled request calls its handler,
      and is answered 200 when the call returns and faults when it throws. */
  function Dispatch(d: Decision, req: Request, throws: bool): (o: Outcome)
    ensures d.Next? <==> o.Passed?
    ensures d.MethodNotAllowed? ==> o == Answered(StatusMethodNotAllowed, None)
    ensures Called(o).Some? ==> d == Handle(Called(o).value)
    ensures o.Answered? && o.called.Some? ==> o.status == StatusOk && !throws
    ensures o.Faulted? <==> Called(o).Some? && throws
    ensures d == Handle(PushTask) && req.taskModel.None? ==> o == Answered(StatusBadRequest, None)
    ensures d == Handle(Subscribe) && req.typeNames.None? ==> o == Answered(StatusBadRequest, None)
    ensures d.Handle? ==>
      (Called(o) == Some(d.handler) <==>
        (d.handler == PushTask ==> req.taskModel.Some?) && (d.handler == Subscribe ==> req.typeNames.Some?))
  {
    match d
    case Next => Passed
    case MethodNotAllowed => Answered(StatusMethodNotAllowed, None)
    case Handle(h) =>
      if h == PushTask && req.taskModel.None? then Answered(StatusBadRequest, None)
      else if h == Subscribe && req.typeNames.None? then Answered(StatusBadRequest, None)
      else if throws then Faulted(h)
      else Answered(StatusOk, Some(h))
  }

  /** The host middleware on one request with the corrected routing. */
  function InvokeCorrected(req: Request, throws: bool): (o: Outcome)
    ensures o.Passed? <==> !Known(Normalize(req.path))
    ensures Called(o).Some? ==> req.verb == "POST" && PathOf(Called(o).value) == Normalize(req.path)
  {
    var o := Dispatch(Route(req.path, req.verb), req, throws);
    if Called(o).Some? then
      RouteServesPath(req.path, Called(o).value);
      o
    else o
  }

  /** With the corrected routing the host calls the allocator only for a
      POST to a known path whose body passes the null checks, and then
      calls the handler of that path. */
  lemma InvokeCalls(req: Request, h: Handler, throws: bool)
    ensures Called(InvokeCorrected(req, throws)) == Some(h) <==>
      && req.verb == "POST"
      && Normalize(req.path) == PathOf(h)
      && (h == PushTask ==> req.taskModel.Some?)
      && (h == Subscribe ==> req.typeNames.Some?)
  {
    RouteServesPath(req.path, h);
  }

  /** The host middleware on one request, as written. */
  function InvokeAsWritten(req: Request, throws: bool): (o: Outcome)
    ensures o.Passed? <==> !Known(Normalize(req.path))
    ensures Called(o) != Some(ErrorTask)
  {
    Dispatch(RouteAsWritten(req.path, req.verb), req, throws)
  }

  /** As written, a handler other than the success handler is called
      exactly as with the corrected routing; the success handler is also
      reached from the error path, and the error handler never. */
  lemma InvokeAsWrittenCalls(req: Request, h: Handler, throws: bool)
    ensures Called(InvokeAsWritten(req, throws)) == Some(h) <==>
      && h != ErrorTask
      && req.verb == "POST"
      && (Normalize(req.path) == PathOf(h)
          || (h == SuccessTask && Normalize(req.path) == PathOf(ErrorTask)))
      && (h == PushTask ==> req.taskModel.Some?)
      && (h == Subscribe ==> req.typeNames.Some?)
  {
    var p := Normalize(req.path);
    PathTarget(h);
    ErrorCaseTarget();
    if p != "executor/error" {
      RoutesAgreeElsewhere(req.path, req.verb);
      RouteServesPath(req.path, h);
    }
  }

  /** `WorkerClientMiddleware`'s path: stripped of slashes, then
      lower-cased. */
  function ClientNormalize(path: string): string {
    Text.ToLower(Text.Trim(path, '/'))
  }

  /** `WorkerClientMiddleware.InvokeAsync`: the status is set to 200 first;
      only a `pushtask` request that is not a POST gets 405. The next
      middleware is never called, whatever the path. */
  function ClientInvoke(path: string, verb: string): (o: Outcome)
    ensures o.Answered? && Called(o).None?
    ensures o.status == StatusMethodNotAllowed <==> ClientNormalize(path) == "pushtask" && verb != "POST"
    ensures o.status != StatusMethodNotAllowed ==> o.status == StatusOk
  {
    var p := ClientNormalize(path);
    if p == "pushtask" && verb != "POST" then Answered(StatusMethodNotAllowed, None)
    else Answered(StatusOk, None)
  }

  /** Trim-then-lower and lower-then-trim agree, so both middlewares see
      the same path for every request. */
  lemma SameNormalization(path: string)
    ensures ClientNormalize(path) == Normalize(path)
  {
    Text.TrimLowerCommute(path, '/');
  }

  /** `/PushTask/` read with GET is refused with 405; the same path with
      POST is answered 200. */
  lemma PushTaskTrim()
    ensures Text.Trim("/PushTask/", '/') == "PushTask"
  {
    PushTaskTrimStart();
    PushTaskTrimEnd();
  }

  lemma PushTaskTrimStart()
    ensures Text.TrimStart("/PushTask/", '/') == "PushTask/"
  {
    var path := "/PushTask/";
    assert path[1..] == "PushTask/";
    assert Text.TrimStart(path, '/') == Text.TrimStart(path[1..], '/');
  }

  lemma PushTaskTrimEnd()
    ensures Text.TrimEnd("PushTask/", '/') == "PushTask"
  {
    var rest := "PushTask/";
    assert rest[..|rest| - 1] == "PushTask";
    assert Text.TrimEnd(rest, '/') == Text.TrimEnd(rest[..|rest| - 1], '/');
  }

  lemma PushTaskLower()
    ensures Text.ToLower("PushTask") == "pushtask"
  {
    var r := Text.ToLower("PushTask");
    assert |r| == 8;
    assert r[0] == Text.LowerChar('P') == 'p';
    assert r[4] == Text.LowerChar('T') == 't';
    forall i | 0 <= i < 8
      ensures r[i] == "pushtask"[i]
    {
    }
  }

  lemma ClientExamples()
    ensures ClientInvoke("/PushTask/", "GET") == Answered(StatusMethodNotAllowed, None)
    ensures ClientInvoke("/PushTask/", "POST") == Answered(StatusOk, None)
  {
    PushTaskTrim();
    PushTaskLower();
    assert ClientNormalize("/PushTask/") == "pushtask";
  }
}

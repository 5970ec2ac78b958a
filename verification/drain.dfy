/** `FindTasksToExecuteAsync` with `TryTaskWaitingTimeout`: the queue
    drain a wait call performs before it parks. */
module Drain {
  import opened Common
  import MetadataRegistry
  import opened TaskQueue
  import opened ExecutorEntry
  import opened AllocatorState

  /** Treatment of a task whose start timeout has passed but whose
      cancellation in the repository fails. `AsWritten` puts it back in the
      queue and still delivers it; `Corrected` only puts it back, and moves
      on to the next type so the same task is not dequeued again. */
  datatype Policy = AsWritten | Corrected

  /** The task has waited for its start at least `startTimeout` ms; a
      non-positive timeout never expires. */
  predicate StartExpired(startTimeout: int, c: Container, now: int) {
    startTimeout > 0 && now >= c.createdAt + startTimeout
  }

  /** `TryTaskWaitingTimeout`'s test for one dequeued task. */
  predicate Expired(reg: MetadataRegistry.Registry, c: Container, now: int) {
    StartExpired(StartTimeoutOf(reg, c.task.typeId), c, now)
  }

  /** A task the drain cancels: it has expired and its cancellation in the
      repository succeeds. */
  predicate Cancellable(reg: MetadataRegistry.Registry, c: Container, now: int, fails: set<Guid>) {
    Expired(reg, c, now) && c.taskId !in fails
  }

  /** Every task in `s` may be cancelled. */
  predicate AllCancellable(reg: MetadataRegistry.Registry, s: seq<Container>, now: int, fails: set<Guid>) {
    forall c :: c in s ==> Cancellable(reg, c, now, fails)
  }

  /** No task in `s` has passed its start timeout. */
  predicate AllFresh(reg: MetadataRegistry.Registry, s: seq<Container>, now: int) {
    forall c :: c in s ==> !Expired(reg, c, now)
  }

  /** One type's loop in progress: the list to deliver, the tasks cancelled
      for their start timeout, and what is still queued for the type. */
  datatype Pass = Pass(tasks: seq<Container>, cancelled: seq<Container>, pending: seq<Container>)

  /** Size of the list at which the drain stops: `limit`, but at least one,
      because the comparison follows the insertion. */
  function Bound(limit: int): nat {
    if limit > 1 then limit else 1
  }

  /** Nothing lost, nothing duplicated: the three lists of `y` hold exactly
      the tasks the three lists of `x` held. */
  ghost predicate SameTasks(x: Pass, y: Pass) {
    multiset(y.tasks) + multiset(y.cancelled) + multiset(y.pending)
      == multiset(x.tasks) + multiset(x.cancelled) + multiset(x.pending)
  }

  /** The inner `while (TryDequeue(...))` loop over the queue of one type:
      each dequeued task is cancelled when its start timeout has passed,
      otherwise added to the list, and the loop ends once the list reaches
      `bound`. `fails` lists the tasks whose cancellation throws; such a
      task goes back to the tail of the queue. */
  function DrainPending(p: Policy, reg: MetadataRegistry.Registry, x: Pass, now: int,
                        fails: set<Guid>, bound: nat): (r: Pass)
    requires |x.tasks| < bound
    ensures |x.tasks| <= |r.tasks| <= bound
    ensures x.tasks <= r.tasks && x.cancelled <= r.cancelled
    ensures forall c :: c in r.pending ==> c in x.pending
    ensures forall c :: c in r.tasks ==> c in x.tasks || c in x.pending
    decreases bound - |x.tasks|, |x.pending|
  {
    if |x.pending| == 0 then x
    else
      var c := x.pending[0];
      var rest := x.pending[1..];
      if !Expired(reg, c, now) then
        var y := Pass(x.tasks + [c], x.cancelled, rest);
        if |y.tasks| >= bound then y else DrainPending(p, reg, y, now, fails, bound)
      else if c.taskId !in fails then
        DrainPending(p, reg, Pass(x.tasks, x.cancelled + [c], rest), now, fails, bound)
      else
        match p
        case Corrected => Pass(x.tasks, x.cancelled, rest + [c])
        case AsWritten =>
          var y := Pass(x.tasks + [c], x.cancelled, rest + [c]);
          if |y.tasks| >= bound then y else DrainPending(p, reg, y, now, fails, bound)
  }

  /** Every task the loop cancels had passed its start timeout, and its
      cancellation in the repository succeeded. */
  lemma {:induction false} DrainPendingCancelled(p: Policy, reg: MetadataRegistry.Registry, x: Pass,
                                                 now: int, fails: set<Guid>, bound: nat)
    requires |x.tasks| < bound
    requires AllCancellable(reg, x.cancelled, now, fails)
    ensures AllCancellable(reg, DrainPending(p, reg, x, now, fails, bound).cancelled, now, fails)
    decreases bound - |x.tasks|, |x.pending|
  {
    if |x.pending| > 0 {
      var c := x.pending[0];
      var rest := x.pending[1..];
      if !Expired(reg, c, now) {
        var y := Pass(x.tasks + [c], x.cancelled, rest);
        if |y.tasks| < bound {
          DrainPendingCancelled(p, reg, y, now, fails, bound);
        }
      } else if c.taskId !in fails {
        DrainPendingCancelled(p, reg, Pass(x.tasks, x.cancelled + [c], rest), now, fails, bound);
      } else if p == AsWritten {
        var y := Pass(x.tasks + [c], x.cancelled, rest + [c]);
        if |y.tasks| < bound {
          DrainPendingCancelled(p, reg, y, now, fails, bound);
        }
      }
    }
  }

  /** Under `Corrected` every task the loop delivers is within its start
      timeout. */
  lemma {:induction false} DrainPendingFresh(reg: MetadataRegistry.Registry, x: Pass,
                                             now: int, fails: set<Guid>, bound: nat)
    requires |x.tasks| < bound
    requires AllFresh(reg, x.tasks, now)
    ensures AllFresh(reg, DrainPending(Corrected, reg, x, now, fails, bound).tasks, now)
    decreases bound - |x.tasks|, |x.pending|
  {
    if |x.pending| > 0 {
      var c := x.pending[0];
      var rest := x.pending[1..];
      if !Expired(reg, c, now) {
        var y := Pass(x.tasks + [c], x.cancelled, rest);
        if |y.tasks| < bound {
          DrainPendingFresh(reg, y, now, fails, bound);
        }
      } else if c.taskId !in fails {
        DrainPendingFresh(reg, Pass(x.tasks, x.cancelled + [c], rest), now, fails, bound);
      }
    }
  }

  /** Under `Corrected` the loop loses and duplicates no task. */
  lemma {:induction false} DrainPendingConserves(reg: MetadataRegistry.Registry, x: Pass,
                                                 now: int, fails: set<Guid>, bound: nat)
    requires |x.tasks| < bound
    ensures SameTasks(x, DrainPending(Corrected, reg, x, now, fails, bound))
    decreases bound - |x.tasks|, |x.pending|
  {
    if |x.pending| > 0 {
      var c := x.pending[0];
      var rest := x.pending[1..];
      assert x.pending == [c] + rest;
      if !Expired(reg, c, now) {
        var y := Pass(x.tasks + [c], x.cancelled, rest);
        if |y.tasks| < bound {
          DrainPendingConserves(reg, y, now, fails, bound);
        }
      } else if c.taskId !in fails {
        DrainPendingConserves(reg, Pass(x.tasks, x.cancelled + [c], rest), now, fails, bound);
      }
    }
  }

  /** When every cancellation succeeds, the loop stops short of `bound`
      only once the queue of its type is empty. */
  lemma {:induction false} DrainPendingEmpties(p: Policy, reg: MetadataRegistry.Registry, x: Pass,
                                               now: int, fails: set<Guid>, bound: nat)
    requires |x.tasks| < bound && fails == {}
    ensures var r := DrainPending(p, reg, x, now, fails, bound);
      |r.tasks| < bound ==> r.pending == []
    decreases bound - |x.tasks|, |x.pending|
  {
    if |x.pending| > 0 {
      var c := x.pending[0];
      var rest := x.pending[1..];
      if !Expired(reg, c, now) {
        var y := Pass(x.tasks + [c], x.cancelled, rest);
        if |y.tasks| < bound {
          DrainPendingEmpties(p, reg, y, now, fails, bound);
        }
      } else {
        DrainPendingEmpties(p, reg, Pass(x.tasks, x.cancelled + [c], rest), now, fails, bound);
      }
    }
  }

  /** FIFO: when no pending task has expired, the loop takes the longest
      prefix of the queue that fits, in queue order, and leaves the rest. */
  lemma {:induction false} DrainPendingFifo(p: Policy, reg: MetadataRegistry.Registry, x: Pass,
                                            now: int, fails: set<Guid>, bound: nat)
    requires |x.tasks| < bound
    requires AllFresh(reg, x.pending, now)
    ensures var k := if bound - |x.tasks| < |x.pending| then bound - |x.tasks| else |x.pending|;
      DrainPending(p, reg, x, now, fails, bound)
        == Pass(x.tasks + x.pending[..k], x.cancelled, x.pending[k..])
    decreases |x.pending|
  {
    if |x.pending| > 0 {
      var c := x.pending[0];
      var rest := x.pending[1..];
      var y := Pass(x.tasks + [c], x.cancelled, rest);
      var k := if bound - |x.tasks| < |x.pending| then bound - |x.tasks| else |x.pending|;
      assert c in x.pending;
      DrainPendingFreshStep(p, reg, x, now, fails, bound);
      SplitAfterHead(x.tasks, x.pending, k);
      if |y.tasks| < bound {
        assert AllFresh(reg, rest, now) by {
          forall d | d in rest ensures !Expired(reg, d, now) {
            assert d in x.pending;
          }
        }
        DrainPendingFifo(p, reg, y, now, fails, bound);
        assert DrainPending(p, reg, x, now, fails, bound) == DrainPending(p, reg, y, now, fails, bound);
      } else {
        assert k == 1;
      }
    }
  }

  /** One step of the loop on a fresh head task: it is moved to the
      output. */
  lemma DrainPendingFreshStep(p: Policy, reg: MetadataRegistry.Registry, x: Pass,
                              now: int, fails: set<Guid>, bound: nat)
    requires |x.tasks| < bound && |x.pending| > 0 && !Expired(reg, x.pending[0], now)
    ensures var y := Pass(x.tasks + [x.pending[0]], x.cancelled, x.pending[1..]);
      DrainPending(p, reg, x, now, fails, bound)
        == if |y.tasks| >= bound then y else DrainPending(p, reg, y, now, fails, bound)
  {
  }

  /** Taking `k` elements of `s` is taking its head and then `k - 1` of
      the rest. */
  lemma SplitAfterHead<T>(a: seq<T>, s: seq<T>, k: nat)
    requires 1 <= k <= |s|
    ensures a + s[..k] == (a + [s[0]]) + s[1..][..k - 1]
    ensures s[k..] == s[1..][k - 1..]
  {
    assert s[..k] == [s[0]] + s[1..][..k - 1];
  }

  /** Drain progress over several types. */
  datatype Drained = Drained(tasks: seq<Container>, cancelled: seq<Container>, queue: Queue)

  /** One type's loop applied to the queue of `t`. */
  function DrainType(p: Policy, reg: MetadataRegistry.Registry, d: Drained, t: TypeId,
                     now: int, fails: set<Guid>, bound: nat): (r: Drained)
    requires TaskQueue.Valid(d.queue) && HasTaskType(d.queue, t) && |d.tasks| < bound
    ensures TaskQueue.Valid(r.queue) && r.queue.types == d.queue.types
    ensures r.queue.queues.Keys == d.queue.queues.Keys
    ensures |d.tasks| <= |r.tasks| <= bound
    ensures d.tasks <= r.tasks && d.cancelled <= r.cancelled
    ensures forall u :: u != t && u in d.queue.queues ==> r.queue.queues[u] == d.queue.queues[u]
    ensures forall c :: c in r.queue.queues[t] ==> c in d.queue.queues[t]
    ensures forall c :: c in r.tasks ==> c in d.tasks || c in d.queue.queues[t]
    ensures forall c :: c in r.tasks ==> c in d.tasks || c.task.typeId == t
  {
    var x := Pass(d.tasks, d.cancelled, d.queue.queues[t]);
    var r := DrainPending(p, reg, x, now, fails, bound);
    Drained(r.tasks, r.cancelled, Replace(d.queue, t, r.pending))
  }

  /** The tasks one type's loop cancels had all expired, and their
      cancellation succeeded. */
  lemma DrainTypeCancelled(p: Policy, reg: MetadataRegistry.Registry, d: Drained, t: TypeId,
                           now: int, fails: set<Guid>, bound: nat)
    requires TaskQueue.Valid(d.queue) && HasTaskType(d.queue, t) && |d.tasks| < bound
    requires AllCancellable(reg, d.cancelled, now, fails)
    ensures AllCancellable(reg, DrainType(p, reg, d, t, now, fails, bound).cancelled, now, fails)
  {
    DrainPendingCancelled(p, reg, Pass(d.tasks, d.cancelled, d.queue.queues[t]), now, fails, bound);
  }

  /** Under `Corrected` one type's loop delivers only fresh tasks. */
  lemma DrainTypeFresh(reg: MetadataRegistry.Registry, d: Drained, t: TypeId,
                       now: int, fails: set<Guid>, bound: nat)
    requires TaskQueue.Valid(d.queue) && HasTaskType(d.queue, t) && |d.tasks| < bound
    requires AllFresh(reg, d.tasks, now)
    ensures AllFresh(reg, DrainType(Corrected, reg, d, t, now, fails, bound).tasks, now)
  {
    DrainPendingFresh(reg, Pass(d.tasks, d.cancelled, d.queue.queues[t]), now, fails, bound);
  }

  /** All the tasks of a drain in progress: delivered, cancelled and still
      queued. */
  ghost function AllTasks(d: Drained): multiset<Container> {
    multiset(d.tasks) + multiset(d.cancelled) + Queued(d.queue)
  }

  /** Under `Corrected` one type's loop keeps every task accounted for:
      queued, delivered or cancelled, with none lost or duplicated. */
  lemma DrainTypeConserves(reg: MetadataRegistry.Registry, d: Drained, t: TypeId,
                           now: int, fails: set<Guid>, bound: nat)
    requires TaskQueue.Valid(d.queue) && HasTaskType(d.queue, t) && |d.tasks| < bound
    ensures AllTasks(DrainType(Corrected, reg, d, t, now, fails, bound)) == AllTasks(d)
  {
    var x := Pass(d.tasks, d.cancelled, d.queue.queues[t]);
    var r := DrainPending(Corrected, reg, x, now, fails, bound);
    DrainPendingConserves(reg, x, now, fails, bound);
    ContentsUpdate(d.queue.types, d.queue.queues, t, r.pending);
    Rebalance(multiset(r.tasks) + multiset(r.cancelled), multiset(d.tasks) + multiset(d.cancelled),
              Queued(Replace(d.queue, t, r.pending)), Queued(d.queue),
              multiset(d.queue.queues[t]), multiset(r.pending));
  }

  /** A drain's tasks, counted: conservation of the multiset implies the
      queue counter plus the two lists is unchanged. */
  lemma AllTasksCount(d: Drained)
    requires TaskQueue.Valid(d.queue)
    ensures |AllTasks(d)| == Count(d.queue) + |d.tasks| + |d.cancelled|
  {
    ContentsSize(d.queue.types, d.queue.queues);
  }

  /** When every cancellation succeeds, one type's loop stops short of
      `bound` only after emptying that type's queue. */
  lemma DrainTypeEmpties(p: Policy, reg: MetadataRegistry.Registry, d: Drained, t: TypeId,
                         now: int, fails: set<Guid>, bound: nat)
    requires TaskQueue.Valid(d.queue) && HasTaskType(d.queue, t) && |d.tasks| < bound
    requires fails == {}
    ensures var r := DrainType(p, reg, d, t, now, fails, bound);
      |r.tasks| < bound ==> r.queue.queues[t] == []
  {
    DrainPendingEmpties(p, reg, Pass(d.tasks, d.cancelled, d.queue.queues[t]), now, fails, bound);
  }

  /** A drain step keeps the set of queues, so the remaining types still
      have one. */
  lemma TypesStillQueued(d: Drained, d1: Drained, types: seq<TypeId>)
    requires |types| > 0
    requires forall t :: t in types ==> HasTaskType(d.queue, t)
    requires d1.queue.queues.Keys == d.queue.queues.Keys
    ensures forall t :: t in types[1..] ==> HasTaskType(d1.queue, t)
  {
    forall t | t in types[1..] ensures HasTaskType(d1.queue, t) {
      assert t in types;
      assert t in d.queue.queues.Keys;
    }
  }

  /** The outer loop over the executor's types: after each type the drain
      stops once the list has reached `limit`. */
  function DrainTypes(p: Policy, reg: MetadataRegistry.Registry, d: Drained, types: seq<TypeId>,
                      now: int, fails: set<Guid>, limit: int): (r: Drained)
    requires TaskQueue.Valid(d.queue) && |d.tasks| < Bound(limit)
    requires forall t :: t in types ==> HasTaskType(d.queue, t)
    ensures TaskQueue.Valid(r.queue) && r.queue.types == d.queue.types
    ensures r.queue.queues.Keys == d.queue.queues.Keys
    ensures |d.tasks| <= |r.tasks| <= Bound(limit)
    ensures d.tasks <= r.tasks && d.cancelled <= r.cancelled
    ensures forall u :: u !in types && u in d.queue.queues ==> r.queue.queues[u] == d.queue.queues[u]
    ensures forall c :: c in r.tasks ==> c in d.tasks || c.task.typeId in types
    decreases |types|
  {
    if |types| == 0 then d
    else
      var d1 := DrainType(p, reg, d, types[0], now, fails, Bound(limit));
      if |d1.tasks| >= limit then d1
      else
        TypesStillQueued(d, d1, types);
        var r := DrainTypes(p, reg, d1, types[1..], now, fails, limit);
        r
  }

  /** Every task the drain cancels had expired, and its cancellation
      succeeded. */
  lemma {:induction false} DrainTypesCancelled(p: Policy, reg: MetadataRegistry.Registry, d: Drained,
                                               types: seq<TypeId>, now: int, fails: set<Guid>, limit: int)
    requires TaskQueue.Valid(d.queue) && |d.tasks| < Bound(limit)
    requires forall t :: t in types ==> HasTaskType(d.queue, t)
    requires AllCancellable(reg, d.cancelled, now, fails)
    ensures AllCancellable(reg, DrainTypes(p, reg, d, types, now, fails, limit).cancelled, now, fails)
    decreases |types|
  {
    if |types| > 0 {
      var d1 := DrainType(p, reg, d, types[0], now, fails, Bound(limit));
      DrainTypeCancelled(p, reg, d, types[0], now, fails, Bound(limit));
      if |d1.tasks| < limit {
        TypesStillQueued(d, d1, types);
        DrainTypesCancelled(p, reg, d1, types[1..], now, fails, limit);
      }
    }
  }

  /** Under `Corrected` every task the drain delivers is fresh. */
  lemma {:induction false} DrainTypesFresh(reg: MetadataRegistry.Registry, d: Drained,
                                           types: seq<TypeId>, now: int, fails: set<Guid>, limit: int)
    requires TaskQueue.Valid(d.queue) && |d.tasks| < Bound(limit)
    requires forall t :: t in types ==> HasTaskType(d.queue, t)
    requires AllFresh(reg, d.tasks, now)
    ensures AllFresh(reg, DrainTypes(Corrected, reg, d, types, now, fails, limit).tasks, now)
    decreases |types|
  {
    if |types| > 0 {
      var d1 := DrainType(Corrected, reg, d, types[0], now, fails, Bound(limit));
      DrainTypeFresh(reg, d, types[0], now, fails, Bound(limit));
      if |d1.tasks| < limit {
        TypesStillQueued(d, d1, types);
        DrainTypesFresh(reg, d1, types[1..], now, fails, limit);
      }
    }
  }

  /** Under `Corrected` the drain keeps every task accounted for: each one
      is delivered, cancelled or still queued, exactly as often as before. */
  lemma {:induction false} DrainTypesConserves(reg: MetadataRegistry.Registry, d: Drained,
                                               types: seq<TypeId>, now: int, fails: set<Guid>, limit: int)
    requires TaskQueue.Valid(d.queue) && |d.tasks| < Bound(limit)
    requires forall t :: t in types ==> HasTaskType(d.queue, t)
    ensures AllTasks(DrainTypes(Corrected, reg, d, types, now, fails, limit)) == AllTasks(d)
    decreases |types|
  {
    if |types| > 0 {
      var d1 := DrainType(Corrected, reg, d, types[0], now, fails, Bound(limit));
      DrainTypeConserves(reg, d, types[0], now, fails, Bound(limit));
      if |d1.tasks| < limit {
        TypesStillQueued(d, d1, types);
        DrainTypesConserves(reg, d1, types[1..], now, fails, limit);
      }
    }
  }

  /** Every task the drain delivers was already in the list, or was queued
      under one of the drained types. */
  lemma {:induction false} DrainTypesOrigin(p: Policy, reg: MetadataRegistry.Registry, d: Drained,
                                            types: seq<TypeId>, now: int, fails: set<Guid>, limit: int)
    requires TaskQueue.Valid(d.queue) && |d.tasks| < Bound(limit)
    requires forall t :: t in types ==> HasTaskType(d.queue, t)
    ensures forall c :: c in DrainTypes(p, reg, d, types, now, fails, limit).tasks ==>
      || c in d.tasks
      || (c.task.typeId in types && c.task.typeId in d.queue.queues && c in d.queue.queues[c.task.typeId])
    decreases |types|
  {
    if |types| > 0 {
      var t0 := types[0];
      var d1 := DrainType(p, reg, d, t0, now, fails, Bound(limit));
      if |d1.tasks| < limit {
        TypesStillQueued(d, d1, types);
        DrainTypesOrigin(p, reg, d1, types[1..], now, fails, limit);
        var r := DrainTypes(p, reg, d1, types[1..], now, fails, limit);
        assert DrainTypes(p, reg, d, types, now, fails, limit) == r;
        forall c | c in r.tasks && c !in d.tasks
          ensures c.task.typeId in types && c.task.typeId in d.queue.queues && c in d.queue.queues[c.task.typeId]
        {
          var u := c.task.typeId;
          if c !in d1.tasks {
            assert u in types[1..] && c in d1.queue.queues[u];
            if u != t0 {
              assert d1.queue.queues[u] == d.queue.queues[u];
            }
          }
        }
      }
    }
  }

  /** When every cancellation succeeds, a drain that delivers fewer than
      `limit` tasks has emptied the queue of every drained type. */
  lemma {:induction false} DrainTypesEmpties(p: Policy, reg: MetadataRegistry.Registry, d: Drained,
                                             types: seq<TypeId>, now: int, fails: set<Guid>, limit: int)
    requires TaskQueue.Valid(d.queue) && |d.tasks| < Bound(limit)
    requires forall t :: t in types ==> HasTaskType(d.queue, t)
    requires fails == {}
    ensures var r := DrainTypes(p, reg, d, types, now, fails, limit);
      |r.tasks| < limit ==> forall t :: t in types ==> r.queue.queues[t] == []
    decreases |types|
  {
    if |types| > 0 {
      var t0 := types[0];
      var d1 := DrainType(p, reg, d, t0, now, fails, Bound(limit));
      DrainTypeEmpties(p, reg, d, t0, now, fails, Bound(limit));
      if |d1.tasks| < limit {
        TypesStillQueued(d, d1, types);
        DrainTypesEmpties(p, reg, d1, types[1..], now, fails, limit);
        var r := DrainTypes(p, reg, d1, types[1..], now, fails, limit);
        assert DrainTypes(p, reg, d, types, now, fails, limit) == r;
        forall t | t in types && |r.tasks| < limit ensures r.queue.queues[t] == [] {
          if t != t0 {
            assert t in types[1..];
          }
        }
      }
    }
  }

  /** The drain for executor entry `e`, under either policy. */
  function FindTasksWith(p: Policy, s: State, e: Executor, now: int, fails: set<Guid>): (r: Drained)
    requires TaskQueue.Valid(s.queue)
    requires forall t :: t in e.supported ==> HasTaskType(s.queue, t)
  {
    DrainTypes(p, s.registry, Drained([], [], s.queue), e.supported, now, fails,
               s.maxTasks - CountExecuting(e))
  }

  /** The drain with a failed cancellation handled as intended. It delivers
      at most `maxTasks - executing` tasks, but at least room for one, each
      taken from the queue of a supported type and within its start
      timeout; every cancelled task had expired; every task is still
      accounted for, delivered, cancelled or queued, with none lost or
      duplicated; queues of types the executor does not accept are
      untouched; and when every cancellation succeeds, a drain that stops
      short of the limit has emptied every supported queue. */
  function FindTasks(s: State, e: Executor, now: int, fails: set<Guid>): (r: Drained)
    requires TaskQueue.Valid(s.queue)
    requires forall t :: t in e.supported ==> HasTaskType(s.queue, t)
    ensures TaskQueue.Valid(r.queue) && r.queue.types == s.queue.types
    ensures r.queue.queues.Keys == s.queue.queues.Keys
    ensures |r.tasks| <= Bound(s.maxTasks - CountExecuting(e))
    ensures multiset(r.tasks) + multiset(r.cancelled) + Queued(r.queue) == Queued(s.queue)
    ensures Count(r.queue) + |r.tasks| + |r.cancelled| == Count(s.queue)
    ensures forall c :: c in r.tasks ==>
      Supports(e, c.task.typeId) && c.task.typeId in s.queue.queues && c in s.queue.queues[c.task.typeId]
    ensures AllFresh(s.registry, r.tasks, now)
    ensures AllCancellable(s.registry, r.cancelled, now, fails)
    ensures forall u :: !Supports(e, u) && u in s.queue.queues ==> r.queue.queues[u] == s.queue.queues[u]
    ensures fails == {} && |r.tasks| < s.maxTasks - CountExecuting(e) ==>
      forall t :: Supports(e, t) ==> t in r.queue.queues && r.queue.queues[t] == []
  {
    FindTasksFacts(s, e, now, fails);
    FindTasksEmpties(s, e, now, fails);
    FindTasksWith(Corrected, s, e, now, fails)
  }

  /** With every cancellation succeeding, a drain short of the limit has
      emptied every supported queue. */
  lemma FindTasksEmpties(s: State, e: Executor, now: int, fails: set<Guid>)
    requires TaskQueue.Valid(s.queue)
    requires forall t :: t in e.supported ==> HasTaskType(s.queue, t)
    ensures var r := FindTasksWith(Corrected, s, e, now, fails);
      fails == {} && |r.tasks| < s.maxTasks - CountExecuting(e) ==>
        forall t :: t in e.supported ==> r.queue.queues[t] == []
  {
    var d := Drained([], [], s.queue);
    var limit := s.maxTasks - CountExecuting(e);
    assert FindTasksWith(Corrected, s, e, now, fails) == DrainTypes(Corrected, s.registry, d, e.supported, now, fails, limit);
    if fails == {} {
      DrainTypesEmpties(Corrected, s.registry, d, e.supported, now, fails, limit);
    }
  }

  /** The facts `FindTasks` promises, proved about the corrected drain. */
  lemma FindTasksFacts(s: State, e: Executor, now: int, fails: set<Guid>)
    requires TaskQueue.Valid(s.queue)
    requires forall t :: t in e.supported ==> HasTaskType(s.queue, t)
    ensures var r := FindTasksWith(Corrected, s, e, now, fails);
      && AllTasks(r) == Queued(s.queue)
      && Count(r.queue) + |r.tasks| + |r.cancelled| == Count(s.queue)
      && (forall c :: c in r.tasks ==> c.task.typeId in e.supported && c.task.typeId in s.queue.queues
                                       && c in s.queue.queues[c.task.typeId])
      && AllFresh(s.registry, r.tasks, now)
      && AllCancellable(s.registry, r.cancelled, now, fails)
  {
    var d := Drained([], [], s.queue);
    var limit := s.maxTasks - CountExecuting(e);
    DrainTypesCancelled(Corrected, s.registry, d, e.supported, now, fails, limit);
    DrainTypesFresh(s.registry, d, e.supported, now, fails, limit);
    DrainTypesConserves(s.registry, d, e.supported, now, fails, limit);
    DrainTypesOrigin(Corrected, s.registry, d, e.supported, now, fails, limit);
    var r := FindTasksWith(Corrected, s, e, now, fails);
    AllTasksCount(r);
    AllTasksCount(d);
    assert AllTasks(d) == Queued(s.queue);
  }

  /** Partner of `FindTasks`: with room for at least one task and every
      cancellation succeeding, the drain delivers something exactly when a
      supported queue holds a task within its start timeout. */
  lemma FindTasksNonEmpty(s: State, e: Executor, now: int, fails: set<Guid>)
    requires TaskQueue.Valid(s.queue)
    requires forall t :: t in e.supported ==> HasTaskType(s.queue, t)
    requires fails == {} && s.maxTasks - CountExecuting(e) > 0
    ensures FindTasks(s, e, now, fails).tasks != [] <==>
      exists t, c :: Supports(e, t) && t in s.queue.queues && c in s.queue.queues[t]
                     && !Expired(s.registry, c, now)
  {
    var r := FindTasks(s, e, now, fails);
    if r.tasks != [] {
      var c := r.tasks[0];
      assert c in r.tasks;
    }
    forall t, c | Supports(e, t) && t in s.queue.queues && c in s.queue.queues[t] && r.tasks == []
      ensures Expired(s.registry, c, now)
    {
      ContentsMember(s.queue.types, s.queue.queues, c);
      assert c.task.typeId == t;
      LeftQueued(r.queue, t, c);
      EmptyDrainCancelled(Queued(s.queue), r, c);
      assert Cancellable(s.registry, c, now, fails);
    }
  }

  /** A task of a type whose queue is empty is not queued. */
  lemma LeftQueued(q: Queue, t: TypeId, c: Container)
    requires TaskQueue.Valid(q) && t in q.queues && q.queues[t] == [] && c.task.typeId == t
    ensures c !in Queued(q)
  {
    ContentsMember(q.types, q.queues, c);
  }

  /** A drain that delivers nothing has cancelled every task it no longer
      holds in a queue. */
  lemma EmptyDrainCancelled(before: multiset<Container>, r: Drained, c: Container)
    requires AllTasks(r) == before && r.tasks == []
    requires c in before && c !in Queued(r.queue)
    ensures c in r.cancelled
  {
    assert AllTasks(r)[c] == multiset(r.cancelled)[c] + Queued(r.queue)[c];
  }

  /** With no task queued twice, the corrected drain delivers each task at
      most once and none that it leaves in a queue. */
  lemma FindTasksDeliversOnce(s: State, e: Executor, now: int, fails: set<Guid>)
    requires TaskQueue.Valid(s.queue)
    requires forall t :: t in e.supported ==> HasTaskType(s.queue, t)
    requires NoRepeats(Queued(s.queue))
    ensures var r := FindTasks(s, e, now, fails);
      && Distinct(r.tasks)
      && forall t, c :: t in r.queue.queues && c in r.queue.queues[t] ==> c !in r.tasks
  {
    var r := FindTasks(s, e, now, fails);
    assert NoRepeats(multiset(r.tasks)) by {
      forall x ensures multiset(r.tasks)[x] <= 1 {
        assert (multiset(r.tasks) + multiset(r.cancelled) + Queued(r.queue))[x] <= 1;
      }
    }
    NoRepeatsDistinct(r.tasks);
    forall t, c | t in r.queue.queues && c in r.queue.queues[t] ensures c !in r.tasks {
      ContentsMember(r.queue.types, r.queue.queues, c);
      assert (multiset(r.tasks) + multiset(r.cancelled) + Queued(r.queue))[c] <= 1;
    }
  }

  /** The drain as the source writes it: same bound, but a task whose
      cancellation fails is both re-queued and delivered. */
  function FindTasksAsWritten(s: State, e: Executor, now: int, fails: set<Guid>): (r: Drained)
    requires TaskQueue.Valid(s.queue)
    requires forall t :: t in e.supported ==> HasTaskType(s.queue, t)
    ensures TaskQueue.Valid(r.queue) && r.queue.types == s.queue.types
    ensures r.queue.queues.Keys == s.queue.queues.Keys
    ensures |r.tasks| <= Bound(s.maxTasks - CountExecuting(e))
    ensures forall c :: c in r.tasks ==> Supports(e, c.task.typeId)
    ensures AllCancellable(s.registry, r.cancelled, now, fails)
  {
    DrainTypesCancelled(AsWritten, s.registry, Drained([], [], s.queue), e.supported, now, fails,
                        s.maxTasks - CountExecuting(e));
    FindTasksWith(AsWritten, s, e, now, fails)
  }

  /** At or over capacity the drain still hands out one task: with
      `maxTasks - executing <= 0`, a fresh task at the head of the first
      supported type's queue is delivered, and nothing more. */
  lemma DeliversOneAtCapacity(s: State, e: Executor, now: int, fails: set<Guid>)
    requires TaskQueue.Valid(s.queue)
    requires forall t :: t in e.supported ==> HasTaskType(s.queue, t)
    requires s.maxTasks - CountExecuting(e) <= 0
    requires |e.supported| > 0 && HasTaskType(s.queue, e.supported[0])
    requires s.queue.queues[e.supported[0]] != []
    requires !Expired(s.registry, s.queue.queues[e.supported[0]][0], now)
    ensures FindTasks(s, e, now, fails).tasks == [s.queue.queues[e.supported[0]][0]]
  {
  }

  /** Counterexample for the as-written drain: a single expired task whose
      cancellation fails, with room for two, is delivered twice and is
      still queued; the corrected drain delivers nothing and keeps it
      queued. */
  lemma AsWrittenDeliversTwice(s: State, e: Executor, c: Container, now: int)
    requires TaskQueue.Valid(s.queue)
    requires e.supported == [c.task.typeId] && HasTaskType(s.queue, c.task.typeId)
    requires s.queue.queues[c.task.typeId] == [c]
    requires s.maxTasks - CountExecuting(e) == 2
    requires Expired(s.registry, c, now)
    ensures var r := FindTasksAsWritten(s, e, now, {c.taskId});
      r.tasks == [c, c] && r.queue.queues[c.task.typeId] == [c]
    ensures var r := FindTasks(s, e, now, {c.taskId});
      r.tasks == [] && r.queue.queues[c.task.typeId] == [c]
  {
    StuckTaskAsWritten(s.registry, c, now);
    StuckTaskCorrected(s.registry, c, now);
    var t := c.task.typeId;
    var d := Drained([], [], s.queue);
    var d1 := DrainType(Corrected, s.registry, d, t, now, {c.taskId}, 2);
    assert d1.tasks == [] && d1.queue.queues[t] == [c];
    assert DrainTypes(Corrected, s.registry, d1, [], now, {c.taskId}, 2) == d1;
    assert DrainTypes(Corrected, s.registry, d, [t], now, {c.taskId}, 2) == d1;
  }

  /** The loop as written on a lone expired task whose cancellation
      fails, with room for two. */
  lemma StuckTaskAsWritten(reg: MetadataRegistry.Registry, c: Container, now: int)
    requires Expired(reg, c, now)
    ensures DrainPending(AsWritten, reg, Pass([], [], [c]), now, {c.taskId}, 2) == Pass([c, c], [], [c])
  {
    assert DrainPending(AsWritten, reg, Pass([], [], [c]), now, {c.taskId}, 2)
        == DrainPending(AsWritten, reg, Pass([c], [], [c]), now, {c.taskId}, 2);
  }

  /** The corrected loop on the same task leaves it queued. */
  lemma StuckTaskCorrected(reg: MetadataRegistry.Registry, c: Container, now: int)
    requires Expired(reg, c, now)
    ensures DrainPending(Corrected, reg, Pass([], [], [c]), now, {c.taskId}, 2) == Pass([], [], [c])
  {
  }
}

/** A parked `WaitTasks` call of one executor, in the two revisions of the
    allocator: the current one completes a single-assignment result slot,
    the older one collects commands until its cancellation fires. */
module Waiting {
  import opened Common
  import opened TaskQueue

  /** Current revision: the task completion source of the parked call.
      `None` while the call is still pending. */
  datatype Slot = Slot(result: Option<seq<Container>>)

  const Pending: Slot := Slot(None)

  /** Outcome of `SendTask`: whether this call set the result. */
  datatype Sent = Sent(ok: bool, slot: Slot)

  /** `SendTask`: completes a pending slot with the one task; a completed
      slot is left alone and the call reports failure. */
  function SendTask(w: Slot, c: Container): (r: Sent)
    ensures r.ok <==> w.result.None?
    ensures r.ok ==> r.slot.result == Some([c])
    ensures !r.ok ==> r.slot == w
  {
    if w.result.None? then Sent(true, Slot(Some([c]))) else Sent(false, w)
  }

  /** `End`: completes a pending slot with no task; a completed slot is
      left alone. */
  function End(w: Slot): (r: Slot)
    ensures w.result.None? ==> r.result == Some([])
    ensures w.result.Some? ==> r == w
  {
    if w.result.None? then Slot(Some([])) else w
  }

  /** First writer wins: once either `SendTask` or `End` completed the slot,
      no later call changes the result the parked call receives. */
  lemma FirstWriterWins(c: Container, d: Container)
    ensures var s := SendTask(Pending, c).slot;
      && SendTask(s, d) == Sent(false, s)
      && End(s) == s
      && s.result == Some([c])
    ensures var e := End(Pending);
      && SendTask(e, d) == Sent(false, e)
      && End(e) == e
      && e.result == Some([])
  {
  }

  /** Older revision: the commands collected so far and whether the
      waiting's cancellation has been requested. */
  datatype Collector = Collector(commands: seq<Container>, cancelled: bool)

  const Fresh: Collector := Collector([], false)

  /** Outcome of `TryAddCommandToExecuting`. */
  datatype Accepted = Accepted(ok: bool, collector: Collector)

  /** `TryAddCommandToExecuting`: refused once cancellation is requested;
      otherwise the command is added and the waiting cancels itself. */
  function TryAddCommand(w: Collector, c: Container): (r: Accepted)
    ensures r.ok <==> !w.cancelled
    ensures !r.ok ==> r.collector == w
    ensures r.ok ==> r.collector == Collector(w.commands + [c], true)
  {
    if w.cancelled then Accepted(false, w)
    else Accepted(true, Collector(w.commands + [c], true))
  }

  /** A timeout or caller cancellation of the waiting. */
  function Cancel(w: Collector): (r: Collector)
    ensures r.cancelled && r.commands == w.commands
  {
    w.(cancelled := true)
  }

  /** Result of the older `WaitCommands` once the waiting is cancelled:
      the commands if any were collected, `None` for the empty case. */
  function Collected(w: Collector): (r: Option<seq<Container>>)
    ensures r.Some? <==> |w.commands| > 0
    ensures r.Some? ==> r.value == w.commands
  {
    if |w.commands| > 0 then Some(w.commands) else None
  }

  /** A waiting accepts at most one command: after the first acceptance
      every later offer is refused, whatever else happens to it. */
  lemma AcceptsAtMostOne(w: Collector, c: Container, d: Container)
    requires w == Fresh
    ensures var a := TryAddCommand(w, c);
      && a.ok
      && TryAddCommand(a.collector, d) == Accepted(false, a.collector)
      && TryAddCommand(Cancel(a.collector), d).ok == false
      && Collected(a.collector) == Some([c])
  {
    var a := TryAddCommand(w, c);
    assert a.collector.commands == [c];
  }

  /** A waiting cancelled before any offer collects nothing and refuses
      every later offer. */
  lemma CancelledCollectsNothing(c: Container)
    ensures var w := Cancel(Fresh);
      !TryAddCommand(w, c).ok && Collected(w) == None
  {
  }
}

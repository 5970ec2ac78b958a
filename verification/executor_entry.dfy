/** The allocator's record of one connected executor: the task types it
    accepts and the tasks currently assigned to it. */
module ExecutorEntry {
  import opened Common
  import opened TaskQueue

  /** `supported` keeps the constructor's types without repeats, in order of
      first occurrence (the source stores them in a hash set); `tasks` maps
      each assigned task id to its container. */
  datatype Executor = Executor(id: Guid, supported: seq<TypeId>, tasks: map<Guid, Container>)

  /** `s` without repeated elements, each kept at its first occurrence. */
  function Dedup(s: seq<TypeId>): (r: seq<TypeId>)
    ensures Distinct(r)
    ensures forall x :: x in r <==> x in s
    ensures |r| <= |s|
  {
    if |s| == 0 then []
    else
      var init := s[..|s| - 1];
      var d := Dedup(init);
      var x := s[|s| - 1];
      assert s == init + [x];
      if x in d then d else d + [x]
  }

  /** A list without repeats is its own deduplication. */
  lemma {:induction false} DedupOfDistinct(s: seq<TypeId>)
    requires Distinct(s)
    ensures Dedup(s) == s
  {
    if |s| > 0 {
      var init := s[..|s| - 1];
      DedupOfDistinct(init);
      assert s[|s| - 1] !in init;
      assert init + [s[|s| - 1]] == s;
    }
  }

  /** The constructor: a null or empty type list throws. */
  function New(id: Guid, types: Option<seq<TypeId>>): (r: Result<Executor, Error>)
    ensures r.Ok? <==> types.Some? && |types.value| > 0
    ensures r.Err? ==> r.error == InvalidArgument
    ensures r.Ok? ==>
      && r.value.id == id
      && CountExecuting(r.value) == 0
      && Distinct(r.value.supported)
      && forall t :: Supports(r.value, t) <==> t in types.value
  {
    match types
    case None => Err(InvalidArgument)
    case Some(ts) =>
      if |ts| == 0 then Err(InvalidArgument)
      else Ok(Executor(id, Dedup(ts), map[]))
  }

  /** The entry restoring creates for an executor id found in a stored
      task: it accepts no type and holds no task. */
  function NewRestored(id: Guid): (r: Executor)
    ensures r.id == id && CountExecuting(r) == 0
    ensures forall t :: !Supports(r, t)
  {
    Executor(id, [], map[])
  }

  /** `IsSupportCommandType`. */
  predicate Supports(e: Executor, t: TypeId) {
    t in e.supported
  }

  /** `CountExecutingCommands`. */
  function CountExecuting(e: Executor): nat {
    |e.tasks|
  }

  /** Assigns a task; an id already assigned throws and changes nothing. */
  function AddCommand(e: Executor, c: Container): (r: Result<Executor, Error>)
    ensures r.Ok? <==> c.taskId !in e.tasks
    ensures r.Err? ==> r.error == InvalidOperation
    ensures r.Ok? ==>
      && r.value.id == e.id && r.value.supported == e.supported
      && r.value.tasks == e.tasks[c.taskId := c]
      && CountExecuting(r.value) == CountExecuting(e) + 1
  {
    if c.taskId in e.tasks then Err(InvalidOperation)
    else Ok(e.(tasks := e.tasks[c.taskId := c]))
  }

  /** Result of `TryRemoveCommand`: the container removed, if any, and the
      entry after. */
  datatype Removed = Removed(item: Option<Container>, executor: Executor)

  /** Unassigns a task: a present id is removed and its container returned;
      an absent one gives nothing and changes nothing. */
  function TryRemoveCommand(e: Executor, taskId: Guid): (r: Removed)
    ensures r.item.Some? <==> taskId in e.tasks
    ensures r.item.None? ==> r.executor == e
    ensures r.item.Some? ==>
      && r.item.value == e.tasks[taskId]
      && r.executor.id == e.id && r.executor.supported == e.supported
      && r.executor.tasks == e.tasks - {taskId}
      && CountExecuting(r.executor) == CountExecuting(e) - 1
  {
    if taskId in e.tasks then
      Removed(Some(e.tasks[taskId]), e.(tasks := e.tasks - {taskId}))
    else Removed(None, e)
  }

  /** Round trip: removing a task just added returns it and restores the
      entry. */
  lemma AddRemoveRoundTrip(e: Executor, c: Container)
    requires c.taskId !in e.tasks
    ensures var r := TryRemoveCommand(AddCommand(e, c).value, c.taskId);
      r.item == Some(c) && r.executor == e
  {
    var e1 := AddCommand(e, c).value;
    assert e1.tasks - {c.taskId} == e.tasks;
  }

  /** Total number of tasks assigned across a set of executor entries. */
  ghost function TotalExecuting(m: map<Guid, Executor>): nat
    decreases |m.Keys|
  {
    if m == map[] then 0
    else
      var k :| k in m;
      CountExecuting(m[k]) + TotalExecuting(m - {k})
  }

  /** Any entry can be split off the total. */
  lemma {:induction false} TotalRemove(m: map<Guid, Executor>, k: Guid)
    requires k in m
    ensures TotalExecuting(m) == CountExecuting(m[k]) + TotalExecuting(m - {k})
    decreases |m.Keys|
  {
    var j :| j in m && TotalExecuting(m) == CountExecuting(m[j]) + TotalExecuting(m - {j});
    if j != k {
      var mj := m - {j};
      var mk := m - {k};
      assert |mj.Keys| < |m.Keys| by { assert mj.Keys == m.Keys - {j}; }
      assert |mk.Keys| < |m.Keys| by { assert mk.Keys == m.Keys - {k}; }
      TotalRemove(mj, k);
      TotalRemove(mk, j);
      assert mj - {k} == mk - {j};
    }
  }

  /** Replacing (or adding) one entry changes the total by the difference of
      the two counts. */
  lemma TotalUpdate(m: map<Guid, Executor>, k: Guid, e: Executor)
    ensures TotalExecuting(m[k := e])
         == TotalExecuting(m) - (if k in m then CountExecuting(m[k]) else 0) + CountExecuting(e)
  {
    var m' := m[k := e];
    TotalRemove(m', k);
    if k in m {
      TotalRemove(m, k);
      assert m' - {k} == m - {k};
    } else {
      assert m' - {k} == m;
    }
  }
}

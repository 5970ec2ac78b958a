/** The allocator's pending-task store: one FIFO queue per registered task
    type and a running total of queued tasks. */
module TaskQueue {
  import opened Common

  /** A task held by the allocator: its id, payload and creation time (ms). */
  datatype Container = Container(taskId: Guid, task: TaskModel, createdAt: int)

  /** `types` lists the registered types in constructor order; `count` is
      the counter the source keeps next to the queues. */
  datatype Queue = Queue(types: seq<TypeId>, queues: map<TypeId, seq<Container>>, count: int)

  /** Length of the queue of `t`, zero when there is none. */
  function LengthOf(queues: map<TypeId, seq<Container>>, t: TypeId): nat {
    if t in queues then |queues[t]| else 0
  }

  /** Sum of the queue lengths of the listed types. */
  function SumLengths(types: seq<TypeId>, queues: map<TypeId, seq<Container>>): nat {
    if |types| == 0 then 0
    else LengthOf(queues, types[0]) + SumLengths(types[1..], queues)
  }

  /** Queue invariant: one queue per listed type, every task sits in the
      queue of its own payload type, and the counter equals the total. */
  ghost predicate Valid(q: Queue) {
    && Distinct(q.types)
    && (forall t :: t in q.queues <==> t in q.types)
    && (forall t, c :: t in q.queues && c in q.queues[t] ==> c.task.typeId == t)
    && q.count == SumLengths(q.types, q.queues)
  }

  /** Replacing the queue of one listed type changes the total by the
      difference of the two lengths. */
  lemma {:induction false} SumLengthsUpdate(
    types: seq<TypeId>, queues: map<TypeId, seq<Container>>, t: TypeId, v: seq<Container>)
    requires Distinct(types) && t in types
    ensures SumLengths(types, queues[t := v]) == SumLengths(types, queues) - LengthOf(queues, t) + |v|
  {
    if types[0] == t {
      SumLengthsUnchanged(types[1..], queues, t, v);
    } else {
      SumLengthsUpdate(types[1..], queues, t, v);
    }
  }

  lemma {:induction false} SumLengthsUnchanged(
    types: seq<TypeId>, queues: map<TypeId, seq<Container>>, t: TypeId, v: seq<Container>)
    requires t !in types
    ensures SumLengths(types, queues[t := v]) == SumLengths(types, queues)
  {
    if |types| > 0 {
      SumLengthsUnchanged(types[1..], queues, t, v);
    }
  }

  lemma {:induction false} SumLengthsEmpty(types: seq<TypeId>, queues: map<TypeId, seq<Container>>)
    requires forall t :: t in types ==> LengthOf(queues, t) == 0
    ensures SumLengths(types, queues) == 0
  {
    if |types| > 0 {
      SumLengthsEmpty(types[1..], queues);
    }
  }

  /** The tasks in the queue of `t`, as a multiset; none when there is no
      queue. */
  ghost function QueueOf(queues: map<TypeId, seq<Container>>, t: TypeId): multiset<Container> {
    if t in queues then multiset(queues[t]) else multiset{}
  }

  /** Every task queued under one of the listed types, as a multiset. */
  ghost function Contents(types: seq<TypeId>, queues: map<TypeId, seq<Container>>): multiset<Container> {
    if |types| == 0 then multiset{}
    else QueueOf(queues, types[0]) + Contents(types[1..], queues)
  }

  /** Every task in the queue, as a multiset. */
  ghost function Queued(q: Queue): multiset<Container> {
    Contents(q.types, q.queues)
  }

  /** Replacing the queue of one listed type swaps its tasks for the new
      ones and leaves the rest of the contents alone. */
  lemma {:induction false} ContentsUpdate(
    types: seq<TypeId>, queues: map<TypeId, seq<Container>>, t: TypeId, v: seq<Container>)
    requires Distinct(types) && t in types
    ensures Contents(types, queues[t := v]) + QueueOf(queues, t) == Contents(types, queues) + multiset(v)
  {
    if types[0] == t {
      ContentsUnchanged(types[1..], queues, t, v);
    } else {
      assert t in types[1..];
      assert QueueOf(queues[t := v], types[0]) == QueueOf(queues, types[0]);
      ContentsUpdate(types[1..], queues, t, v);
      AddFront(QueueOf(queues, types[0]), Contents(types[1..], queues[t := v]), Contents(types[1..], queues),
               QueueOf(queues, t), multiset(v));
    }
  }

  lemma {:induction false} ContentsUnchanged(
    types: seq<TypeId>, queues: map<TypeId, seq<Container>>, t: TypeId, v: seq<Container>)
    requires t !in types
    ensures Contents(types, queues[t := v]) == Contents(types, queues)
  {
    if |types| > 0 {
      ContentsUnchanged(types[1..], queues, t, v);
    }
  }

  /** A task is in the contents exactly when it sits in the queue of one
      of the listed types. */
  lemma {:induction false} ContentsMember(types: seq<TypeId>, queues: map<TypeId, seq<Container>>, c: Container)
    ensures c in Contents(types, queues) <==> exists t :: t in types && t in queues && c in queues[t]
  {
    if |types| > 0 {
      ContentsMember(types[1..], queues, c);
    }
  }

  /** The contents hold as many tasks as the queue lengths add up to. */
  lemma {:induction false} ContentsSize(types: seq<TypeId>, queues: map<TypeId, seq<Container>>)
    ensures |Contents(types, queues)| == SumLengths(types, queues)
  {
    if |types| > 0 {
      ContentsSize(types[1..], queues);
    }
  }

  /** The constructor: one empty queue per type; a repeated type throws. */
  function New(types: seq<TypeId>): (r: Result<Queue, Error>)
    ensures r.Ok? <==> Distinct(types)
    ensures r.Err? ==> r.error == InvalidArgument
    ensures r.Ok? ==> Valid(r.value) && Count(r.value) == 0 && r.value.types == types
    ensures r.Ok? ==> forall t :: HasTaskType(r.value, t) <==> t in types
    ensures r.Ok? ==> forall t :: t in types ==> r.value.queues[t] == []
  {
    if !Distinct(types) then Err(InvalidArgument)
    else
      var queues := map t | t in types :: [];
      SumLengthsEmpty(types, queues);
      Ok(Queue(types, queues, 0))
  }

  function HasTaskType(q: Queue, t: TypeId): bool {
    t in q.queues
  }

  function Count(q: Queue): int {
    q.count
  }

  /** Routes the task to the queue of its payload type; an unregistered type
      throws and leaves the queue as it was. */
  function Enqueue(q: Queue, c: Container): (r: Result<Queue, Error>)
    requires Valid(q)
    ensures r.Ok? <==> HasTaskType(q, c.task.typeId)
    ensures r.Err? ==> r.error == InvalidArgument
    ensures r.Ok? ==>
      var t := c.task.typeId;
      && Valid(r.value)
      && Count(r.value) == Count(q) + 1
      && r.value.types == q.types
      && r.value.queues == q.queues[t := q.queues[t] + [c]]
  {
    var t := c.task.typeId;
    if t !in q.queues then Err(InvalidArgument)
    else
      var v := q.queues[t] + [c];
      SumLengthsUpdate(q.types, q.queues, t, v);
      Ok(Queue(q.types, q.queues[t := v], q.count + 1))
  }

  /** Result of `TryDequeue`: the task taken, if any, and the queue after. */
  datatype Dequeued = Dequeued(item: Option<Container>, queue: Queue)

  /** Takes the oldest task of type `t`: an unregistered type throws, an
      empty queue gives nothing and changes nothing, otherwise the head is
      removed and the counter drops by one. Other types are untouched. */
  function TryDequeue(q: Queue, t: TypeId): (r: Result<Dequeued, Error>)
    requires Valid(q)
    ensures r.Ok? <==> HasTaskType(q, t)
    ensures r.Err? ==> r.error == InvalidArgument
    ensures r.Ok? && q.queues[t] == [] ==> r.value == Dequeued(None, q)
    ensures r.Ok? && q.queues[t] != [] ==>
      && r.value.item == Some(q.queues[t][0])
      && r.value.item.value.task.typeId == t
      && Valid(r.value.queue)
      && Count(r.value.queue) == Count(q) - 1
      && r.value.queue.types == q.types
      && r.value.queue.queues == q.queues[t := q.queues[t][1..]]
  {
    if t !in q.queues then Err(InvalidArgument)
    else if q.queues[t] == [] then Ok(Dequeued(None, q))
    else
      var v := q.queues[t][1..];
      SumLengthsUpdate(q.types, q.queues, t, v);
      Ok(Dequeued(Some(q.queues[t][0]), Queue(q.types, q.queues[t := v], q.count - 1)))
  }

  /** Replaces the whole queue of one registered type, keeping the counter
      in step. A dequeue and an enqueue are the two single-element cases. */
  function Replace(q: Queue, t: TypeId, v: seq<Container>): (r: Queue)
    requires Valid(q) && HasTaskType(q, t)
    requires forall c :: c in v ==> c.task.typeId == t
    ensures Valid(r) && r.types == q.types
    ensures r.queues == q.queues[t := v]
    ensures Count(r) == Count(q) - |q.queues[t]| + |v|
  {
    SumLengthsUpdate(q.types, q.queues, t, v);
    Queue(q.types, q.queues[t := v], q.count - |q.queues[t]| + |v|)
  }

  /** Taking the head of a non-empty queue is replacing that queue by its
      tail, and appending is replacing it by the longer one. */
  lemma DequeueEnqueueAreReplace(q: Queue, c: Container, t: TypeId)
    requires Valid(q) && HasTaskType(q, t)
    ensures q.queues[t] != [] ==>
      TryDequeue(q, t).value.queue == Replace(q, t, q.queues[t][1..])
    ensures c.task.typeId == t ==>
      Enqueue(q, c).value == Replace(q, t, q.queues[t] + [c])
  {
  }

  /** Round trip: a task put into an empty type queue comes back out with
      the same id and payload, and the queue returns to where it started. */
  lemma EnqueueDequeueRoundTrip(q: Queue, c: Container)
    requires Valid(q) && HasTaskType(q, c.task.typeId) && q.queues[c.task.typeId] == []
    ensures var q1 := Enqueue(q, c).value;
      var d := TryDequeue(q1, c.task.typeId).value;
      d.item == Some(c) && d.queue == q
  {
    var t := c.task.typeId;
    var q1 := Enqueue(q, c).value;
    var d := TryDequeue(q1, t).value;
    assert q1.queues[t] == [c];
    assert d.queue.queues == q.queues;
  }

  /** FIFO: a later enqueue does not overtake the task at the head of a
      non-empty queue, and enqueueing leaves other types' queues alone. */
  lemma EnqueueKeepsHead(q: Queue, c: Container, t: TypeId)
    requires Valid(q) && HasTaskType(q, c.task.typeId) && HasTaskType(q, t)
    requires q.queues[t] != []
    ensures var q1 := Enqueue(q, c).value;
      TryDequeue(q1, t).value.item == TryDequeue(q, t).value.item
  {
  }

  /** Two tasks of one type pushed onto an empty queue leave it in push
      order. */
  lemma FifoOrder(q: Queue, a: Container, b: Container)
    requires Valid(q) && HasTaskType(q, a.task.typeId) && b.task.typeId == a.task.typeId
    requires q.queues[a.task.typeId] == []
    ensures var t := a.task.typeId;
      var q2 := Enqueue(Enqueue(q, a).value, b).value;
      var d1 := TryDequeue(q2, t).value;
      var d2 := TryDequeue(d1.queue, t).value;
      d1.item == Some(a) && d2.item == Some(b) && Count(d2.queue) == Count(q)
  {
    var t := a.task.typeId;
    var q2 := Enqueue(Enqueue(q, a).value, b).value;
    assert q2.queues[t] == [a, b];
  }
}

/** `FindCommandsToExecute` of the older allocator: takes queued commands of
    the executor's types, type by type and oldest first, until the list
    holds `maxCommandsPerExecutor` entries. It neither looks at how many
    commands the executor already runs nor at how long a command waited. */
module LegacyFind {
  import opened Common
  import opened TaskQueue

  /** The commands taken so far and the queue after taking them. */
  datatype Found = Found(commands: seq<Container>, queue: Queue)

  /** The inner `while` over one type: dequeue and append until the type
      queue is empty or the list is full. */
  function TakeType(q: Queue, t: TypeId, max: int, acc: seq<Container>): (r: Found)
    requires Valid(q) && t in q.queues && |acc| < max
    ensures Valid(r.queue) && r.queue.types == q.types
    decreases |q.queues[t]|
  {
    var d := TryDequeue(q, t).value;
    match d.item
    case None => Found(acc, q)
    case Some(c) =>
      var acc1 := acc + [c];
      if |acc1| >= max then Found(acc1, d.queue)
      else TakeType(d.queue, t, max, acc1)
  }

  /** How many of the commands `v` fit in `room` free places. */
  function Fit(v: seq<Container>, room: int): nat {
    if |v| < room then |v| else if room < 0 then 0 else room
  }

  /** Taking from one type is taking the longest prefix of its queue that
      still fits, and leaving the rest queued. */
  lemma {:induction false} TakeTypePrefix(q: Queue, t: TypeId, max: int, acc: seq<Container>)
    requires Valid(q) && t in q.queues && |acc| < max
    ensures var r := TakeType(q, t, max, acc);
      var v := q.queues[t];
      var n := Fit(v, max - |acc|);
      && r.queue == Replace(q, t, v[n..])
      && r.commands == acc + v[..n]
    decreases |q.queues[t]|
  {
    var v := q.queues[t];
    if v == [] {
      TakeNone(q, t, max, acc);
    } else if |acc| + 1 >= max {
      TakeLast(q, t, max, acc);
    } else {
      TakeStep(q, t, max, acc);
      var d := TryDequeue(q, t).value;
      TakeTypePrefix(d.queue, t, max, acc + [v[0]]);
    }
  }

  /** An empty type queue: nothing fits and nothing changes. */
  lemma TakeNone(q: Queue, t: TypeId, max: int, acc: seq<Container>)
    requires Valid(q) && t in q.queues && |acc| < max && q.queues[t] == []
    ensures var v := q.queues[t];
      var n := Fit(v, max - |acc|);
      && TryDequeue(q, t).value.item.None?
      && acc + v[..n] == acc
      && Replace(q, t, v[n..]) == q
  {
    assert q.queues[t := []] == q.queues;
  }

  /** The head fills the last free place: one command fits, and dequeuing
      it is replacing the queue by its tail. */
  lemma TakeLast(q: Queue, t: TypeId, max: int, acc: seq<Container>)
    requires Valid(q) && t in q.queues && |acc| < max && |acc| + 1 >= max && q.queues[t] != []
    ensures var v := q.queues[t];
      var n := Fit(v, max - |acc|);
      var d := TryDequeue(q, t).value;
      && d.item == Some(v[0])
      && acc + [v[0]] == acc + v[..n]
      && d.queue == Replace(q, t, v[n..])
  {
    var v := q.queues[t];
    assert Fit(v, max - |acc|) == 1;
    assert v[..1] == [v[0]];
  }

  /** One turn of the inner loop: dequeuing the head and taking the rest
      is taking the same prefix in one go. */
  lemma TakeStep(q: Queue, t: TypeId, max: int, acc: seq<Container>)
    requires Valid(q) && t in q.queues && |acc| + 1 < max && q.queues[t] != []
    ensures var v := q.queues[t];
      var n := Fit(v, max - |acc|);
      var d := TryDequeue(q, t).value;
      && d.item == Some(v[0])
      && d.queue.queues[t] == v[1..]
      && Fit(v[1..], max - |acc| - 1) == n - 1
      && acc + [v[0]] + v[1..][..n - 1] == acc + v[..n]
      && Replace(d.queue, t, v[1..][n - 1..]) == Replace(q, t, v[n..])
  {
    var v := q.queues[t];
    var n := Fit(v, max - |acc|);
    assert v[1..][n - 1..] == v[n..];
    assert acc + [v[0]] + v[1..][..n - 1] == acc + v[..n];
  }

  /** The outer loop over the executor's types, starting from the list
      `acc`: stops as soon as the list is full. */
  function FindAll(q: Queue, types: seq<TypeId>, max: int, acc: seq<Container>): (r: Found)
    requires Valid(q) && (forall t :: t in types ==> t in q.queues) && |acc| < max
    ensures Valid(r.queue) && r.queue.types == q.types
    decreases |types|
  {
    if types == [] then Found(acc, q)
    else
      var f := TakeType(q, types[0], max, acc);
      if |f.commands| >= max then f
      else FindAll(f.queue, types[1..], max, f.commands)
  }

  /** The outer loop extends the list without touching what it held, up
      to the cap, and the queue count drops by exactly what it took. */
  lemma {:induction false} FindAllCounts(q: Queue, types: seq<TypeId>, max: int, acc: seq<Container>)
    requires Valid(q) && (forall t :: t in types ==> t in q.queues) && |acc| < max
    ensures var r := FindAll(q, types, max, acc);
      && r.queue.queues.Keys == q.queues.Keys
      && |acc| <= |r.commands| <= max && r.commands[..|acc|] == acc
      && Count(r.queue) == Count(q) - (|r.commands| - |acc|)
    decreases |types|
  {
    if types != [] {
      var f := TakeType(q, types[0], max, acc);
      TakeTypePrefix(q, types[0], max, acc);
      if |f.commands| < max {
        FindAllCounts(f.queue, types[1..], max, f.commands);
        var r := FindAll(f.queue, types[1..], max, f.commands);
        assert f.commands[..|acc|] == acc;
        assert r.commands[..|acc|] == r.commands[..|f.commands|][..|acc|];
      }
    }
  }

  /** Taking from one type only shortens that type's queue from the
      front, and everything taken came from it. */
  lemma TakeTypeFrame(q: Queue, t: TypeId, max: int, acc: seq<Container>)
    requires Valid(q) && t in q.queues && |acc| < max
    ensures var f := TakeType(q, t, max, acc);
      && (forall c :: c in f.commands ==> c in acc || c in q.queues[t])
      && (forall u, c :: u in q.queues && c in f.queue.queues[u] ==> c in q.queues[u])
      && (forall u :: u in q.queues && u != t ==> f.queue.queues[u] == q.queues[u])
      && (|f.commands| < max ==> f.queue.queues[t] == [])
  {
    TakeTypePrefix(q, t, max, acc);
    var v := q.queues[t];
    var n := Fit(v, max - |acc|);
    assert forall c :: c in v[..n] ==> c in v;
    assert forall c :: c in v[n..] ==> c in v;
  }

  /** Every command found was queued under one of the executor's types
      (or was already in `acc`). */
  lemma {:induction false} FindAllOrigin(q: Queue, types: seq<TypeId>, max: int, acc: seq<Container>)
    requires Valid(q) && (forall t :: t in types ==> t in q.queues) && |acc| < max
    ensures forall c :: c in FindAll(q, types, max, acc).commands ==>
      c in acc || (c.task.typeId in types && c in q.queues[c.task.typeId])
    decreases |types|
  {
    if types != [] {
      var t := types[0];
      var f := TakeType(q, t, max, acc);
      TakeTypeFrame(q, t, max, acc);
      if |f.commands| < max {
        FindAllOrigin(f.queue, types[1..], max, f.commands);
        FindAllFrame(f.queue, types[1..], max, f.commands);
        forall c | c in FindAll(q, types, max, acc).commands
          ensures c in acc || (c.task.typeId in types && c in q.queues[c.task.typeId])
        {
          if c in f.commands {
            assert c in acc || c in q.queues[t];
            if c !in acc {
              assert c.task.typeId == t;
            }
          } else {
            assert c.task.typeId in types[1..] && c in f.queue.queues[c.task.typeId];
          }
        }
      } else {
        forall c | c in f.commands
          ensures c in acc || (c.task.typeId in types && c in q.queues[c.task.typeId])
        {
          if c !in acc {
            assert c in q.queues[t];
          }
        }
      }
    }
  }

  /** The queues only lose commands, and the queues of other types are
      left alone. */
  lemma {:induction false} FindAllFrame(q: Queue, types: seq<TypeId>, max: int, acc: seq<Container>)
    requires Valid(q) && (forall t :: t in types ==> t in q.queues) && |acc| < max
    ensures var r := FindAll(q, types, max, acc);
      && (forall t, c :: t in q.queues && c in r.queue.queues[t] ==> c in q.queues[t])
      && (forall t :: t in q.queues && t !in types ==> r.queue.queues[t] == q.queues[t])
    decreases |types|
  {
    if types != [] {
      var t := types[0];
      var f := TakeType(q, t, max, acc);
      TakeTypeFrame(q, t, max, acc);
      if |f.commands| < max {
        FindAllFrame(f.queue, types[1..], max, f.commands);
      }
    }
  }

  /** A list short of the cap means every queue of the executor's types
      was emptied. */
  lemma {:induction false} FindAllEmpties(q: Queue, types: seq<TypeId>, max: int, acc: seq<Container>)
    requires Valid(q) && (forall t :: t in types ==> t in q.queues) && |acc| < max
    ensures var r := FindAll(q, types, max, acc);
      |r.commands| < max ==> forall t :: t in types ==> r.queue.queues[t] == []
    decreases |types|
  {
    if types != [] {
      var t := types[0];
      var f := TakeType(q, t, max, acc);
      TakeTypeFrame(q, t, max, acc);
      if |f.commands| < max {
        FindAllEmpties(f.queue, types[1..], max, f.commands);
        FindAllFrame(f.queue, types[1..], max, f.commands);
        if t !in types[1..] {
          assert FindAll(q, types, max, acc).queue.queues[t] == f.queue.queues[t];
        }
      }
    }
  }

  /** `FindCommandsToExecute` for an executor accepting `types`. */
  function Find(q: Queue, types: seq<TypeId>, max: int): (r: Found)
    requires Valid(q) && (forall t :: t in types ==> t in q.queues) && max > 0
    ensures Valid(r.queue) && r.queue.types == q.types
    ensures |r.commands| <= max
    ensures Count(r.queue) == Count(q) - |r.commands|
  {
    FindAllCounts(q, types, max, []);
    FindAll(q, types, max, [])
  }

  /** Something is found exactly when one of the types has a queued
      command; the list stays short of the cap only when every one of
      those queues was emptied. */
  lemma {:induction false} FindAllNonEmpty(q: Queue, types: seq<TypeId>, max: int, acc: seq<Container>)
    requires Valid(q) && (forall t :: t in types ==> t in q.queues) && |acc| < max
    ensures |FindAll(q, types, max, acc).commands| > |acc| <==>
      exists t :: t in types && q.queues[t] != []
    decreases |types|
  {
    if types != [] {
      var t := types[0];
      var f := TakeType(q, t, max, acc);
      TakeTypePrefix(q, t, max, acc);
      if q.queues[t] == [] {
        TakeNone(q, t, max, acc);
        FindAllNonEmpty(q, types[1..], max, acc);
        if exists u :: u in types && q.queues[u] != [] {
          var u :| u in types && q.queues[u] != [];
          assert u in types[1..];
        }
      } else {
        assert |f.commands| > |acc|;
        if |f.commands| < max {
          FindAllCounts(f.queue, types[1..], max, f.commands);
        }
        assert t in types;
      }
    }
  }

  /** When every queue of the types is empty, nothing is taken and the
      queue is left exactly as it was. */
  lemma {:induction false} FindAllNothing(q: Queue, types: seq<TypeId>, max: int, acc: seq<Container>)
    requires Valid(q) && (forall t :: t in types ==> t in q.queues) && |acc| < max
    requires forall t :: t in types ==> q.queues[t] == []
    ensures FindAll(q, types, max, acc) == Found(acc, q)
    decreases |types|
  {
    if types != [] {
      var t := types[0];
      TakeTypePrefix(q, t, max, acc);
      TakeNone(q, t, max, acc);
      FindAllNothing(q, types[1..], max, acc);
    }
  }

  /** The whole drain: it finds nothing exactly when every queue of the
      executor's types is empty. */
  lemma FindNonEmpty(q: Queue, types: seq<TypeId>, max: int)
    requires Valid(q) && (forall t :: t in types ==> t in q.queues) && max > 0
    ensures Find(q, types, max).commands != [] <==> exists t :: t in types && q.queues[t] != []
  {
    FindAllNonEmpty(q, types, max, []);
  }
}

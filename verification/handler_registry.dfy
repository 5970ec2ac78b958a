/** The executor builder's handler map (`WorkerExecutorBuilder`): the list
    of task types that have a handler, in the order they were mapped. */
module HandlerRegistry {
  import opened Common
  import MetadataRegistry

  /** The builder's `taskTypes` list. */
  datatype Builder = Builder(taskTypes: seq<TypeId>)

  const Empty: Builder := Builder([])

  /** `MapTaskHandler`: a task type without metadata, or one that already
      has a handler, throws `ArgumentException` and leaves the list alone;
      any other type is appended. */
  function MapTaskHandler(b: Builder, reg: MetadataRegistry.Registry, t: TypeId): (r: Result<Builder, Error>)
    ensures r.Err? <==> MetadataRegistry.FindByType(reg, t).None? || t in b.taskTypes
    ensures r.Err? ==> r.error == InvalidArgument
    ensures r.Ok? ==> |r.value.taskTypes| == |b.taskTypes| + 1 && r.value.taskTypes[..|b.taskTypes|] == b.taskTypes
    ensures r.Ok? ==> r.value.taskTypes[|b.taskTypes|] == t
    ensures r.Ok? && Distinct(b.taskTypes) ==> Distinct(r.value.taskTypes)
  {
    if MetadataRegistry.FindByType(reg, t).None? then Err(InvalidArgument)
    else if t in b.taskTypes then Err(InvalidArgument)
    else Ok(Builder(b.taskTypes + [t]))
  }

  /** A chain of `MapTaskHandler` calls: the first one that throws ends
      the chain. */
  function MapAll(b: Builder, reg: MetadataRegistry.Registry, ts: seq<TypeId>): (r: Result<Builder, Error>)
    decreases |ts|
  {
    if ts == [] then Ok(b)
    else
      match MapTaskHandler(b, reg, ts[0])
      case Err(e) => Err(e)
      case Ok(b1) => MapAll(b1, reg, ts[1..])
  }

  /** A chain of mappings goes through exactly when every type has
      metadata and no type is mapped twice (counting those already in the
      list); the list then holds the old types followed by the new ones in
      call order, still without duplicates. */
  lemma {:induction false} MapAllSucceedsIff(b: Builder, reg: MetadataRegistry.Registry, ts: seq<TypeId>)
    requires Distinct(b.taskTypes)
    ensures MapAll(b, reg, ts).Ok? <==>
      (forall t :: t in ts ==> MetadataRegistry.FindByType(reg, t).Some?) && Distinct(b.taskTypes + ts)
    ensures MapAll(b, reg, ts).Ok? ==> MapAll(b, reg, ts).value.taskTypes == b.taskTypes + ts
    ensures MapAll(b, reg, ts).Err? ==> MapAll(b, reg, ts).error == InvalidArgument
    decreases |ts|
  {
    if ts != [] {
      var t := ts[0];
      assert b.taskTypes + ts == (b.taskTypes + [t]) + ts[1..];
      var m := MapTaskHandler(b, reg, t);
      if m.Ok? {
        MapAllSucceedsIff(m.value, reg, ts[1..]);
        forall u | u in ts
          ensures u == t || u in ts[1..]
        {
          assert u == ts[0] || u in ts[1..];
        }
      } else {
        if t in b.taskTypes {
          var i :| 0 <= i < |b.taskTypes| && b.taskTypes[i] == t;
          assert (b.taskTypes + ts)[i] == (b.taskTypes + ts)[|b.taskTypes|];
        } else {
          assert t in ts;
        }
      }
    }
  }

  /** Mapping a type twice, however many other types lie between, makes
      the second mapping throw. */
  lemma MapTwiceThrows(reg: MetadataRegistry.Registry, before: seq<TypeId>, t: TypeId, between: seq<TypeId>)
    ensures MapAll(Empty, reg, before + [t] + between + [t]).Err?
  {
    var ts := before + [t] + between + [t];
    MapAllSucceedsIff(Empty, reg, ts);
    assert Empty.taskTypes + ts == ts;
    assert ts[|before|] == t == ts[|ts| - 1];
  }
}

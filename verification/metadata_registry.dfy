/** The task metadata manager: metadata of every registered task class,
    indexed by payload type and by lower-cased task name. */
module MetadataRegistry {
  import opened Common
  import Text
  import opened TaskMetadata

  /** `tasks` in registration order; both indexes map to positions in it. */
  datatype Registry = Registry(
    tasks: seq<Metadata>,
    byType: map<TypeId, nat>,
    byName: map<string, nat>)

  const Empty: Registry := Registry([], map[], map[])

  /** The two indexes agree with `tasks` and cover all of it. */
  ghost predicate Valid(r: Registry) {
    && (forall t :: t in r.byType ==>
          r.byType[t] < |r.tasks| && r.tasks[r.byType[t]].taskType == t)
    && (forall n :: n in r.byName ==>
          r.byName[n] < |r.tasks| && Text.ToLower(r.tasks[r.byName[n]].taskName) == n)
    && (forall i :: 0 <= i < |r.tasks| ==>
          && r.tasks[i].taskType in r.byType
          && r.byType[r.tasks[i].taskType] == i
          && Text.ToLower(r.tasks[i].taskName) in r.byName
          && r.byName[Text.ToLower(r.tasks[i].taskName)] == i)
  }

  /** No registered task has payload type `t` or a name equal to `name`
      once both are lower-cased. */
  ghost predicate Fresh(r: Registry, t: TypeId, name: string) {
    forall i :: 0 <= i < |r.tasks| ==>
      r.tasks[i].taskType != t && Text.ToLower(r.tasks[i].taskName) != Text.ToLower(name)
  }

  /** One iteration of the constructor's loop: build the metadata, add it to
      the type index, then to the name index (both throw on a duplicate key). */
  function Register(r: Registry, cls: ClassInfo): (res: Result<Registry, Error>)
    requires Valid(r)
    ensures res.Err? ==> res.error == InvalidArgument
    ensures res.Ok? <==> Create(cls).Ok? && Fresh(r, cls.typeId, Create(cls).value.taskName)
    ensures res.Ok? ==> Valid(res.value) && res.value.tasks == r.tasks + [Create(cls).value]
  {
    match Create(cls)
    case Err(e) => Err(e)
    case Ok(m) =>
      var key := Text.ToLower(m.taskName);
      if m.taskType in r.byType then Err(InvalidArgument)
      else if key in r.byName then Err(InvalidArgument)
      else
        var index := |r.tasks|;
        Ok(Registry(r.tasks + [m], r.byType[m.taskType := index], r.byName[key := index]))
  }

  /** The manager's constructor over the classes the type resolver yields,
      stopping at the first exception. */
  function Build(classes: seq<ClassInfo>): (res: Result<Registry, Error>)
    ensures res.Ok? ==>
      && Valid(res.value)
      && |res.value.tasks| == |classes|
      && forall i :: 0 <= i < |classes| ==> Create(classes[i]) == Ok(res.value.tasks[i])
  {
    if |classes| == 0 then Ok(Empty)
    else
      var r :- Build(classes[..|classes| - 1]);
      var last := classes[|classes| - 1];
      var r' :- Register(r, last);
      assert forall i :: 0 <= i < |classes| - 1 ==> classes[i] == classes[..|classes| - 1][i];
      Ok(r')
  }

  /** Every class is a valid task class, and no two of them share a payload
      type or a case-insensitive name. */
  ghost predicate Registrable(classes: seq<ClassInfo>) {
    && (forall i :: 0 <= i < |classes| ==> Create(classes[i]).Ok?)
    && (forall i, j :: 0 <= i < j < |classes| ==>
          && classes[i].typeId != classes[j].typeId
          && Text.ToLower(Create(classes[i]).value.taskName)
             != Text.ToLower(Create(classes[j]).value.taskName))
  }

  /** The last class does not clash with any earlier one. */
  ghost predicate FitsAfter(init: seq<ClassInfo>, last: ClassInfo)
    requires Create(last).Ok?
    requires forall i :: 0 <= i < |init| ==> Create(init[i]).Ok?
  {
    forall i :: 0 <= i < |init| ==>
      && init[i].typeId != last.typeId
      && Text.ToLower(Create(init[i]).value.taskName) != Text.ToLower(Create(last).value.taskName)
  }

  lemma RegistrableStep(classes: seq<ClassInfo>)
    requires |classes| > 0
    ensures var init := classes[..|classes| - 1];
      var last := classes[|classes| - 1];
      Registrable(classes) <==>
        Registrable(init) && Create(last).Ok? && FitsAfter(init, last)
  {
    var n := |classes| - 1;
    var init := classes[..n];
    assert forall i :: 0 <= i < n ==> init[i] == classes[i];
  }

  lemma FreshIffFits(init: seq<ClassInfo>, r: Registry, last: ClassInfo)
    requires Valid(r) && Create(last).Ok?
    requires |r.tasks| == |init|
    requires forall i :: 0 <= i < |init| ==> Create(init[i]) == Ok(r.tasks[i])
    ensures Fresh(r, last.typeId, Create(last).value.taskName) <==> FitsAfter(init, last)
  {
  }

  /** Registration succeeds exactly when the classes are registrable: an
      abstract or unmarked class, a repeated type or a name that collides
      case-insensitively makes the constructor throw. */
  lemma {:induction false} BuildSucceedsIff(classes: seq<ClassInfo>)
    ensures Build(classes).Ok? <==> Registrable(classes)
  {
    if |classes| > 0 {
      var n := |classes| - 1;
      var init := classes[..n];
      var last := classes[n];
      BuildSucceedsIff(init);
      RegistrableStep(classes);
      if Build(init).Ok? && Create(last).Ok? {
        FreshIffFits(init, Build(init).value, last);
      }
    }
  }

  /** `FindTaskMetadata(Type)`: null for an unregistered type. */
  function FindByType(r: Registry, t: TypeId): (res: Option<Metadata>)
    ensures Valid(r) && res.Some? ==> res.value in r.tasks && res.value.taskType == t
    ensures Valid(r) ==> (res.None? <==> forall i :: 0 <= i < |r.tasks| ==> r.tasks[i].taskType != t)
  {
    if t in r.byType && r.byType[t] < |r.tasks| then Some(r.tasks[r.byType[t]]) else None
  }

  /** `FindTaskMetadata(string)`: a null name throws, an unknown one gives
      null, and the lookup ignores letter case. */
  function FindByName(r: Registry, name: Option<string>): (res: Result<Option<Metadata>, Error>)
    ensures res.Err? <==> name.None?
    ensures res.Err? ==> res.error == ArgumentNull
    ensures Valid(r) && res.Ok? && res.value.Some? ==>
      res.value.value in r.tasks
      && Text.ToLower(res.value.value.taskName) == Text.ToLower(name.value)
    ensures Valid(r) && res.Ok? ==>
      (res.value.None? <==>
        forall i :: 0 <= i < |r.tasks| ==>
          Text.ToLower(r.tasks[i].taskName) != Text.ToLower(name.value))
  {
    match name
    case None => Err(ArgumentNull)
    case Some(n) =>
      var key := Text.ToLower(n);
      if key in r.byName && r.byName[key] < |r.tasks| then Ok(Some(r.tasks[r.byName[key]]))
      else Ok(None)
  }

  /** `FindTaskMetadata(object)`: a null model throws; otherwise the lookup
      is by the model's runtime type. */
  function FindByModel(r: Registry, model: Option<TaskModel>): (res: Result<Option<Metadata>, Error>)
    ensures res.Err? <==> model.None?
    ensures res.Err? ==> res.error == ArgumentNull
    ensures res.Ok? ==> res.value == FindByType(r, model.value.typeId)
  {
    match model
    case None => Err(ArgumentNull)
    case Some(m) => Ok(FindByType(r, m.typeId))
  }

  /** Payload types of the registered tasks, in registration order. */
  function TaskTypes(r: Registry): (ts: seq<TypeId>)
    ensures |ts| == |r.tasks|
    ensures forall i :: 0 <= i < |ts| ==> ts[i] == r.tasks[i].taskType
  {
    seq(|r.tasks|, i requires 0 <= i < |r.tasks| => r.tasks[i].taskType)
  }

  /** A type is listed exactly when looking it up finds metadata. */
  lemma TaskTypesRegistered(r: Registry)
    requires Valid(r)
    ensures forall t :: t in TaskTypes(r) <==> FindByType(r, t).Some?
  {
    var ts := TaskTypes(r);
    forall t | FindByType(r, t).Some? ensures t in ts {
      var i :| 0 <= i < |r.tasks| && r.tasks[i] == FindByType(r, t).value;
      assert ts[i] == t;
    }
  }

  /** Registered types are pairwise different. */
  lemma TaskTypesDistinct(r: Registry)
    requires Valid(r)
    ensures Distinct(TaskTypes(r))
  {
    var ts := TaskTypes(r);
    forall i, j | 0 <= i < j < |ts|
      ensures ts[i] != ts[j]
    {
      assert r.byType[r.tasks[i].taskType] == i;
      assert r.byType[r.tasks[j].taskType] == j;
    }
  }

  /** Lookup round trip: every registered metadata is found again by its
      payload type, by its name in any letter case, and by any model of
      its type. */
  lemma LookupRoundTrip(r: Registry, m: Metadata, spelling: string, model: TaskModel)
    requires Valid(r) && m in r.tasks
    requires Text.ToLower(spelling) == Text.ToLower(m.taskName)
    requires model.typeId == m.taskType
    ensures FindByType(r, m.taskType) == Some(m)
    ensures FindByName(r, Some(spelling)) == Ok(Some(m))
    ensures FindByModel(r, Some(model)) == Ok(Some(m))
  {
    var i :| 0 <= i < |r.tasks| && r.tasks[i] == m;
    assert r.byType[m.taskType] == i;
    assert r.byName[Text.ToLower(m.taskName)] == i;
  }
}

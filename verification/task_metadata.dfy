/** Static description of one task class: its name, payload type and the two
    timeouts, derived from the class and its `[Task]` attribute. */
module TaskMetadata {
  import opened Common
  import Text

  /** The `[Task]` attribute. An empty `name` stands for a null or empty
      `Name` property (both select the derived name). */
  datatype TaskAttribute = TaskAttribute(name: string, startTimeout: int, executionTimeout: int)

  /** Property defaults of the attribute: no name, no start timeout,
      30 seconds of execution. */
  const DefaultAttribute: TaskAttribute := TaskAttribute("", 0, 30000)

  /** What reflection tells about a payload class. */
  datatype ClassInfo = ClassInfo(
    typeId: TypeId,
    className: string,
    isAbstract: bool,
    attribute: Option<TaskAttribute>)

  datatype Metadata = Metadata(
    taskName: string,
    taskType: TypeId,
    startTimeout: int,
    executionTimeout: int)

  const TaskSuffix: string := "Task"

  /** Name taken from the class name: one trailing "Task" is dropped. */
  function DeriveName(className: string): (r: string)
    ensures |r| <= |className|
    ensures r == className[..|r|]
  {
    if Text.EndsWith(className, TaskSuffix)
    then className[..|className| - |TaskSuffix|]
    else className
  }

  /** Removing the suffix undoes appending it, whatever the prefix. */
  lemma DeriveNameStripsSuffix(name: string)
    ensures DeriveName(name + TaskSuffix) == name
  {
    var c := name + TaskSuffix;
    assert c[|c| - |TaskSuffix|..] == TaskSuffix;
    assert c[..|c| - |TaskSuffix|] == name;
  }

  /** A class name without the suffix is kept as it is, and one with the
      suffix loses exactly four characters. */
  lemma DeriveNameCases(className: string)
    ensures !Text.EndsWith(className, TaskSuffix) ==> DeriveName(className) == className
    ensures Text.EndsWith(className, TaskSuffix) ==>
      DeriveName(className) + TaskSuffix == className
  {
    if Text.EndsWith(className, TaskSuffix) {
      var n := |className| - |TaskSuffix|;
      assert className == className[..n] + className[n..];
    }
  }

  /** A class qualifies as a task when it is concrete and carries the
      attribute (`CheckTaskType` is exactly the attribute test). */
  predicate IsTaskClass(cls: ClassInfo) {
    !cls.isAbstract && cls.attribute.Some?
  }

  /** The metadata constructor. */
  function Create(cls: ClassInfo): (r: Result<Metadata, Error>)
    ensures r.Ok? <==> IsTaskClass(cls)
    ensures r.Err? ==> r.error == InvalidArgument
    ensures r.Ok? ==>
      var a := cls.attribute.value;
      && r.value.taskType == cls.typeId
      && r.value.startTimeout == a.startTimeout
      && r.value.executionTimeout == a.executionTimeout
      && (a.name != "" ==> r.value.taskName == a.name)
      && (a.name == "" && Text.EndsWith(cls.className, TaskSuffix) ==>
            r.value.taskName + TaskSuffix == cls.className)
      && (a.name == "" && !Text.EndsWith(cls.className, TaskSuffix) ==> r.value.taskName == cls.className)
  {
    if cls.isAbstract then Err(InvalidArgument)
    else if cls.attribute.None? then Err(InvalidArgument)
    else
      var a := cls.attribute.value;
      var name := if a.name == "" then DeriveName(cls.className) else a.name;
      DeriveNameCases(cls.className);
      Ok(Metadata(name, cls.typeId, a.startTimeout, a.executionTimeout))
  }

  /** `[Task] class TestTask` registers as "Test" with the attribute's
      default timeouts. */
  lemma DefaultAttributeExample(id: TypeId)
    ensures Create(ClassInfo(id, "TestTask", false, Some(DefaultAttribute)))
         == Ok(Metadata("Test", id, 0, 30000))
  {
    assert "TestTask" == "Test" + TaskSuffix;
    DeriveNameStripsSuffix("Test");
  }
}

/** Shared vocabulary of the worker model: failure-compatible wrappers, the
    kinds of .NET exception the source throws, identifiers and task payloads. */
module Common {

  /** Optional value; stands in for C# `null` where the source checks it. */
  datatype Option<+T> = None | Some(value: T)

  /** Outcome of an operation that the source either completes or aborts
      by throwing an exception. */
  datatype Result<+T, +E> = Ok(value: T) | Err(error: E) {
    predicate IsFailure() { Err? }

    function PropagateFailure<U>(): Result<U, E>
      requires Err?
    {
      Err(error)
    }

    function Extract(): T
      requires Ok?
    {
      value
    }
  }

  /** The exception kinds the modelled code throws. */
  datatype Error =
    | ArgumentNull          // ArgumentNullException
    | InvalidArgument       // ArgumentException
    | ArgumentOutOfRange    // ArgumentOutOfRangeException
    | InvalidOperation      // InvalidOperationException
    | OperationCanceled     // OperationCanceledException
    | NullReference         // NullReferenceException

  /** A GUID. Zero plays the part of `Guid.Empty`. */
  type Guid = nat

  const EmptyGuid: Guid := 0

  /** Identity of a task payload class (the C# `Type` of the model object). */
  type TypeId = nat

  /** A task payload: an object whose runtime type is `typeId`. Its contents
      are opaque to the engine. */
  datatype TaskModel = TaskModel(typeId: TypeId, fields: seq<int>)

  /** A stored task as the repository hands it back on restore: the
      executor it was started on, if any, and when. Times are in ms. */
  datatype TaskState = TaskState(
    taskId: Guid,
    createdAt: int,
    model: Option<TaskModel>,
    executorId: Option<Guid>,
    startedAt: Option<int>)

  /** The elements of `s` are pairwise different. */
  predicate Distinct<T(==)>(s: seq<T>) {
    forall i, j :: 0 <= i < j < |s| ==> s[i] != s[j]
  }

  /** `m` is the least element of `s`. */
  predicate IsLeast(m: nat, s: set<nat>) {
    m in s && forall x :: x in s ==> m <= x
  }

  /** Every non-empty set of naturals has a least element. */
  lemma {:induction false} HasMinimum(s: set<nat>)
    requires s != {}
    ensures exists m :: IsLeast(m, s)
    decreases |s|
  {
    var y :| y in s;
    if s == {y} {
      assert IsLeast(y, s);
    } else {
      var rest := s - {y};
      HasMinimum(rest);
      var m :| IsLeast(m, rest);
      var least := if y < m then y else m;
      forall x | x in s
        ensures least <= x
      {
        if x != y {
          assert x in rest;
        }
      }
      assert IsLeast(least, s);
    }
  }

  /** Least element of a non-empty set of naturals: the enumeration order
      assumed for dictionaries keyed by GUID. */
  function MinOf(s: set<nat>): (m: nat)
    requires s != {}
    ensures m in s
    ensures forall x :: x in s ==> m <= x
  {
    HasMinimum(s);
    var m :| IsLeast(m, s);
    m
  }

  /** Moving `pt` out of one side and `pr` into it, and the reverse on the
      other side, keeps two multiset totals equal. */
  lemma Rebalance<T>(a: multiset<T>, b: multiset<T>, c1: multiset<T>, c: multiset<T>,
                     pt: multiset<T>, pr: multiset<T>)
    requires a + pr == b + pt
    requires c1 + pt == c + pr
    ensures a + c1 == b + c
  {
    forall o ensures (a + c1)[o] == (b + c)[o] {
      assert (a + pr)[o] == (b + pt)[o];
      assert (c1 + pt)[o] == (c + pr)[o];
    }
  }

  /** Adding the same multiset on both sides keeps an equation. */
  lemma AddFront<T>(h: multiset<T>, a1: multiset<T>, a: multiset<T>, x: multiset<T>, y: multiset<T>)
    requires a1 + x == a + y
    ensures (h + a1) + x == (h + a) + y
  {
    assert (h + a1) + x == h + (a1 + x);
    assert (h + a) + y == h + (a + y);
  }

  /** Two equal entries at different positions occur twice in the
      sequence's multiset. */
  lemma TwoCopies<T>(s: seq<T>, i: int, j: int)
    requires 0 <= i < j < |s| && s[i] == s[j]
    ensures multiset(s)[s[i]] >= 2
  {
    assert s == s[..j] + s[j..];
    assert s[i] in s[..j];
    assert s[j] in s[j..];
  }

  /** No element occurs more than once. */
  ghost predicate NoRepeats<T(!new)>(m: multiset<T>) {
    forall x :: m[x] <= 1
  }

  /** A sequence whose multiset has no repeats has pairwise different
      entries. */
  lemma NoRepeatsDistinct<T(!new)>(s: seq<T>)
    requires NoRepeats(multiset(s))
    ensures Distinct(s)
  {
    forall i, j | 0 <= i < j < |s| ensures s[i] != s[j] {
      if s[i] == s[j] {
        TwoCopies(s, i, j);
      }
    }
  }

  /** Appending in two steps is appending the two parts at once. */
  lemma AppendTwice<T>(a: seq<T>, b: seq<T>, c: seq<T>, ab: seq<T>, abc: seq<T>)
    requires ab == a + b && abc == ab + c
    ensures abc == a + (b + c)
  {
  }
}

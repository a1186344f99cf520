/**
  AggregateExceptionExtensions.IsOnly<T> and ExceptionExtensions.IsOperationCanceled.
  An exception is either a plain exception of some type or an AggregateException
  holding a list of inner exceptions, so exceptions form a finite tree. The type
  test `ex is T` is modelled by a predicate on exception types, which a caller
  chooses to be closed under subclassing.
 */
module Exceptions {

  /** The run-time type of a non-aggregate exception. */
  datatype ExceptionType =
    | OperationCanceledException
    | TaskCanceledException      // derives from OperationCanceledException
    | OtherException(name: string)

  datatype Exception =
    | Plain(exType: ExceptionType)
    | Aggregate(inner: seq<Exception>)

  /** `ex is OperationCanceledException`, which also holds for its subclass TaskCanceledException. */
  predicate IsOperationCanceledType(t: ExceptionType) {
    t == OperationCanceledException || t == TaskCanceledException
  }

  /**
    IsOnly<T>: the foreach loop over `aggEx.InnerExceptions` from position `i`
    on. A nested aggregate is checked recursively; any other inner exception
    must be a T, and the first one that is not ends the loop with false.
   */
  predicate IsOnlyFrom(isT: ExceptionType -> bool, aggEx: Exception, i: nat)
    requires aggEx.Aggregate? && i <= |aggEx.inner|
    decreases aggEx, |aggEx.inner| - i
  {
    if i == |aggEx.inner| then true
    else
      var ex := aggEx.inner[i];
      if ex.Aggregate? then IsOnlyFrom(isT, ex, 0) && IsOnlyFrom(isT, aggEx, i + 1)
      else isT(ex.exType) && IsOnlyFrom(isT, aggEx, i + 1)
  }

  /** AggregateExceptionExtensions.IsOnly<T>. */
  predicate IsOnly(isT: ExceptionType -> bool, aggEx: Exception)
    requires aggEx.Aggregate?
  {
    IsOnlyFrom(isT, aggEx, 0)
  }

  /** The reference definition: the types at the leaves of the exception tree, left to right. */
  function Leaves(ex: Exception): seq<ExceptionType>
    decreases ex, 1
  {
    match ex
    case Plain(t) => [t]
    case Aggregate(_) => LeavesFrom(ex, 0)
  }

  function LeavesFrom(aggEx: Exception, i: nat): seq<ExceptionType>
    requires aggEx.Aggregate? && i <= |aggEx.inner|
    decreases aggEx, 0, |aggEx.inner| - i
  {
    if i == |aggEx.inner| then [] else Leaves(aggEx.inner[i]) + LeavesFrom(aggEx, i + 1)
  }

  /** Every type in the list satisfies the test. */
  predicate AllAre(isT: ExceptionType -> bool, types: seq<ExceptionType>) {
    forall k :: 0 <= k < |types| ==> isT(types[k])
  }

  /** IsOnly<T> holds exactly when every leaf of the tree is a T. */
  lemma {:induction false} IsOnlyIffAllLeaves(isT: ExceptionType -> bool, aggEx: Exception, i: nat)
    requires aggEx.Aggregate? && i <= |aggEx.inner|
    ensures IsOnlyFrom(isT, aggEx, i) <==> AllAre(isT, LeavesFrom(aggEx, i))
    decreases aggEx, |aggEx.inner| - i
  {
    if i < |aggEx.inner| {
      var ex := aggEx.inner[i];
      var rest := LeavesFrom(aggEx, i + 1);
      IsOnlyIffAllLeaves(isT, aggEx, i + 1);
      if ex.Aggregate? {
        IsOnlyIffAllLeaves(isT, ex, 0);
        assert Leaves(ex) == LeavesFrom(ex, 0);
      }
      var here := Leaves(ex);
      assert LeavesFrom(aggEx, i) == here + rest;
      AllOfConcat(isT, here, rest);
      if ex.Plain? {
        assert here == [ex.exType];
        assert here[0] == ex.exType;
        assert AllAre(isT, here) <==> isT(ex.exType);
        assert IsOnlyFrom(isT, aggEx, i) == (isT(ex.exType) && IsOnlyFrom(isT, aggEx, i + 1));
      } else {
        assert IsOnlyFrom(isT, aggEx, i) == (IsOnlyFrom(isT, ex, 0) && IsOnlyFrom(isT, aggEx, i + 1));
      }
    }
  }

  lemma AllOfConcat(isT: ExceptionType -> bool, xs: seq<ExceptionType>, ys: seq<ExceptionType>)
    ensures AllAre(isT, xs + ys) <==> AllAre(isT, xs) && AllAre(isT, ys)
  {
    var zs := xs + ys;
    if forall k :: 0 <= k < |zs| ==> isT(zs[k]) {
      forall k | 0 <= k < |xs|
        ensures isT(xs[k])
      {
        assert zs[k] == xs[k];
      }
      forall k | 0 <= k < |ys|
        ensures isT(ys[k])
      {
        assert zs[|xs| + k] == ys[k];
      }
    }
    if (forall k :: 0 <= k < |xs| ==> isT(xs[k])) && (forall k :: 0 <= k < |ys| ==> isT(ys[k])) {
      forall k | 0 <= k < |zs|
        ensures isT(zs[k])
      {
        if k < |xs| {
          assert zs[k] == xs[k];
        } else {
          assert zs[k] == ys[k - |xs|];
        }
      }
    }
  }

  /** IsOnly<T> is true for an aggregate without inner exceptions. */
  lemma IsOnlyEmptyAggregate(isT: ExceptionType -> bool)
    ensures IsOnly(isT, Aggregate([]))
  {
  }

  /** A single inner non-aggregate exception that is not a T makes IsOnly<T> false. */
  lemma {:induction false} IsOnlyFalseOnForeignLeaf(isT: ExceptionType -> bool, aggEx: Exception, j: nat)
    requires aggEx.Aggregate? && j < |aggEx.inner|
    requires aggEx.inner[j].Plain? && !isT(aggEx.inner[j].exType)
    ensures !IsOnly(isT, aggEx)
  {
    var i := 0;
    while i < j
      invariant 0 <= i <= j
      invariant IsOnly(isT, aggEx) ==> IsOnlyFrom(isT, aggEx, i)
    {
      i := i + 1;
    }
  }

  /** ExceptionExtensions.IsOperationCanceled. */
  predicate IsOperationCanceled(ex: Exception) {
    if ex.Plain? && IsOperationCanceledType(ex.exType) then true
    else if ex.Aggregate? then IsOnly(IsOperationCanceledType, ex)
    else false
  }

  /** Canceled means: a plain cancellation, or an aggregate all of whose leaves are cancellations. */
  lemma IsOperationCanceledMeaning(ex: Exception)
    ensures ex.Plain? ==> (IsOperationCanceled(ex) <==> IsOperationCanceledType(ex.exType))
    ensures ex.Aggregate? ==>
      (IsOperationCanceled(ex) <==> AllAre(IsOperationCanceledType, Leaves(ex)))
    ensures IsOperationCanceled(Aggregate([]))
  {
    if ex.Aggregate? {
      IsOnlyIffAllLeaves(IsOperationCanceledType, ex, 0);
      assert Leaves(ex) == LeavesFrom(ex, 0);
    }
  }
}

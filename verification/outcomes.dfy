/**
 The failure-carrying datatypes of the scheduler model.

 The scheduler signals failure with Python exceptions; the model turns each
 exception that the scheduling core can raise into an `Error` value carried by
 `Result`, so that callers see the error path explicitly.
 */
module Outcomes {

  /** The exceptions the scheduling core can raise. */
  datatype Error =
    /** `OverflowError`: a `timedelta` step left the range 0001-01-01 .. 9999-12-31. */
    | DateOutOfRange
    /** `ValueError` from `int()`: the literal that could not be read as an integer. */
    | InvalidLiteral(literal: string)

  datatype Option<+T> = None | Some(value: T)

  /** Either a value or the exception that was raised instead. */
  datatype Result<+T> = Ok(value: T) | Err(error: Error) {

    predicate IsFailure() {
      Err?
    }

    function PropagateFailure<U>(): Result<U>
      requires Err?
    {
      Err(error)
    }

    function Extract(): T
      requires Ok?
    {
      value
    }
  }

  /**
   Applies `f` to each element in order and collects the values; the first
   element for which `f` fails makes the whole traversal fail.
   */
  function MapResult<T, U>(xs: seq<T>, f: T -> Result<U>): (r: Result<seq<U>>)
    ensures r.Ok? <==> forall i :: 0 <= i < |xs| ==> f(xs[i]).Ok?
    ensures r.Ok? ==> |r.value| == |xs|
    ensures r.Ok? ==> forall i :: 0 <= i < |xs| ==> f(xs[i]) == Ok(r.value[i])
    decreases |xs|
  {
    if |xs| == 0 then Ok([])
    else
      var first :- f(xs[0]);
      var rest :- MapResult(xs[1..], f);
      assert forall i :: 1 <= i < |xs| ==> xs[i] == xs[1..][i - 1];
      Ok([first] + rest)
  }

  /** A failed traversal carries the error of the first element that fails. */
  lemma {:induction false} MapResultFirstError<T, U>(xs: seq<T>, f: T -> Result<U>)
    requires MapResult(xs, f).Err?
    ensures exists i :: && 0 <= i < |xs|
                        && f(xs[i]) == Err(MapResult(xs, f).error)
                        && forall j :: 0 <= j < i ==> f(xs[j]).Ok?
    decreases |xs|
  {
    if f(xs[0]).Err? {
      assert f(xs[0]) == Err(MapResult(xs, f).error);
    } else {
      var tail := xs[1..];
      assert MapResult(xs, f).error == MapResult(tail, f).error;
      MapResultFirstError(tail, f);
      var i :| && 0 <= i < |tail|
               && f(tail[i]) == Err(MapResult(tail, f).error)
               && forall j :: 0 <= j < i ==> f(tail[j]).Ok?;
      assert xs[i + 1] == tail[i];
      forall j | 0 <= j < i + 1 ensures f(xs[j]).Ok? {
        if j > 0 {
          assert xs[j] == tail[j - 1];
        }
      }
    }
  }

  /**
   Runs `step` over the elements in order, threading a state from `start`;
   the first step that fails ends the run with its error.
   */
  function FoldResult<S, T>(start: S, xs: seq<T>, step: (S, T) -> Result<S>): Result<S>
    decreases |xs|
  {
    if |xs| == 0 then Ok(start)
    else
      var state :- FoldResult(start, xs[..|xs| - 1], step);
      step(state, xs[|xs| - 1])
  }

  /**
   When whether a step fails, and with which error, depends only on its
   element (`failure` gives that error), a run fails exactly when some
   element fails.
   */
  lemma {:induction false} FoldResultFails<S, T>(start: S, xs: seq<T>, step: (S, T) -> Result<S>, failure: T -> Option<Error>)
    requires forall s, t :: step(s, t).Err? <==> failure(t).Some?
    ensures FoldResult(start, xs, step).Err? <==> exists i :: 0 <= i < |xs| && failure(xs[i]).Some?
    decreases |xs|
  {
    if |xs| > 0 {
      var init := xs[..|xs| - 1];
      FoldResultFails(start, init, step, failure);
      assert forall i :: 0 <= i < |init| ==> init[i] == xs[i];
    }
  }

  /** A failed run carries the error of the first element that fails. */
  lemma {:induction false} FoldResultFirstError<S, T>(start: S, xs: seq<T>, step: (S, T) -> Result<S>, failure: T -> Option<Error>)
    requires forall s, t :: step(s, t).Err? <==> failure(t).Some?
    requires forall s, t :: step(s, t).Err? ==> failure(t) == Some(step(s, t).error)
    requires FoldResult(start, xs, step).Err?
    ensures exists i :: && 0 <= i < |xs|
                        && failure(xs[i]) == Some(FoldResult(start, xs, step).error)
                        && forall j :: 0 <= j < i ==> failure(xs[j]).None?
    decreases |xs|
  {
    var init := xs[..|xs| - 1];
    var earlier := FoldResult(start, init, step);
    assert forall i :: 0 <= i < |init| ==> init[i] == xs[i];
    if earlier.Err? {
      FoldResultFirstError(start, init, step, failure);
    } else {
      FoldResultFails(start, init, step, failure);
    }
  }

  /** A property of states that every successful step keeps holds after a successful run. */
  lemma {:induction false} FoldResultInvariant<S, T>(start: S, xs: seq<T>, step: (S, T) -> Result<S>, inv: S -> bool)
    requires inv(start)
    requires forall s, t :: inv(s) && step(s, t).Ok? ==> inv(step(s, t).value)
    requires FoldResult(start, xs, step).Ok?
    ensures inv(FoldResult(start, xs, step).value)
    decreases |xs|
  {
    if |xs| > 0 {
      FoldResultInvariant(start, xs[..|xs| - 1], step, inv);
    }
  }

  /** The position of the last element satisfying `p`, if there is one. */
  function LastWhere<T>(xs: seq<T>, p: T -> bool): (r: Option<nat>)
    ensures r.None? <==> forall i :: 0 <= i < |xs| ==> !p(xs[i])
    ensures r.Some? ==> r.value < |xs| && p(xs[r.value]) && forall j :: r.value < j < |xs| ==> !p(xs[j])
    decreases |xs|
  {
    if |xs| == 0 then None
    else if p(xs[|xs| - 1]) then Some(|xs| - 1)
    else
      var r := LastWhere(xs[..|xs| - 1], p);
      assert forall i :: 0 <= i < |xs| - 1 ==> xs[..|xs| - 1][i] == xs[i];
      r
  }
}

/** Failure-compatible results, for the places where the tools exit or return an error. */
module Wrappers {

  datatype Option<+T> = None | Some(value: T)

  datatype Result<+T, +E> = Ok(value: T) | Err(error: E) {

    predicate IsFailure() {
      Err?
    }

    function PropagateFailure<U>(): Result<U, E>
      requires Err?
    {
      Err(error)
    }

    function Extract(): T
      requires Ok?
    {
      value
    }
  }

  /** The values of a sequence of results, or the first error in it. */
  function Values<T, E>(results: seq<Result<T, E>>): (r: Result<seq<T>, E>)
    ensures r.Ok? <==> forall k :: 0 <= k < |results| ==> results[k].Ok?
    ensures r.Ok? ==> |r.value| == |results| && forall k :: 0 <= k < |results| ==> results[k] == Ok(r.value[k])
  {
    if results == [] then Ok([])
    else
      var before :- Values(results[..|results| - 1]);
      var last :- results[|results| - 1];
      Ok(before + [last])
  }

  lemma {:induction false} FirstError<T, E>(results: seq<Result<T, E>>, k: nat)
    requires k < |results| && results[k].Err? && forall j :: 0 <= j < k ==> results[j].Ok?
    ensures Values(results) == Err(results[k].error)
  {
    if k < |results| - 1 {
      FirstError(results[..|results| - 1], k);
    }
  }
}

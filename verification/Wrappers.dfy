/** The source's `Option` and `Result`. */
module Wrappers {
  datatype Option<+T> = None | Some(value: T)

  datatype Result<+T, +E> = Ok(value: T) | Err(error: E)

  predicate AllOk<T, E>(results: seq<Result<T, E>>) {
    forall i :: 0 <= i < |results| ==> results[i].Ok?
  }

  /** The values of results of which none failed. */
  function Collect<T, E>(results: seq<Result<T, E>>): (r: seq<T>)
    requires AllOk(results)
    ensures |r| == |results| && forall i :: 0 <= i < |r| ==> results[i] == Ok(r[i])
  {
    seq(|results|, i requires 0 <= i < |results| => results[i].value)
  }
}

/** Optional values and results shared by the model. */
module Wrappers {

  /** A value that may be absent, as `undefined` is in the source (d3.max of nothing). */
  datatype Option<+T> = None | Some(value: T)

  /** The outcome of an operation that may fail. */
  datatype Result<+R, +E> = Success(value: R) | Failure(error: E)

  /** `xs.map(f)` where `f` may fail: the first failure, with its position, ends the whole
      batch; otherwise the results in order. */
  function MapUntilFailure<A, B, E>(f: A -> Result<B, E>, xs: seq<A>): (r: Result<seq<B>, (nat, E)>)
    ensures r.Success? <==> forall i :: 0 <= i < |xs| ==> f(xs[i]).Success?
    ensures r.Success? ==> |r.value| == |xs| && forall i :: 0 <= i < |xs| ==> f(xs[i]) == Success(r.value[i])
    ensures r.Failure? ==> r.error.0 < |xs| && f(xs[r.error.0]) == Failure(r.error.1) &&
                           forall i :: 0 <= i < r.error.0 ==> f(xs[i]).Success?
  {
    if xs == [] then Success([])
    else
      match f(xs[0])
      case Failure(e) => Failure((0, e))
      case Success(first) =>
        match MapUntilFailure(f, xs[1..])
        case Failure(e) => Failure((e.0 + 1, e.1))
        case Success(rest) => Success([first] + rest)
  }
}

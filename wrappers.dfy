/** Option and Result, as Rust's `Option<T>` and `Result<T, E>`, plus the
    short-circuiting `collect` of a sequence of results into a result of a sequence. */
module Wrappers {

  datatype Option<+T> = None | Some(value: T)

  datatype Result<+T, +E> = Success(value: T) | Failure(error: E) {
    /** With these, `:-` propagates a failure as Rust's `?` does. */
    predicate IsFailure() {
      Failure?
    }

    function PropagateFailure<U>(): Result<U, E>
      requires Failure?
    {
      Failure(error)
    }

    function Extract(): T
      requires Success?
    {
      value
    }
  }

  /** Rust's `xs.iter().map(f).collect::<Result<Vec<T>, E>>()`: every value
      when all succeed, otherwise the error of the first failure in order. */
  function Collect<A, T, E>(xs: seq<A>, f: A -> Result<T, E>): (r: Result<seq<T>, E>)
    ensures r.Success? <==> forall i :: 0 <= i < |xs| ==> f(xs[i]).Success?
    ensures r.Success? ==> |r.value| == |xs| && forall i :: 0 <= i < |xs| ==> f(xs[i]) == Success(r.value[i])
    ensures r.Failure? ==>
      exists i :: 0 <= i < |xs| && f(xs[i]) == Failure(r.error) &&
        forall j :: 0 <= j < i ==> f(xs[j]).Success?
  {
    if xs == [] then Success([])
    else
      match f(xs[0])
      case Failure(e) => Failure(e)
      case Success(v) =>
        match Collect(xs[1..], f)
        case Failure(e) =>
          assert forall j :: 0 < j < |xs| ==> xs[j] == xs[1..][j - 1];
          Failure(e)
        case Success(vs) => Success([v] + vs)
  }
}

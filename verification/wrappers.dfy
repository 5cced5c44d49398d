/** Failure-carrying results used where the Python code raises or returns None. */
module Wrappers {

  datatype Option<+T> = None | Some(value: T)

  /** The outcome of an operation that either returns a value or raises. */
  datatype Result<+T, +E> = Success(value: T) | Failure(error: E) {
    predicate IsFailure() {
      Failure?
    }

    function PropagateFailure<U>(): Result<U, E>
      requires Failure?
    {
      Failure(error)
    }

    function Extract(): T
      requires Success?
    {
      value
    }
  }

  /** Position `i` is the first whose step fails, and it fails with `e`. */
  ghost predicate FailsAt<A, B, E>(xs: seq<A>, f: A -> Result<B, E>, e: E, i: int) {
    && 0 <= i < |xs| && f(xs[i]) == Failure(e)
    && forall j :: 0 <= j < i ==> f(xs[j]).Success?
  }

  ghost predicate FailsFirstAt<A, B, E>(xs: seq<A>, f: A -> Result<B, E>, e: E) {
    exists i :: FailsAt(xs, f, e, i)
  }

  /**
    Applies `f` to every element in order, stopping at the first failure, as a Python
    loop that appends the result of each step does when a step raises.
  */
  function MapResult<A, B, E>(xs: seq<A>, f: A -> Result<B, E>): (r: Result<seq<B>, E>)
    ensures r.Success? <==> forall i :: 0 <= i < |xs| ==> f(xs[i]).Success?
    ensures r.Success? ==> |r.value| == |xs| && forall i :: 0 <= i < |xs| ==> r.value[i] == f(xs[i]).value
    ensures r.Failure? ==> FailsFirstAt(xs, f, r.error)
    decreases |xs|
  {
    if |xs| == 0 then Success([])
    else
      match f(xs[0])
      case Failure(e) =>
        assert FailsAt(xs, f, e, 0);
        Failure(e)
      case Success(y) =>
        match MapResult(xs[1..], f)
        case Failure(e) =>
          assert FailsFirstAt(xs, f, e) by {
            var i :| FailsAt(xs[1..], f, e, i);
            assert FailsAt(xs, f, e, i + 1);
          }
          Failure(e)
        case Success(ys) => Success([y] + ys)
  }
}

/** Option and Result: the error paths of the pipeline (pandas exceptions) become values. */
module Wrappers {

  datatype Option<+T> = None | Some(value: T)

  datatype Result<+T, +E> = Success(value: T) | Failure(error: E) {

    predicate IsFailure() {
      Failure?
    }

    function PropagateFailure<U>(): Result<U, E>
      requires Failure?
    {
      Failure(error)
    }

    function Extract(): T
      requires Success?
    {
      value
    }
  }

  /** Puts `xs` in front of a successful result; a failure passes through unchanged. */
  function Prepend<T, E>(xs: seq<T>, r: Result<seq<T>, E>): (p: Result<seq<T>, E>)
    ensures p.Success? <==> r.Success?
    ensures p.Success? ==> p.value == xs + r.value
    ensures p.Failure? ==> p.error == r.error
    ensures xs == [] ==> p == r
  {
    match r
    case Success(v) => assert [] + v == v; Success(xs + v)
    case Failure(e) => Failure(e)
  }

  lemma PrependPrepend<T, E>(xs: seq<T>, ys: seq<T>, r: Result<seq<T>, E>)
    ensures Prepend(xs, Prepend(ys, r)) == Prepend(xs + ys, r)
  {
    if r.Success? {
      assert xs + (ys + r.value) == (xs + ys) + r.value;
    }
  }
}

/** Option and Result datatypes shared by every module of the model. */
module Wrappers {

  datatype Option<+T> = None | Some(value: T) {
    predicate IsFailure() {
      None?
    }

    function PropagateFailure<U>(): Option<U>
      requires None?
    {
      None
    }

    function Extract(): T
      requires Some?
    {
      value
    }

    function GetOr(default: T): T {
      match this
      case Some(v) => v
      case None => default
    }
  }

  /**
   * The outcome of an operation whose source counterpart may stop with a
   * failed assertion, a failed argument check or a thrown error.
   */
  datatype Result<+T, +E> = Ok(value: T) | Err(error: E) {
    predicate IsFailure() {
      Err?
    }

    function PropagateFailure<U>(): Result<U, E>
      requires Err?
    {
      Err(error)
    }

    function Extract(): T
      requires Ok?
    {
      value
    }
  }

  /** The results of `f` on `0 .. n - 1`, or the first failure. */
  function CollectAll<T, E>(n: nat, f: nat -> Result<T, E>): (r: Result<seq<T>, E>)
    ensures r.Ok? <==> forall i :: 0 <= i < n ==> f(i).Ok?
    ensures r.Ok? ==> |r.value| == n && forall i :: 0 <= i < n ==> r.value[i] == f(i).value
  {
    if n == 0 then Ok([])
    else
      var front :- CollectAll(n - 1, f);
      var last :- f(n - 1);
      Ok(front + [last])
  }
}

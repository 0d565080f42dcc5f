/** Option and Result, the two failure-compatible wrappers used throughout the model. */
module Wrappers {

  /** A value that may be absent (Python's `None`). */
  datatype Option<+T> = None | Some(value: T) {
    predicate IsFailure() { None? }

    function PropagateFailure<U>(): Option<U>
      requires None?
    {
      None
    }

    function Extract(): T
      requires Some?
    {
      value
    }
  }

  /** The outcome of an operation that may raise: `Ok` carries the value, `Err` the exception. */
  datatype Result<+T, +E> = Ok(value: T) | Err(error: E) {
    predicate IsFailure() { Err? }

    function PropagateFailure<U>(): Result<U, E>
      requires Err?
    {
      Err(error)
    }

    function Extract(): T
      requires Ok?
    {
      value
    }
  }

  /**
   * Apply `f` to each element in order and collect the results, stopping at
   * the first failure: what `tuple(f(x) for x in xs)` does when `f` may raise.
   */
  function Traverse<A, B, E>(xs: seq<A>, f: A -> Result<B, E>): (r: Result<seq<B>, E>)
    ensures r.Ok? ==> |r.value| == |xs| && forall i :: 0 <= i < |xs| ==> f(xs[i]) == Ok(r.value[i])
    ensures r.Err? ==> exists i :: 0 <= i < |xs| && f(xs[i]) == Err(r.error) && forall j :: 0 <= j < i ==> f(xs[j]).Ok?
  {
    if xs == [] then Ok([])
    else
      var y :- f(xs[0]);
      var ys :- Traverse(xs[1..], f);
      Ok([y] + ys)
  }
}

/** The exceptions the core can raise, one constructor per distinct cause. */
module Errors {

  datatype Error =
    /** `datetime.strptime` rejected the text (a `ValueError`). */
    | MalformedDate(text: string)
    /** `PostHistory.from_value` found no matching shape (a `ValueError`). */
    | UnparsablePostHistory(text: string)
    /** `int()` rejected the text (a `ValueError`). */
    | InvalidInteger(text: string)
    /** `data[field]` on a missing key (a `KeyError`). */
    | MissingKey(key: string)
    /** A raw value of the wrong Python type reached a string operation (a `TypeError` or `AttributeError`). */
    | WrongType(field: string)
    /** `functools.reduce` over an empty iterable with no initial value (a `TypeError`). */
    | EmptyReduce
    /** `>` between values Python cannot order, such as `None > None` (a `TypeError`). */
    | Unorderable
}

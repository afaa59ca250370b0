/** Failure-compatible wrappers shared by every module of the model. */
module Wrappers {

  datatype Option<+T> = None | Some(value: T)

  /** The exceptions the modelled Python code can raise. */
  datatype Error =
    | DrawError        // raised by the surfaces on a negative coordinate
    | KeyError         // a dict or enum lookup that misses
    | IndexError       // a list index out of range, including `pop` on an empty list
    | ValueError       // `max()` of nothing, or a tuple unpacking of the wrong arity
    | AssertionError   // a failing `assert` statement
    | RelationError    // the bare `Exception` raised on an unknown relation letter
    | TypeError        // an operator applied to operands of the wrong types

  datatype Result<+T> = Success(value: T) | Failure(error: Error) {
    predicate IsFailure() {
      Failure?
    }

    function PropagateFailure<U>(): Result<U>
      requires Failure?
    {
      Failure(error)
    }

    function Extract(): T
      requires Success?
    {
      value
    }
  }

  function Max(a: int, b: int): int {
    if a < b then b else a
  }

  function Min(a: int, b: int): int {
    if a < b then a else b
  }

  /** Python's `s[i]`: negative indices count from the end; out of range is `None`. */
  function PyAt<T>(s: seq<T>, i: int): (r: Option<T>)
    ensures r.Some? <==> -|s| <= i < |s|
    ensures 0 <= i < |s| ==> r == Some(s[i])
    ensures -|s| <= i < 0 ==> r == Some(s[|s| + i])
  {
    if 0 <= i < |s| then Some(s[i])
    else if -|s| <= i < 0 then Some(s[|s| + i])
    else None
  }
}

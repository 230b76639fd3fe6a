/** Option and Result: how the model represents the source's `Option` values and its aborts. */
module Fallible {

  datatype Option<+T> = None | Some(value: T)

  /** Why an operation produced no result. */
  datatype Fault =
    | Panic        // the source aborts: an unwrap of nothing, a failed `assert`, an index or slice
                   // out of range, an arithmetic overflow
    | NotModelled  // the source calls code that is not part of this model

  /** A value, or the fault that stopped the computation. Usable with `:-`. */
  datatype Result<+T> = Ok(value: T) | Fail(fault: Fault) {
    predicate IsFailure() {
      Fail?
    }

    function PropagateFailure<U>(): Result<U>
      requires Fail?
    {
      Fail(fault)
    }

    function Extract(): T
      requires Ok?
    {
      value
    }
  }
}

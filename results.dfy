/** Failure-carrying values used throughout the model: a .NET exception that
    aborts an operation becomes a `Failure`, a null becomes `None`. Both
    types support Dafny's `:-` so that a chain of casts reads as in the
    source, each step able to abort. */
module Results {

  datatype Option<+T> = None | Some(value: T) {
    predicate IsFailure() { None? }
    function PropagateFailure<U>(): Option<U> requires None? { None }
    function Extract(): T requires Some? { value }
  }

  datatype Result<+T, +E> = Ok(value: T) | Failure(error: E) {
    predicate IsFailure() { Failure? }
    function PropagateFailure<U>(): Result<U, E> requires Failure? { Failure(error) }
    function Extract(): T requires Ok? { value }
  }
}

/** Failure values of the maintainer-script engine and the failure-compatible
    wrappers used to return them instead of panicking. */
module Errors {

  /** Everything the engine can fail with. */
  datatype Error =
    | UnknownTemplate(name: string)          // no autoscript template of that name
    | SedModeUnsupported                     // autoscript called with no placeholder pairs
    | DebHelperReplaceFailed(path: string)   // user script lacks the #DEBHELPER# marker
    | NotFound(path: string)                 // read of a path the filesystem does not hold

  /** Either a value or the error that stopped the computation; usable with `:-`. */
  datatype Result<+T> = Ok(value: T) | Err(error: Error) {

    predicate IsFailure() {
      Err?
    }

    function PropagateFailure<U>(): Result<U>
      requires Err?
    {
      Err(error)
    }

    function Extract(): T
      requires Ok?
    {
      value
    }
  }

  /** A value that may be missing (Rust's `Option`). */
  datatype Option<+T> = None | Some(value: T)
}

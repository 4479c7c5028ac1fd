/** Result shapes shared by every module. */
module Wrappers {

  /** A Go pointer or interface result: `None` is Go's nil. */
  datatype Option<+T> = None | Some(value: T)

  /** What a Go call does: it returns a value, or it panics (a nil pointer
      dereference or a failed type assertion). */
  datatype Outcome<+T> = Ok(value: T) | Panic
}

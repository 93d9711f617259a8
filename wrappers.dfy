/** Outcomes of Go functions that can panic. */
module Wrappers {

  /** The value a Go function returns, or the panic it raises instead. */
  datatype Result<T> = Ok(value: T) | Panic(reason: string)

  /** The outcome of a Go function that returns nothing but may panic. */
  datatype Status = Completed | Panicked(reason: string)

  /** A Go reference that may be nil. */
  datatype Option<T> = None | Some(value: T)
}

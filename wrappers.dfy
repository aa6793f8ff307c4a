/** Optional values and fallible results, standing in for Go's nil pointers and
    `(value, error)` return pairs. */
module Wrappers {

  /** A Go pointer field that is either nil or points at a value. */
  datatype Option<+T> = None | Some(value: T)

  /** A Go `(T, error)` pair in which exactly one half is meaningful. */
  datatype Result<+T, +E> = Ok(value: T) | Err(error: E)
}

/** Failure-compatible wrappers: `None` stands for Python's `None` result and
    `Failure` for a raised `ValueError` carrying its message. */
module Wrappers {

  datatype Option<+T> = None | Some(value: T)

  datatype Result<+T> = Ok(value: T) | Failure(message: string)
}

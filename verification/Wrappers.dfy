/** What may be missing, and what may be thrown. */
module Wrappers {
  datatype Option<T> = None | Some(value: T)

  /** A C++ computation that may throw; `tag` is the message of the exception. */
  datatype Outcome<T> = Ok(value: T) | Throw(tag: string)
}

/** Failure-carrying values used by the search: an absent value and an
    outcome that is either a result or an error. */
module Wrappers {

  datatype Option<T> = None | Some(value: T)

  datatype Result<T, E> = Ok(value: T) | Err(error: E)
}

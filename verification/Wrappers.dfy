/** Optional values and failures. */
module Wrappers {
  datatype Option<+T> = None | Some(value: T)

  datatype Result<+T, +E> = Ok(value: T) | Err(error: E)

  /** A failure reported under a condition. */
  function When<T>(c: bool, failure: T): set<T> { if c then {failure} else {} }
}

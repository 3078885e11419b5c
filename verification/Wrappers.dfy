/** Optional values, results that carry the failure a caller sees, and the set of a sequence. */
module Wrappers {
  datatype Option<+T> = None | Some(value: T)

  datatype Result<+T, +E> = Success(value: T) | Failure(error: E)

  function Elements<T>(s: seq<T>): set<T> {
    set x | x in s
  }
}

/** Optional values, results that carry an error, and the elements of a list. */
module Wrappers {
  datatype Option<+T> = None | Some(value: T)

  datatype Result<+T, +E> = Ok(value: T) | Err(error: E)

  function Elems(s: seq<string>): set<string> {
    set x | x in s
  }
}

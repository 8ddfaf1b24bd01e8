/** Option and result wrappers shared by the other modules. */
module Wrappers {

  /** A value that may be missing (`None` in the Python source). */
  datatype Option<+T> = None | Some(value: T)

  /** The outcome of a request step: a value, or the HTTP error it raises. */
  datatype Result<+T, +E> = Ok(value: T) | Err(error: E)

  /** Python's truth test on an optional integer (`if quality:`): given and non-zero. */
  predicate IsTruthy(n: Option<int>) {
    n.Some? && n.value != 0
  }

  /** Python's truth test on an optional string: given and non-empty. */
  predicate IsPresent(s: Option<seq<char>>) {
    s.Some? && s.value != []
  }
}

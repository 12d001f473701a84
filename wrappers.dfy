/** Small helper datatypes shared by the FLAMES model. */
module Wrappers {

  /** A value that may be missing: a JavaScript `undefined` or `null`. */
  datatype Option<+T> = None | Some(value: T)

  function Min(a: int, b: int): int
  {
    if a <= b then a else b
  }
}

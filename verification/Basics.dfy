/** Small definitions shared by the modules. */
module Basics {

  type byte = b: int | 0 <= b < 256

  /** The terminator of C strings. */
  const NUL := '\0'

  datatype Option<T> = None | Some(value: T)

  function Min(a: nat, b: nat): nat {
    if a < b then a else b
  }
}

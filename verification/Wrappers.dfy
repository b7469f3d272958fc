/** Small result types shared by the modules of this project. */
module Wrappers {

  /** A value that may be absent: the source's null pointers, weak pointers and failed parses. */
  datatype Option<+T> = None | Some(value: T)

  function Or<T>(e: Option<T>, otherwise: T): T {
    if e.Some? then e.value else otherwise
  }

  /** The outcome of a primitive read: nothing readable, or a value and the number of bytes it took. */
  datatype Read<+T> = Bad | Got(value: T, size: nat)
}

/** Result types and byte strings shared by every model in the project. */
module Wrappers {

  datatype Option<+T> = None | Some(value: T) {
    function GetOr(default: T): T {
      if Some? then value else default
    }
  }

  /** A byte; Go's `byte(x)` conversion is `x % 256`. */
  type byte = x: int | 0 <= x < 256

  type Bytes = seq<byte>
}

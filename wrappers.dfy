/** Option type for values that may be absent (a C# `null`). */
module Wrappers {

  datatype Option<+T> = None | Some(value: T)
}

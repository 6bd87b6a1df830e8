/** The optional value of the JavaScript sources: `null`/`undefined` versus a value. */
module Wrappers {
  datatype Option<+T> = None | Some(value: T)
}

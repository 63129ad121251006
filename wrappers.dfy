/** The optional-value datatype used for JavaScript `undefined` objects and PHP `null`. */
module Wrappers {
  datatype Option<+T> = None | Some(value: T)
}

/** Small wrapper used for absent values (JavaScript `null` / `undefined`). */
module Wrappers {

  datatype Option<+T> = None | Some(value: T)
}

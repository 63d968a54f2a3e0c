/** The optional value used where the service returns `undefined` or starts from `Infinity`. */
module Wrappers {
  datatype Option<+T> = None | Some(value: T)
}

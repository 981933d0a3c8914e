/** The optional value used where the source accepts `undefined` or would
    throw on a missing input. */
module Wrappers {
  datatype Option<T> = None | Some(value: T)
}

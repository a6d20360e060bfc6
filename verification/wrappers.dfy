/** The optional value a lookup returns: `Some(v)` when the key is present,
    `None` when it is absent (Swift's `Value?`). */
module Wrappers {

  datatype Option<+T> = None | Some(value: T)

}

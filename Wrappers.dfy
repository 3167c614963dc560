/** The usual optional-value wrapper, used for operations of the sender that
    can fail (a path without a third segment). */
module Wrappers {
  datatype Option<+T> = None | Some(value: T)
}

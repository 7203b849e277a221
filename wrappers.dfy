/** The usual optional value, used for "no such element" (Array.prototype.find
    returning undefined, an event that is not handled). */
module Wrappers {
  datatype Option<T> = None | Some(value: T)
}

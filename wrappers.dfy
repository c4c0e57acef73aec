/** An optional value: `None` plays the part of the source's `None`. */
module Wrappers {

  datatype Option<+T> = None | Some(value: T)
}

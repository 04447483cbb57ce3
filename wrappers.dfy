/** The optional value used for data that may be absent: a key not in storage,
    a lookup that finds nothing, a `null` in a component's state. */
module Wrappers {

  datatype Option<+T> = None | Some(value: T)
}

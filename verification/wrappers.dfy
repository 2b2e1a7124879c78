/** A value that may be absent: a null pointer, an unset `std::function`, or a
    device the driver could not open. */
module Wrappers {

  datatype Option<+T> = None | Some(value: T)
}

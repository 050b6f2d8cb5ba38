/** Option and Result, the two ways the note store reports an outcome:
    a lookup miss is an absent value (JavaScript `null`), a validation
    failure is a thrown error. */
module Wrappers {

  datatype Option<+T> = None | Some(value: T)

  datatype Result<+T, +E> = Ok(value: T) | Err(error: E)
}

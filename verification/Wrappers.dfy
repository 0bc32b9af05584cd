/** Results of operations that may have none, or refuse their arguments. */
module Wrappers {

  datatype Option<T> = None | Some(value: T)

  datatype Result<T> = Ok(value: T) | InvalidArgument
}

/** Success-or-error values, used where the executor's constructor panics. */
module Wrappers {

  datatype Result<T, E> = Ok(value: T) | Err(error: E)

}

// Failure-carrying values. The generator signals failure with Python
// `assert` (an AssertionError) and, for unparsable parameters, with an
// AttributeError; both are modelled as `Err` values.
module Wrappers {

  datatype Option<+T> = None | Some(value: T)

  datatype Result<+T, +E> = Ok(value: T) | Err(error: E)
}

// The result types shared by the model.
module Wrappers {
  datatype Option<+T> = None | Some(value: T)

  // std::expected
  datatype Result<+T, +E> = Ok(value: T) | Err(error: E)
}

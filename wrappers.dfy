/** The optional values and outcomes shared by the modules of the model: `None` stands for a
    Java `null`, `Failure` for an exception thrown to the caller. */
module Wrappers {
  datatype Option<T> = None | Some(value: T)

  datatype Result<T, E> = Success(value: T) | Failure(error: E)
}

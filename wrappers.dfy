/** The `Option` and `Result` types shared by the model: JavaScript's `null`
    results become `Option`, and the form handlers' error branches become
    `Result`. */
module Wrappers {
  datatype Option<T> = None | Some(value: T)

  datatype Result<T, E> = Success(value: T) | Failure(error: E)
}

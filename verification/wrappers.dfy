/** Failure-carrying datatypes: `Option` stands for a possibly empty smart
    pointer, `Result` for a call that may throw. */
module Wrappers {

  /** A possibly empty reference: `None` is the C++ null `shared_ptr` / expired `weak_ptr`. */
  datatype Option<+T> = None | Some(value: T)

  /** Either the value a call returns or the error it throws. */
  datatype Result<+R, +E> = Success(value: R) | Failure(error: E)
}

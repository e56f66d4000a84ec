/** Option and Result values shared by every module of the model.
    Option stands for the source's nullable references and optional
    properties; Result for an operation that either returns a value or
    fails with a store fault (reported by the controller as HTTP 500). */
module Common {

  datatype Option<+T> = None | Some(value: T)

  datatype Result<+T, +E> = Success(value: T) | Failure(error: E)
}

/** Option and Result: the absent value of a Python attribute (`None`, `False`)
    and the exception a collaborator may raise, as values. */
module Wrappers {

  datatype Option<+T> = None | Some(value: T)

  datatype Result<+T, +E> = Success(value: T) | Failure(error: E)
}

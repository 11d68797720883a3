/** Optional values and success-or-error results, used for nullable columns,
    nullable request fields and the error paths of the request handlers. */
module Wrappers {

  /** A value that may be absent. Each use says which absence it stands for: SQL
      NULL, a JSON null, or an omitted request field. */
  datatype Option<+T> = None | Some(value: T)

  /** The outcome of a request handler: a response value or an error. */
  datatype Result<+R, +E> = Success(value: R) | Failure(error: E)
}

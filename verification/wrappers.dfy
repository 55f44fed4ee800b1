/** Failure-carrying values for the ledger's lookups and error responses. */
module Wrappers {

  /** A value that may be absent (a `findOne` that matched nothing). */
  datatype Option<+T> = None | Some(value: T)

  /** Either a value or the error the request handler answers with. */
  datatype Result<+R, +E> = Ok(value: R) | Err(error: E)
}

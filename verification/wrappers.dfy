/** Small failure-carrying datatypes shared by every module of the model. */
module Wrappers {

  /** A value that may be absent (Rust's `Option`, SQL's `fetch_optional`). */
  datatype Option<+T> = None | Some(value: T)

  /** The outcome of an operation that may fail with an error of type `E`. */
  datatype Result<+R, +E> = Success(value: R) | Failure(error: E)

  /** What a single-row query hands back when the caller distinguishes all
      three cases: the driver failed, no row matched, or the row. */
  datatype Fetch<+T> = DbError | NoRow | Row(value: T)

  /** The HTTP status a handler answers with; response bodies are left out. */
  datatype Status = Ok | BadRequest | Unauthorized | Forbidden | NotFound | InternalServerError
}

/** Optional values and the outcome of a request/response call. */
module Wrappers {

  /** A value that may be absent: a missing JSON field, an undefined store,
      a file input with no file chosen. */
  datatype Option<+T> = None | Some(value: T)

  /** The outcome of one request/response call as the calling handler sees it:
      either the call resolved with an HTTP status and a decoded body, or it
      threw (network failure, a non-2xx status, a malformed body). */
  datatype Reply<+T> = Ok(status: int, body: T) | Failed
}

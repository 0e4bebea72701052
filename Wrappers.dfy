/** Wrappers and small helpers shared by both crawlers. */
module Wrappers {

  /** A value that may be absent (`null` or `undefined` in the crawlers). */
  datatype Option<+T> = None | Some(value: T)

  /** The outcome of a crawl: a value, or the message of the `Error` it throws. */
  datatype Result<+T, +E> = Success(value: T) | Failure(error: E)

  /** What the transport hands back for one request: the (already decoded) body when
      `response.ok` holds, otherwise the response's `statusText`. */
  datatype HttpOutcome<+B> = Ok(body: B) | NotOk(statusText: string)

  function Min(a: int, b: int): int { if a < b then a else b }
  function Max(a: int, b: int): int { if a < b then b else a }
}

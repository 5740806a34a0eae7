/** Shared result types of the route handlers and the HTTP status codes they use. */
module Common {

  datatype Option<+T> = None | Some(value: T)

  /** What a route handler sends back: an error status (the JSON error body
      is not modelled), or a payload. */
  datatype Response<+T> = Fail(status: int) | Ok(body: T)

  const BadRequest: int := 400
  const Forbidden: int := 403
  const NotFound: int := 404
  /** Fastify's default answer to an exception the handler does not catch. */
  const InternalError: int := 500

  /** `x || fallback` on a string value: the empty string is falsy in JavaScript. */
  function OrElse(x: string, fallback: string): (r: string)
    ensures r == x || r == fallback
    ensures r == [] ==> fallback == []
  {
    if x != [] then x else fallback
  }

  /** The value of an optional string, or the empty string. */
  function OrEmpty(x: Option<string>): (r: string)
    ensures x.Some? ==> r == x.value
  {
    if x.Some? then x.value else ""
  }
}

/**
 * What the scraper sees of HTTP: each reply is an input (the network is not modelled),
 * and the requests its session issues are recorded in order.
 */
module Http {

  type Byte = bv8

  /** A reply to one request: a status with a body (as text and as bytes), or a transport failure
      (timeout, refused connection) that `requests` raises as a `RequestException`. */
  datatype Reply = Reply(status: int, text: string, content: seq<Byte>) | TransportFailure

  /** `Response.raise_for_status()` raises for client (4xx) and server (5xx) errors only. */
  predicate RaisesForStatus(status: int)
  {
    400 <= status < 600
  }

  /** The reply got past both the transport and `raise_for_status()`. */
  predicate Delivered(r: Reply)
  {
    r.Reply? && !RaisesForStatus(r.status)
  }

  /** A request the session issued: a form POST or a GET. */
  datatype Request = Post(url: string, form: seq<(string, string)>) | Get(url: string)
}

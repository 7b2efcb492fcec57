/** The abstract outcome of one `requests.get` call. The transport itself is not modelled:
    a fetch is a value handed to the code that interprets it. */
module Http {

  /** Either the server answered with a status code and a body, or the transport raised
      (`requests.RequestException`: timeout, connection failure, ...). */
  datatype Response<B> = Received(status: int, body: B) | TransportError

  /** `Response.raise_for_status()` raises for client errors (4xx) and server errors (5xx);
      any other status passes. */
  predicate RaisesForStatus(status: int) {
    400 <= status < 600
  }
}

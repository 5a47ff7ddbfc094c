/** The values the request-dispatch pipeline passes around: requests, responses,
    header fields and route-table entries.  `Handler` and `Route` mirror the
    type aliases `RequestHandler`, `PathMatcher` and `HandlerList` of the crate
    root. */
module HttpTypes {

  datatype Option<+T> = None | Some(value: T)

  /** A character a header value may hold: the `http` crate refuses every
      control character except horizontal tab, and DEL. */
  predicate IsFieldValueChar(c: char)
  {
    c == '\t' || (32 <= c as int && c as int != 127)
  }

  predicate IsFieldValue(v: string)
  {
    forall i :: 0 <= i < |v| ==> IsFieldValueChar(v[i])
  }

  /** The text a header value can hold once the `http` builder accepted it. */
  type FieldValue = v: string | IsFieldValue(v) witness ""

  /** One header field, in the order it was added. */
  datatype Header = Header(name: string, value: FieldValue)

  /** The protocol versions of the `http` crate. */
  datatype Version = Http09 | Http10 | Http11 | Http2 | Http3

  /** A status code the `http` crate can represent: three decimal digits. */
  type StatusCode = n: int | 100 <= n <= 999 witness 200

  /** A parsed request.  `target` is the request-target as written on the
      request line; its path and query are read from it on demand. */
  datatype Request = Request(
    httpMethod: string,
    target: string,
    version: Version,
    headers: seq<Header>,
    body: string)

  /** A handler's answer. */
  datatype Response = Response(
    version: Version,
    status: StatusCode,
    headers: seq<Header>,
    body: string)

  /** A request handler: a pure function from request to response. */
  type Handler = Request -> Response

  /** One entry of the route table: the source text of a path pattern and the
      handler that serves the paths it matches. */
  datatype Route = Route(pattern: string, handler: Handler)
}

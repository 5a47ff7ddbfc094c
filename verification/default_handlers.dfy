/** The fallback handler that serves a path no route matches. */
module DefaultHandlers {
  import opened HttpTypes

  /** `not_found`: a `404 Not Found` with the builder's defaults (HTTP/1.1, no
      header fields) and an empty body.  The request is not looked at. */
  function NotFound(req: Request): (r: Response)
    ensures r.status == 404
    ensures r.body == ""
    ensures r.headers == []
    ensures r.version == Http11
  {
    Response(Http11, 404, [], "")
  }

  /** The answer does not depend on the request. */
  lemma {:induction false} NotFoundIgnoresRequest(a: Request, b: Request)
    ensures NotFound(a) == NotFound(b)
  {
  }
}

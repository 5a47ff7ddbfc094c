/** The application object: a route table that grows by `add_handler`, and
    the connection handler that parses a request, picks its handler and
    writes the response.  The socket is not modelled: the handler is given the
    characters it received. */
module Server {
  import opened HttpTypes
  import opened RequestGrammar
  import opened RequestParser
  import opened Query
  import opened Routing
  import opened DefaultHandlers
  import opened Status
  import opened ResponseWriter

  /** The size of the zero-filled read buffer. */
  const BufferSize: nat := 1024

  /** Why `handle_connection` panics: `parse_request` found no request line,
      the request builder refused a header value, or the response status has
      no canonical reason phrase. */
  datatype Abort = NoRequestLine | InvalidRequest | NoReasonPhrase

  datatype Outcome = Responded(wire: string) | Aborted(cause: Abort)

  /** The text the parser sees: the received characters, then the NULs the
      rest of the buffer still holds. */
  function BufferText(received: string): (r: string)
    requires |received| <= BufferSize
    ensures |r| == BufferSize
    ensures forall i :: 0 <= i < |received| ==> r[i] == received[i]
    ensures forall i :: |received| <= i < BufferSize ==> r[i] == '\0'
  {
    received + seq(BufferSize - |received|, _ => '\0')
  }

  /** The answer to a parsed request: the response of its handler, written
      out. */
  function Answer(engine: PatternEngine, routes: seq<Route>, req: Request): (r: Outcome)
    ensures r.Responded? <==> CanonicalReason(Dispatch(engine, routes, req).status).Some?
    ensures r.Aborted? ==> r.cause == NoReasonPhrase
  {
    match Serialize(Dispatch(engine, routes, req))
    case None => Aborted(NoReasonPhrase)
    case Some(wire) => Responded(wire)
  }

  /** What `handle_connection` does with a request text, given the route
      table. */
  function Serve(engine: PatternEngine, routes: seq<Route>, text: string): (r: Outcome)
    ensures r.Responded? ==> Parse(text).Parsed?
    ensures r == Aborted(InvalidRequest) <==> Parse(text).Rejected?
  {
    match Parse(text)
    case NoMatch => Aborted(NoRequestLine)
    case Rejected => Aborted(InvalidRequest)
    case Parsed(req) => Answer(engine, routes, req)
  }

  class App {
    /** The pattern engine the routes are compiled and matched with. */
    const engine: PatternEngine
    /** `handlers`, in registration order. */
    var handlers: seq<Route>

    /** A fresh application has no routes. */
    constructor (engine: PatternEngine)
      ensures this.engine == engine && handlers == []
    {
      this.engine := engine;
      handlers := [];
    }

    /** `add_handler`: the pattern must compile (`Regex::new(..).unwrap()`);
        the route goes to the end of the table. */
    method AddHandler(pattern: string, handler: Handler)
      requires engine.compiles(pattern)
      modifies this
      ensures handlers == old(handlers) + [Route(pattern, handler)]
    {
      handlers := handlers + [Route(pattern, handler)];
    }

    /** `handle_connection` on the characters one read delivered.  It reads
        the route table and changes nothing. */
    method HandleConnection(received: string) returns (out: Outcome)
      requires |received| <= BufferSize
      ensures out == Serve(engine, handlers, BufferText(received))
    {
      var buffer := new char[BufferSize](_ => '\0');
      for i := 0 to |received|
        invariant forall j :: 0 <= j < i ==> buffer[j] == received[j]
        invariant forall j :: i <= j < BufferSize ==> buffer[j] == '\0'
      {
        buffer[i] := received[i];
      }
      var text := buffer[..];
      assert text == BufferText(received);
      var parsed := ParseRequest(text);
      match parsed {
        case NoMatch =>
          out := Aborted(NoRequestLine);
        case Rejected =>
          out := Aborted(InvalidRequest);
        case Parsed(req) =>
          var found := FirstMatch(engine, handlers, Path(req.target));
          var res := if found.Some? then handlers[found.value].handler(req) else NotFound(req);
          var headerString := WriteHeaders(res.headers);
          match CanonicalReason(res.status) {
            case None =>
              out := Aborted(NoReasonPhrase);
            case Some(reason) =>
              out := Responded(StatusLine(res.version, res.status, reason) + headerString + "\r\n" + res.body);
          }
      }
    }
  }

  /** A text with no well-formed request line anywhere aborts the
      connection, and only such a text does. */
  lemma {:induction false} ServeNoRequestLine(engine: PatternEngine, routes: seq<Route>, text: string)
    ensures Serve(engine, routes, text) == Aborted(NoRequestLine) <==>
      forall i, l :: 0 <= i <= |text| && WellFormedLine(l) ==> !At(text, i, LineText(l))
  {
    ParseNoMatch(text);
  }

  /** A request no route matches is answered with exactly
      `HTTP/1.1 404 Not Found`, a blank line and nothing else. */
  lemma {:induction false} ServeFallback(engine: PatternEngine, routes: seq<Route>, text: string, req: Request)
    requires Parse(text) == Parsed(req)
    requires forall j :: 0 <= j < |routes| ==> !engine.isMatch(routes[j].pattern, Path(req.target))
    ensures Serve(engine, routes, text) == Responded("HTTP/1.1 404 Not Found\r\n\r\n")
  {
    AnswerFallback(engine, routes, req);
  }

  lemma {:induction false} AnswerFallback(engine: PatternEngine, routes: seq<Route>, req: Request)
    requires forall j :: 0 <= j < |routes| ==> !engine.isMatch(routes[j].pattern, Path(req.target))
    ensures Answer(engine, routes, req) == Responded("HTTP/1.1 404 Not Found\r\n\r\n")
  {
    var res := Dispatch(engine, routes, req);
    assert res == Response(Http11, 404, [], "");
    ReasonGaps();
    assert StatusText(404) == "404";
    assert StatusLine(Http11, 404, "Not Found") == "HTTP/1.1 404 Not Found\r\n";
    assert ResponseText(res, "Not Found") == "HTTP/1.1 404 Not Found\r\n\r\n";
  }

  /** A request is answered by the first route whose pattern matches its
      path, serialised. */
  lemma {:induction false} ServeRouted(engine: PatternEngine, routes: seq<Route>, text: string, req: Request, i: nat)
    requires Parse(text) == Parsed(req)
    requires i < |routes| && engine.isMatch(routes[i].pattern, Path(req.target))
    requires forall j :: 0 <= j < i ==> !engine.isMatch(routes[j].pattern, Path(req.target))
    ensures Serve(engine, routes, text) ==
      match Serialize(routes[i].handler(req))
      case None => Aborted(NoReasonPhrase)
      case Some(wire) => Responded(wire)
  {
    DispatchFirst(engine, routes, req, i);
  }

  /** Adding a route never changes the answer to a request some earlier
      route already served. */
  lemma {:induction false} ServeAppend(engine: PatternEngine, routes: seq<Route>, route: Route, text: string, req: Request)
    requires Parse(text) == Parsed(req)
    requires FirstMatch(engine, routes, Path(req.target)).Some?
    ensures Serve(engine, routes + [route], text) == Serve(engine, routes, text)
  {
    FirstMatchAppend(engine, routes, route, Path(req.target));
  }
}

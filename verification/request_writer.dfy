/** `construct_request`: a request written back out as text, with the host of
    its URI as a `Host` header.  Two versions: the function as the library
    has it, and the corrected one that the request grammar reads back. */
module RequestWriter {
  import opened HttpTypes
  import opened HeaderCodec
  import opened Status
  import opened Query
  import opened RequestGrammar
  import opened RequestParser
  import opened ResponseWriter

  /** `{method} {path} {version:?}\r\n`. */
  function RequestLineText(m: string, path: string, v: Version): string
  {
    m + " " + path + " " + VersionText(v) + "\r\n"
  }

  function HostLine(host: string): string
  {
    "Host: " + host + "\r\n"
  }

  /** `{host:?}` for a host a URI can hold: it has no quote, backslash or
      control character to escape, so `Debug` only adds the quotes. */
  function Quoted(host: string): string
  {
    "\"" + host + "\""
  }

  /** `format!("{}: {}", name, parse_header(value))` for one field. */
  function Entry(h: Header): string
  {
    Lower(h.name) + ": " + ParseHeader(h.value)
  }

  /** The entries joined with `\r\n`, which puts no CRLF after the last. */
  function Joined(hs: seq<Header>): string
  {
    if hs == [] then ""
    else if |hs| == 1 then Entry(hs[0])
    else Joined(hs[..|hs| - 1]) + "\r\n" + Entry(hs[|hs| - 1])
  }

  /** The text `construct_request` formats for a request whose URI has host
      `host`. */
  function ConstructText(req: Request, host: string): (r: string)
    ensures req.headers == [] ==> r == WriteText(req, Quoted(host))
  {
    RequestLineText(req.httpMethod, Path(req.target), req.version)
    + HostLine(Quoted(host)) + Joined(req.headers) + "\r\n" + req.body
  }

  /** `construct_request` as written; `None` when the URI has no host and the
      `unwrap` on it fails. */
  function ConstructRequest(req: Request): (r: Option<string>)
    ensures r.None? <==> Host(req.target).None?
  {
    match Host(req.target)
    case None => None
    case Some(host) =>
      Some(ConstructText(req, host))
  }

  /** The joined entries miss exactly the CRLF that ends the last header
      line. */
  lemma {:induction false} JoinedBlock(hs: seq<Header>)
    requires hs != []
    ensures Joined(hs) + "\r\n" == HeaderBlock(hs)
    decreases |hs|
  {
    if |hs| > 1 {
      JoinedBlock(hs[..|hs| - 1]);
    } else {
      assert hs[..0] == [];
    }
  }

  /** What `construct_request` writes: the `Host` value keeps the quotes of
      its `Debug` form, and when there is at least one header the body
      follows the last header line with no blank line between them. */
  lemma {:induction false} ConstructRequestText(req: Request)
    requires Host(req.target).Some?
    ensures var line := RequestLineText(req.httpMethod, Path(req.target), req.version);
      var host := HostLine(Quoted(Host(req.target).value));
      && (req.headers == [] ==> ConstructRequest(req).value == line + host + "\r\n" + req.body)
      && (req.headers != [] ==> ConstructRequest(req).value == line + host + HeaderBlock(req.headers) + req.body)
  {
    var line := RequestLineText(req.httpMethod, Path(req.target), req.version);
    var host := HostLine(Quoted(Host(req.target).value));
    if req.headers != [] {
      JoinedBlock(req.headers);
      Assoc(line + host, Joined(req.headers), "\r\n");
    } else {
      assert line + host + "" == line + host;
    }
  }

  lemma {:induction false} Assoc(a: string, b: string, c: string)
    ensures a + b + c == a + (b + c)
  {
  }

  /** The corrected text for a request whose URI has host `host`. */
  function WriteText(req: Request, host: string): (r: string)
    ensures |r| >= |req.body| + 2 && r[|r| - |req.body| - 2..] == "\r\n" + req.body
  {
    RequestLineText(req.httpMethod, Path(req.target), req.version)
    + HostLine(host) + HeaderBlock(req.headers) + "\r\n" + req.body
  }

  /** The corrected `construct_request`: the bare host, and a CRLF after every
      header line before the blank line and the body. */
  function WriteRequest(req: Request): (r: Option<string>)
    ensures r.None? <==> Host(req.target).None?
  {
    match Host(req.target)
    case None => None
    case Some(host) =>
      Some(WriteText(req, host))
  }

  /** Text that can stand as a header value on one line. */
  predicate IsVisibleText(t: string)
  {
    |t| > 0 && forall i :: 0 <= i < |t| ==> IsVisibleAscii(t[i])
  }

  /** What the request grammar needs of a request to read it back. */
  predicate Writable(m: string, path: string, v: Version, host: string, hs: seq<Header>)
  {
    && |m| > 0 && (forall i :: 0 <= i < |m| ==> In(m[i], Upper))
    && ' ' !in path && path != ""
    && (v == Http10 || v == Http11)
    && IsVisibleText(host)
    && forall i :: 0 <= i < |hs| ==> IsTokenName(hs[i].name) && hs[i].value != ""
  }

  /** `headers` is a `host: host` field followed by the fields of `hs` as the
      text shows them (lower-case name, quote-stripped value). */
  predicate Echoes(headers: seq<Header>, host: string, hs: seq<Header>)
  {
    && |headers| == |hs| + 1
    && headers[0].name == "host" && headers[0].value == host
    && forall i :: 0 <= i < |hs| ==>
         headers[i + 1].name == Lower(hs[i].name) && headers[i + 1].value == ParseHeader(hs[i].value)
  }

  /** Parsing a written request line, `Host` line and header lines, followed
      by `rest`. */
  lemma {:induction false} ParseWritten(m: string, path: string, v: Version, host: string, hs: seq<Header>, rest: string)
    requires Writable(m, path, v, host, hs)
    requires rest == [] || !In(rest[0], NameChar)
    ensures var w := RequestLineText(m, path, v) + HostLine(host) + HeaderBlock(hs) + rest;
      && Parse(w).Parsed?
      && Parse(w).request.httpMethod == m && Parse(w).request.target == path
      && Parse(w).request.version == Http11
      && Echoes(Parse(w).request.headers, host, hs)
      && Parse(w).request.body == BodyAfter(rest)
  {
    var l := WrittenLine(m, path, v);
    var fs := [FieldLine("Host", host)] + ResponseFields(hs);
    RenderWritten(host, hs, fs);
    var w := RequestLineText(m, path, v) + HostLine(host) + HeaderBlock(hs) + rest;
    Assoc(LineText(l), HostLine(host), HeaderBlock(hs));
    RequestTextConcat(l, fs, rest);
    WrittenFieldsValid(host, hs, fs);
    ParseRequestText(w, l, fs, rest);
    EchoesWritten(host, hs, fs);
  }

  /** The request line the grammar finds in a written request line. */
  function WrittenLine(m: string, path: string, v: Version): (l: RequestLine)
    requires Writable(m, path, v, "x", [])
    ensures WellFormedLine(l)
    ensures LineText(l) == RequestLineText(m, path, v)
    ensures l.httpMethod == m && l.target == path
  {
    var l := RequestLine(m, path, VersionText(v)[7]);
    assert forall i :: 0 <= i < |path| ==> In(path[i], NotSpace) by {
      forall i | 0 <= i < |path| ensures In(path[i], NotSpace) {
        assert path[i] in path;
      }
    }
    l
  }

  lemma {:induction false} RenderWritten(host: string, hs: seq<Header>, fs: seq<FieldLine>)
    requires fs == [FieldLine("Host", host)] + ResponseFields(hs)
    ensures Render(fs) == HostLine(host) + HeaderBlock(hs)
  {
    HeaderBlockRender(hs);
    assert fs[1..] == ResponseFields(hs);
    assert Render(fs) == FieldText(fs[0]) + Render(ResponseFields(hs));
    HostField(host);
  }

  lemma {:induction false} HostField(host: string)
    ensures FieldText(FieldLine("Host", host)) == HostLine(host)
  {
    assert "Host" + ": " == "Host: ";
  }

  lemma {:induction false} EchoesWritten(host: string, hs: seq<Header>, fs: seq<FieldLine>)
    requires fs == [FieldLine("Host", host)] + ResponseFields(hs)
    requires AllFieldValues(FieldPairs(fs))
    ensures Echoes(FieldHeaders(fs), host, hs)
  {
    var q := FieldHeaders(fs);
    assert q[0].name == Lower("Host");
    assert Lower("Host") == "host";
    forall i | 0 <= i < |hs|
      ensures q[i + 1].name == Lower(hs[i].name) && q[i + 1].value == ParseHeader(hs[i].value)
    {
      EchoedField(host, hs, fs, i);
    }
  }

  lemma {:induction false} EchoedField(host: string, hs: seq<Header>, fs: seq<FieldLine>, i: nat)
    requires fs == [FieldLine("Host", host)] + ResponseFields(hs)
    requires AllFieldValues(FieldPairs(fs))
    requires i < |hs|
    ensures FieldHeaders(fs)[i + 1].name == Lower(hs[i].name)
    ensures FieldHeaders(fs)[i + 1].value == ParseHeader(hs[i].value)
  {
    assert fs[i + 1] == ResponseField(hs[i]);
    LowerTwice(hs[i].name);
  }

  lemma {:induction false} WrittenFieldsValid(host: string, hs: seq<Header>, fs: seq<FieldLine>)
    requires IsVisibleText(host)
    requires forall i :: 0 <= i < |hs| ==> IsTokenName(hs[i].name) && hs[i].value != ""
    requires fs == [FieldLine("Host", host)] + ResponseFields(hs)
    ensures forall j :: 0 <= j < |fs| ==> WellFormedField(fs[j])
    ensures AllFieldValues(FieldPairs(fs))
  {
    HostFieldValid(host);
    forall j | 0 <= j < |fs| ensures WellFormedField(fs[j]) && IsFieldValue(fs[j].value) {
      if j > 0 {
        assert fs[j] == ResponseFields(hs)[j - 1];
        EchoedFieldValid(hs[j - 1]);
      }
    }
  }

  lemma {:induction false} HostFieldValid(host: string)
    requires IsVisibleText(host)
    ensures WellFormedField(FieldLine("Host", host)) && IsFieldValue(host)
  {
    assert "Host"[0] == 'H' && "Host"[1] == 'o' && "Host"[2] == 's' && "Host"[3] == 't';
  }

  lemma {:induction false} EchoedFieldValid(h: Header)
    requires IsTokenName(h.name) && h.value != ""
    ensures WellFormedField(ResponseField(h)) && IsFieldValue(ResponseField(h).value)
  {
    ResponseFieldWellFormed(h);
    EscapeVisible(h.value);
  }

  /** A text without LF is its own first line. */
  lemma {:induction false} UpToLfWhole(t: string)
    requires '\n' !in t
    ensures UpToLf(t) == t
  {
    UpToLfSound(t);
  }

  /** The corrected writer and the parser are inverse: the text reads back as
      the request's method, path, a `Host` field with the bare host, its
      header fields in order and its body. */
  lemma {:induction false} WriteRequestRoundTrip(req: Request)
    requires Host(req.target).Some?
    requires Writable(req.httpMethod, Path(req.target), req.version, Host(req.target).value, req.headers)
    requires '\n' !in req.body
    ensures var q := Parse(WriteRequest(req).value);
      && q.Parsed?
      && q.request.httpMethod == req.httpMethod && q.request.target == Path(req.target)
      && Echoes(q.request.headers, Host(req.target).value, req.headers)
      && q.request.body == req.body
  {
    WriteTextRoundTrip(req, Host(req.target).value);
  }

  lemma {:induction false} WriteTextRoundTrip(req: Request, host: string)
    requires Writable(req.httpMethod, Path(req.target), req.version, host, req.headers)
    requires '\n' !in req.body
    ensures var q := Parse(WriteText(req, host));
      && q.Parsed?
      && q.request.httpMethod == req.httpMethod && q.request.target == Path(req.target)
      && Echoes(q.request.headers, host, req.headers)
      && q.request.body == req.body
  {
    var line := RequestLineText(req.httpMethod, Path(req.target), req.version);
    var rest := "\r\n" + req.body;
    ParseWritten(req.httpMethod, Path(req.target), req.version, host, req.headers, rest);
    Assoc(line + HostLine(host) + HeaderBlock(req.headers), "\r\n", req.body);
    assert rest[2..] == req.body;
    UpToLfWhole(req.body);
  }

  /** The request `construct_request` writes does not read back: when it has
      a header and a body that starts with neither a name character nor CR
      (such as `42`), the body is lost, and the `Host` field holds the quoted
      host. */
  lemma {:induction false} ConstructRequestLosesBody(req: Request)
    requires Host(req.target).Some?
    requires Writable(req.httpMethod, Path(req.target), req.version, Host(req.target).value, req.headers)
    requires req.headers != []
    requires req.body != "" && !In(req.body[0], NameChar) && req.body[0] != '\r'
    ensures var q := Parse(ConstructRequest(req).value);
      && q.Parsed?
      && Echoes(q.request.headers, Quoted(Host(req.target).value), req.headers)
      && q.request.body == "" != req.body
  {
    ConstructTextLosesBody(req, Host(req.target).value);
  }

  lemma {:induction false} ConstructTextLosesBody(req: Request, host: string)
    requires Writable(req.httpMethod, Path(req.target), req.version, host, req.headers)
    requires req.headers != []
    requires req.body != "" && !In(req.body[0], NameChar) && req.body[0] != '\r'
    ensures var q := Parse(ConstructText(req, host));
      && q.Parsed?
      && Echoes(q.request.headers, Quoted(host), req.headers)
      && q.request.body == ""
  {
    var line := RequestLineText(req.httpMethod, Path(req.target), req.version);
    JoinedBlock(req.headers);
    Assoc(line + HostLine(Quoted(host)), Joined(req.headers), "\r\n");
    QuotedVisible(host);
    ParseWritten(req.httpMethod, Path(req.target), req.version, Quoted(host), req.headers, req.body);
  }

  lemma {:induction false} QuotedVisible(host: string)
    requires IsVisibleText(host)
    ensures IsVisibleText(Quoted(host))
  {
  }
}

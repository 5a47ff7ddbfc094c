/** The tail of `handle_connection`: the response a handler returned is
    written out as a status line (section 4 of RFC 9112), one
    `name: value` line per header field, a blank line and the body. */
module ResponseWriter {
  import opened HttpTypes
  import opened HeaderCodec
  import opened Status
  import opened RequestGrammar

  /** One header line: the name as `HeaderName` prints it (lower case) and
      the value as `parse_header` gives it. */
  function HeaderLine(h: Header): string
  {
    Lower(h.name) + ": " + ParseHeader(h.value) + "\r\n"
  }

  /** The header text after the lines of `hs` have been appended one by one;
      every line holds at least its `: ` and its CRLF. */
  function HeaderBlock(hs: seq<Header>): (r: string)
    ensures |r| >= 4 * |hs|
  {
    if hs == [] then "" else HeaderBlock(hs[..|hs| - 1]) + HeaderLine(hs[|hs| - 1])
  }

  /** The `for_each` that grows `header_string`, one line per field in
      iteration order. */
  method WriteHeaders(hs: seq<Header>) returns (block: string)
    ensures block == HeaderBlock(hs)
  {
    block := "";
    for i := 0 to |hs|
      invariant block == HeaderBlock(hs[..i])
    {
      assert hs[..i + 1][..i] == hs[..i];
      block := block + HeaderLine(hs[i]);
    }
    assert hs[..|hs|] == hs;
  }

  /** `{version:?} {status} {reason}\r\n`. */
  function StatusLine(v: Version, s: StatusCode, reason: string): (r: string)
    ensures |r| == 15 + |reason|
  {
    VersionText(v) + " " + StatusText(s) + " " + reason + "\r\n"
  }

  /** The `res_str` of a response whose reason phrase is `reason`. */
  function ResponseText(res: Response, reason: string): string
  {
    StatusLine(res.version, res.status, reason) + HeaderBlock(res.headers) + "\r\n" + res.body
  }

  /** The response text, or `None` when the status has no canonical reason
      phrase and the `unwrap` on it fails. */
  function Serialize(res: Response): (r: Option<string>)
    ensures r.None? <==> CanonicalReason(res.status).None?
    ensures r.Some? ==> r.value == ResponseText(res, CanonicalReason(res.status).value)
  {
    match CanonicalReason(res.status)
    case None => None
    case Some(reason) => Some(ResponseText(res, reason))
  }

  /** The status line reads back as the response's version and status, and
      the text ends with the body. */
  lemma {:induction false} ResponseTextReadsBack(res: Response, reason: string)
    ensures var w := ResponseText(res, reason);
      && |w| >= 15 + |res.body|
      && ParseVersion(w[..8]) == Some(res.version) && w[8] == ' '
      && ParseStatus(w[9..12]) == res.status && w[12] == ' '
      && w[|w| - |res.body|..] == res.body
  {
    var line := StatusLine(res.version, res.status, reason);
    var front := line + HeaderBlock(res.headers) + "\r\n";
    PrefixParts(VersionText(res.version), StatusText(res.status), reason, HeaderBlock(res.headers) + "\r\n" + res.body);
    assert ResponseText(res, reason) == line + (HeaderBlock(res.headers) + "\r\n" + res.body);
    ParseVersionText(res.version);
    ParseStatusText(res.status);
    SuffixPart(front, res.body);
  }

  /** Where the pieces of a status line sit in a text that starts with it. */
  lemma {:induction false} PrefixParts(v: string, code: string, reason: string, rest: string)
    requires |v| == 8 && |code| == 3
    ensures var w := v + " " + code + " " + reason + "\r\n" + rest;
      w[..8] == v && w[8] == ' ' && w[9..12] == code && w[12] == ' '
  {
  }

  lemma {:induction false} SuffixPart(front: string, back: string)
    ensures (front + back)[|front + back| - |back|..] == back
  {
  }

  /** A header line in the shape the request grammar reads: the name and the
      quote-stripped value. */
  function ResponseField(h: Header): FieldLine
  {
    FieldLine(Lower(h.name), ParseHeader(h.value))
  }

  function ResponseFields(hs: seq<Header>): (r: seq<FieldLine>)
    ensures |r| == |hs|
    ensures forall i :: 0 <= i < |hs| ==> r[i] == ResponseField(hs[i])
  {
    if hs == [] then [] else ResponseFields(hs[..|hs| - 1]) + [ResponseField(hs[|hs| - 1])]
  }

  lemma {:induction false} RenderAppend(fs: seq<FieldLine>, f: FieldLine)
    ensures Render(fs + [f]) == Render(fs) + FieldText(f)
    decreases |fs|
  {
    if fs == [] {
      assert [f][1..] == [];
    } else {
      assert (fs + [f])[1..] == fs[1..] + [f];
      RenderAppend(fs[1..], f);
    }
  }

  /** The header block is the text of the header lines the request grammar
      reads. */
  lemma {:induction false} HeaderBlockRender(hs: seq<Header>)
    ensures HeaderBlock(hs) == Render(ResponseFields(hs))
    decreases |hs|
  {
    if hs != [] {
      HeaderBlockRender(hs[..|hs| - 1]);
      RenderAppend(ResponseFields(hs[..|hs| - 1]), ResponseField(hs[|hs| - 1]));
    }
  }

  /** The escape of a header value is visible ASCII (so a single line and
      itself a valid header value): the `http` crate refuses CR, LF and the
      other control characters but tab in a value, and every escape is
      printable. */
  lemma {:induction false} EscapeVisible(v: FieldValue)
    ensures forall i :: 0 <= i < |Escape(v)| ==> IsVisibleAscii(Escape(v)[i])
    ensures |Escape(v)| >= |v|
  {
    EscapeLength(v);
    if v != [] {
      assert IsFieldValueChar(v[0]);
      var rest: FieldValue := v[1..];
      EscapeVisible(rest);
      EscapeCharVisible(v[0]);
      var e0, e1 := EscapeChar(v[0]), Escape(rest);
      assert Escape(v) == e0 + e1;
      forall i | 0 <= i < |Escape(v)| ensures IsVisibleAscii(Escape(v)[i]) {
        if i >= |e0| {
          assert Escape(v)[i] == e1[i - |e0|];
        }
      }
    }
  }

  lemma {:induction false} EscapeCharVisible(c: char)
    requires IsFieldValueChar(c)
    ensures forall i :: 0 <= i < |EscapeChar(c)| ==> IsVisibleAscii(EscapeChar(c)[i])
  {
    if c != '"' && !IsVisibleAscii(c) {
      HexEscapesVisible(Utf8.EncodeChar(c));
    }
  }

  lemma {:induction false} HexEscapesVisible(bs: seq<Utf8.byte>)
    ensures forall i :: 0 <= i < |HexEscapes(bs)| ==> IsVisibleAscii(HexEscapes(bs)[i])
  {
    if bs != [] {
      HexEscapesVisible(bs[1..]);
      var h := "\\x" + LowerHex(bs[0]);
      assert HexEscapes(bs) == h + HexEscapes(bs[1..]);
      forall i | 0 <= i < |HexEscapes(bs)| ensures IsVisibleAscii(HexEscapes(bs)[i]) {
        if i >= |h| {
          assert HexEscapes(bs)[i] == HexEscapes(bs[1..])[i - |h|];
        }
      }
    }
  }

  /** A name made of letters and hyphens. */
  predicate IsTokenName(n: string)
  {
    |n| > 0 && forall i :: 0 <= i < |n| ==> In(n[i], NameChar)
  }

  /** A header whose name is letters and hyphens and whose value is not
      empty gives a well-formed header line. */
  lemma {:induction false} ResponseFieldWellFormed(h: Header)
    requires IsTokenName(h.name) && h.value != ""
    ensures WellFormedField(ResponseField(h))
  {
    EscapeVisible(h.value);
    var n := Lower(h.name);
    forall i | 0 <= i < |n| ensures In(n[i], NameChar) {
      assert In(h.name[i], NameChar);
    }
  }

  /** In the response text the header block starts right after the status
      line and is followed by the CR of the blank line. */
  lemma {:induction false} HeaderBlockPlace(res: Response, reason: string)
    ensures var w := ResponseText(res, reason);
      var k := 15 + |reason|;
      At(w, k, HeaderBlock(res.headers)) && k + |HeaderBlock(res.headers)| < |w|
      && w[k + |HeaderBlock(res.headers)|] == '\r'
  {
    MiddleParts(StatusLine(res.version, res.status, reason), HeaderBlock(res.headers), "\r\n", res.body);
  }

  /** The header block read back with the request grammar: when every
      header name is letters and hyphens and every value is non-empty, the
      header group found where a header block starts, followed by CR,
      captures exactly the fields, in order, with their quote-stripped
      values. */
  lemma {:induction false} BlockAt(s: string, k: nat, hs: seq<Header>)
    requires forall i :: 0 <= i < |hs| ==> IsTokenName(hs[i].name) && hs[i].value != ""
    requires At(s, k, HeaderBlock(hs)) && k + |HeaderBlock(hs)| < |s| && s[k + |HeaderBlock(hs)|] == '\r'
    ensures FieldBlock(s, k) == (ResponseFields(hs), k + |HeaderBlock(hs)|)
  {
    HeaderBlockRender(hs);
    FieldsWellFormed(hs);
    FieldsAt(s, k, ResponseFields(hs));
  }

  lemma {:induction false} FieldsAt(s: string, k: nat, fs: seq<FieldLine>)
    requires forall j :: 0 <= j < |fs| ==> WellFormedField(fs[j])
    requires At(s, k, Render(fs)) && k + |Render(fs)| < |s| && s[k + |Render(fs)|] == '\r'
    ensures FieldBlock(s, k) == (fs, k + |Render(fs)|)
  {
    NoFieldAt(s, k + |Render(fs)|);
    FieldBlockComplete(s, k, fs);
  }

  /** In `a + b + c + d`, `b` occurs right after `a` and is followed by the
      first character of `c`. */
  lemma {:induction false} MiddleParts(a: string, b: string, c: string, d: string)
    requires |c| > 0
    ensures At(a + b + c + d, |a|, b) && (a + b + c + d)[|a| + |b|] == c[0]
  {
    var s := a + b + c + d;
    forall j | 0 <= j < |b| ensures s[|a| + j] == b[j] {
    }
  }

  lemma {:induction false} FieldsWellFormed(hs: seq<Header>)
    requires forall i :: 0 <= i < |hs| ==> IsTokenName(hs[i].name) && hs[i].value != ""
    ensures forall j :: 0 <= j < |hs| ==> WellFormedField(ResponseFields(hs)[j])
  {
    forall j | 0 <= j < |hs| ensures WellFormedField(ResponseFields(hs)[j]) {
      ResponseFieldWellFormed(hs[j]);
    }
  }
}

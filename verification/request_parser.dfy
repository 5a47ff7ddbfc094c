/** `parse_request`: search the request text with the pattern of
    RequestGrammar, split the header group into (name, value) pairs with the
    iterator chain `split("\r\n")`, `filter`, `split_once(": ")`, and add the
    pairs one by one to an `http` request builder. */
module RequestParser {
  import opened HttpTypes
  import opened RequestGrammar
  import HeaderCodec

  /** What `parse_request` comes to.  `NoMatch` is its `None`; `Rejected` is
      the builder error that makes the final `unwrap` panic. */
  datatype ParseResult = Parsed(request: Request) | NoMatch | Rejected

  // ----- The iterator chain over the header group -----

  /** `str::split("\r\n")`: the pieces between the CRLFs, found left to right
      without overlap. */
  function SplitCrlf(s: string): (r: seq<string>)
    ensures |r| >= 1
    decreases |s|
  {
    if |s| == 0 then [""]
    else if |s| >= 2 && s[0] == '\r' && s[1] == '\n' then [""] + SplitCrlf(s[2..])
    else
      var t := SplitCrlf(s[1..]);
      [[s[0]] + t[0]] + t[1..]
  }

  /** `.filter(|x| x != &"")` */
  function NonEmpty(xs: seq<string>): (r: seq<string>)
    ensures |r| <= |xs|
  {
    if xs == [] then []
    else (if xs[0] == "" then [] else [xs[0]]) + NonEmpty(xs[1..])
  }

  predicate SeparatorAt(s: string, j: int)
  {
    0 <= j && j + 1 < |s| && s[j] == ':' && s[j + 1] == ' '
  }

  /** `str::split_once(": ")`: the text before and after the first ": ". */
  function SplitOnce(s: string): (r: Option<(string, string)>)
    ensures r.None? <==> forall j :: 0 <= j < |s| ==> !SeparatorAt(s, j)
    ensures r.Some? ==> s == r.value.0 + ": " + r.value.1
    ensures r.Some? ==> forall j :: 0 <= j < |r.value.0| ==> !SeparatorAt(s, j)
    decreases |s|
  {
    if |s| < 2 then None
    else if s[0] == ':' && s[1] == ' ' then
      assert SeparatorAt(s, 0);
      Some(("", s[2..]))
    else
      var r := SplitOnce(s[1..]);
      SeparatorShift(s);
      if r.None? then None
      else
        assert SeparatorAt(s[1..], |r.value.0|);
        assert SeparatorAt(s, |r.value.0| + 1);
        assert s == [s[0]] + s[1..];
        Some(([s[0]] + r.value.0, r.value.1))
  }

  lemma SeparatorShift(s: string)
    requires |s| > 0
    ensures forall j :: 1 <= j < |s| ==> (SeparatorAt(s, j) <==> SeparatorAt(s[1..], j - 1))
  {
  }

  /** `.map(|x| x.split_once(": ").unwrap())`, on lines that all hold the
      separator (HeaderGroupSplits shows that the unwrap never fails). */
  function Pairs(lines: seq<string>): (r: seq<(string, string)>)
    requires forall i :: 0 <= i < |lines| ==> SplitOnce(lines[i]).Some?
    ensures |r| == |lines|
  {
    if lines == [] then [] else [SplitOnce(lines[0]).value] + Pairs(lines[1..])
  }

  /** The (name, value) pairs a run of header lines stands for. */
  function FieldPairs(fs: seq<FieldLine>): (r: seq<(string, string)>)
  {
    seq(|fs|, i requires 0 <= i < |fs| => (fs[i].name, fs[i].value))
  }

  function FieldLines(fs: seq<FieldLine>): seq<string>
  {
    seq(|fs|, i requires 0 <= i < |fs| => fs[i].name + ": " + fs[i].value)
  }

  lemma {:induction false} SplitCrlfFirst(x: string, rest: string)
    requires forall i :: 0 <= i < |x| ==> x[i] != '\r'
    ensures SplitCrlf(x + "\r\n" + rest) == [x] + SplitCrlf(rest)
    decreases |x|
  {
    var s := x + "\r\n" + rest;
    if x == [] {
      assert s[2..] == rest;
    } else {
      assert s[1..] == x[1..] + "\r\n" + rest;
      SplitCrlfFirst(x[1..], rest);
      assert [x[0]] + x[1..] == x;
    }
  }

  lemma {:induction false} SplitOnceName(name: string, value: string)
    requires forall i :: 0 <= i < |name| ==> In(name[i], NameChar)
    ensures SplitOnce(name + ": " + value) == Some((name, value))
    decreases |name|
  {
    var s := name + ": " + value;
    if name == [] {
      assert s[2..] == value;
    } else {
      assert s[1..] == name[1..] + ": " + value;
      SplitOnceName(name[1..], value);
      assert [name[0]] + name[1..] == name;
    }
  }

  /** The iterator chain recovers, in order, the lines of a rendered run of
      header lines, and splits each at the ": " right after its name. */
  lemma {:induction false} SplitRendered(fs: seq<FieldLine>)
    requires forall j :: 0 <= j < |fs| ==> WellFormedField(fs[j])
    ensures NonEmpty(SplitCrlf(Render(fs))) == FieldLines(fs)
    ensures forall i :: 0 <= i < |fs| ==> SplitOnce(FieldLines(fs)[i]) == Some(FieldPairs(fs)[i])
  {
    SplitLines(fs);
    forall i | 0 <= i < |fs| ensures SplitOnce(FieldLines(fs)[i]) == Some(FieldPairs(fs)[i]) {
      SplitOnceName(fs[i].name, fs[i].value);
    }
  }

  lemma {:induction false} SplitLines(fs: seq<FieldLine>)
    requires forall j :: 0 <= j < |fs| ==> WellFormedField(fs[j])
    ensures NonEmpty(SplitCrlf(Render(fs))) == FieldLines(fs)
    decreases |fs|
  {
    if fs == [] {
      assert SplitCrlf("") == [""];
      assert NonEmpty([""]) == [];
    } else {
      var x := fs[0].name + ": " + fs[0].value;
      SplitLinesStep(fs);
      SplitLines(fs[1..]);
      assert FieldLines(fs) == [x] + FieldLines(fs[1..]);
    }
  }

  /** The first line of a rendered run comes off whole. */
  lemma {:induction false} SplitLinesStep(fs: seq<FieldLine>)
    requires fs != [] && WellFormedField(fs[0])
    ensures var x := fs[0].name + ": " + fs[0].value;
      NonEmpty(SplitCrlf(Render(fs))) == [x] + NonEmpty(SplitCrlf(Render(fs[1..])))
  {
    var f := fs[0];
    var x := f.name + ": " + f.value;
    assert x + "\r\n" + Render(fs[1..]) == Render(fs);
    forall i | 0 <= i < |x| ensures x[i] != '\r' {
      if i < |f.name| { assert x[i] == f.name[i]; }
      else if i >= |f.name| + 2 { assert x[i] == f.value[i - |f.name| - 2]; }
    }
    SplitCrlfFirst(x, Render(fs[1..]));
    var xs := [x] + SplitCrlf(Render(fs[1..]));
    assert xs[1..] == SplitCrlf(Render(fs[1..]));
  }

  /** What the chain makes of the header group that the pattern captured at
      `k`: exactly the pairs of its lines, in input order. */
  lemma {:induction false} HeaderGroupSplits(s: string, k: nat)
    requires k <= |s|
    ensures var (fs, e) := FieldBlock(s, k);
      && e <= |s|
      && var lines := NonEmpty(SplitCrlf(Sub(s, k, e)));
      && (forall i :: 0 <= i < |lines| ==> SplitOnce(lines[i]).Some?)
      && Pairs(lines) == FieldPairs(fs)
  {
    var (fs, e) := FieldBlock(s, k);
    FieldBlockSound(s, k);
    AtSub(s, k, Render(fs));
    SplitRendered(fs);
    var lines := NonEmpty(SplitCrlf(Sub(s, k, e)));
    assert lines == FieldLines(fs);
    PairsOfLines(fs);
  }

  lemma {:induction false} PairsOfLines(fs: seq<FieldLine>)
    requires forall i :: 0 <= i < |fs| ==> SplitOnce(FieldLines(fs)[i]) == Some(FieldPairs(fs)[i])
    ensures Pairs(FieldLines(fs)) == FieldPairs(fs)
    decreases |fs|
  {
    if fs != [] {
      assert FieldLines(fs)[1..] == FieldLines(fs[1..]);
      assert FieldPairs(fs)[1..] == FieldPairs(fs[1..]);
      PairsOfLines(fs[1..]);
    }
  }

  // ----- The request builder -----

  /** `http::request::Builder`, reduced to what `parse_request` uses: once a
      header value is refused the builder keeps the error. */
  datatype RequestBuilder = Building(httpMethod: string, target: string, headers: seq<Header>) | Failed

  function Start(httpMethod: string, target: string): RequestBuilder
  {
    Building(httpMethod, target, [])
  }

  /** `build.header(key, value)`: the name becomes a `HeaderName`, which
      keeps it in lower case. */
  function WithHeader(b: RequestBuilder, name: string, value: string): (r: RequestBuilder)
  {
    if b.Failed? || !IsFieldValue(value) then Failed
    else Building(b.httpMethod, b.target, b.headers + [Header(HeaderCodec.Lower(name), value)])
  }

  /** `build.body(body).unwrap()`: a builder error becomes `Rejected`.  The
      request keeps the builder's default version. */
  function Finish(b: RequestBuilder, body: string): ParseResult
  {
    if b.Failed? then Rejected else Parsed(Request(b.httpMethod, b.target, Http11, b.headers, body))
  }

  /** The builder after the `for` loop over `pairs`. */
  function AddHeaders(b: RequestBuilder, pairs: seq<(string, string)>): RequestBuilder
    decreases |pairs|
  {
    if pairs == [] then b else AddHeaders(WithHeader(b, pairs[0].0, pairs[0].1), pairs[1..])
  }

  predicate AllFieldValues(pairs: seq<(string, string)>)
  {
    forall i :: 0 <= i < |pairs| ==> IsFieldValue(pairs[i].1)
  }

  function ToHeaders(pairs: seq<(string, string)>): (r: seq<Header>)
    requires AllFieldValues(pairs)
  {
    seq(|pairs|, i requires 0 <= i < |pairs| => Header(HeaderCodec.Lower(pairs[i].0), pairs[i].1))
  }

  /** The loop adds every pair in order, and fails as soon as one value is
      refused. */
  lemma {:induction false} AddHeadersResult(m: string, t: string, hs: seq<Header>, pairs: seq<(string, string)>)
    ensures AllFieldValues(pairs) ==> AddHeaders(Building(m, t, hs), pairs) == Building(m, t, hs + ToHeaders(pairs))
    ensures !AllFieldValues(pairs) ==> AddHeaders(Building(m, t, hs), pairs) == Failed
    decreases |pairs|
  {
    if pairs != [] {
      var p := pairs[0];
      if IsFieldValue(p.1) {
        AddHeadersResult(m, t, hs + [Header(HeaderCodec.Lower(p.0), p.1)], pairs[1..]);
        if AllFieldValues(pairs) {
          assert ToHeaders(pairs) == [Header(HeaderCodec.Lower(p.0), p.1)] + ToHeaders(pairs[1..]);
        } else {
          assert !AllFieldValues(pairs[1..]) by {
            var i :| 0 <= i < |pairs| && !IsFieldValue(pairs[i].1);
            assert pairs[1..][i - 1] == pairs[i];
          }
        }
      } else {
        FailedStays(pairs[1..]);
      }
    } else {
      assert hs + ToHeaders(pairs) == hs;
    }
  }

  lemma {:induction false} FailedStays(pairs: seq<(string, string)>)
    ensures AddHeaders(Failed, pairs) == Failed
    decreases |pairs|
  {
    if pairs != [] {
      FailedStays(pairs[1..]);
    }
  }

  // ----- parse_request -----

  /** The fields of the header block, as the request stores them: names in
      lower case, values as captured. */
  function FieldHeaders(fs: seq<FieldLine>): seq<Header>
    requires AllFieldValues(FieldPairs(fs))
  {
    ToHeaders(FieldPairs(fs))
  }

  /** What `parse_request` makes of `s`, stated on the captures: method and
      target of the leftmost request line, the longest run of header lines
      right after it (in input order) and the body group after that run.
      The builder refuses the request exactly when one of those header
      values is not a valid field value. */
  function Parse(s: string): (r: ParseResult)
    ensures r.Parsed? ==> r.request.version == Http11
  {
    var found := Leftmost(s, 0);
    if found.None? then NoMatch else ParseFrom(s, found.value)
  }

  /** The parse once the leftmost request line is known: the line and where
      it starts. */
  function ParseFrom(s: string, found: (nat, RequestLine)): ParseResult
    requires found.0 + |LineText(found.1)| <= |s|
  {
    var block := FieldBlock(s, found.0 + |LineText(found.1)|);
    Assemble(found.1, block.0, BodyAt(s, block.1))
  }

  /** The request the builder makes of a request line, its header lines and
      a body, or its refusal when a header value is not a valid field value. */
  function Assemble(l: RequestLine, fs: seq<FieldLine>, body: string): ParseResult
  {
    if AllFieldValues(FieldPairs(fs)) then
      Parsed(Request(l.httpMethod, l.target, Http11, FieldHeaders(fs), body))
    else
      Rejected
  }

  /** The builder accepts the header lines exactly when every value is a
      valid field value, and then stores one field per line, in order, under
      the lower-case name. */
  lemma {:induction false} AssembleHeaders(l: RequestLine, fs: seq<FieldLine>, body: string)
    ensures !Assemble(l, fs, body).NoMatch?
    ensures Assemble(l, fs, body).Parsed? <==> forall j :: 0 <= j < |fs| ==> IsFieldValue(fs[j].value)
    ensures var r := Assemble(l, fs, body);
      r.Parsed? ==> r.request.httpMethod == l.httpMethod && r.request.target == l.target && r.request.body == body
    ensures var r := Assemble(l, fs, body);
      r.Parsed? ==> |r.request.headers| == |fs| && forall j :: 0 <= j < |fs| ==>
        r.request.headers[j] == Header(HeaderCodec.Lower(fs[j].name), fs[j].value)
  {
    assert forall j :: 0 <= j < |fs| ==> FieldPairs(fs)[j] == (fs[j].name, fs[j].value);
  }

  /** Every field of a parsed request is stored under a lower-case name, as
      `HeaderName` keeps it. */
  lemma {:induction false} ParseNamesLower(s: string)
    ensures var r := Parse(s);
      r.Parsed? ==> forall j :: 0 <= j < |r.request.headers| ==>
        HeaderCodec.Lower(r.request.headers[j].name) == r.request.headers[j].name
  {
    var found := Leftmost(s, 0);
    if found.Some? {
      var (fs, e) := FieldBlock(s, found.value.0 + |LineText(found.value.1)|);
      ParseOf(s, found.value, fs, e, BodyAt(s, e));
      AssembleHeaders(found.value.1, fs, BodyAt(s, e));
      var r := Parse(s);
      if r.Parsed? {
        forall j | 0 <= j < |r.request.headers|
          ensures HeaderCodec.Lower(r.request.headers[j].name) == r.request.headers[j].name
        {
          HeaderCodec.LowerTwice(fs[j].name);
        }
      }
    }
  }

  /** `parse_request`: the pattern search, then the header loop, then the
      body. */
  method ParseRequest(s: string) returns (r: ParseResult)
    ensures r == Parse(s)
  {
    var found := Leftmost(s, 0);
    if found.None? {
      return NoMatch;
    }
    var (i, line) := found.value;
    var k := i + |LineText(line)|;
    var build := BuildHeaders(s, k, line.httpMethod, line.target);
    var e := FieldBlock(s, k).1;
    r := Finish(build, BodyAt(s, e));
    ParseOf(s, (i, line), FieldBlock(s, k).0, e, BodyAt(s, e));
  }

  /** The builder once every header of the group has been added. */
  function Headed(httpMethod: string, target: string, fs: seq<FieldLine>): RequestBuilder
  {
    if AllFieldValues(FieldPairs(fs)) then Building(httpMethod, target, FieldHeaders(fs)) else Failed
  }

  /** The iterator chain over the header group captured at `k`, and the loop
      that adds its pairs to a fresh builder. */
  method BuildHeaders(s: string, k: nat, httpMethod: string, target: string) returns (build: RequestBuilder)
    requires k <= |s|
    ensures build == Headed(httpMethod, target, FieldBlock(s, k).0)
  {
    var e := FieldBlock(s, k).1;
    var lines := NonEmpty(SplitCrlf(Sub(s, k, e)));
    HeaderGroupSplits(s, k);
    build := AddLines(Start(httpMethod, target), lines);
    ghost var fs := FieldBlock(s, k).0;
    AddHeadersResult(httpMethod, target, [], FieldPairs(fs));
    if AllFieldValues(FieldPairs(fs)) {
      assert [] + ToHeaders(FieldPairs(fs)) == FieldHeaders(fs);
    }
  }

  /** The loop `for (key, value) in headers { build = build.header(key, value) }`
      over the lines of the header group, each split at its first ": ". */
  method AddLines(b: RequestBuilder, lines: seq<string>) returns (build: RequestBuilder)
    requires forall i :: 0 <= i < |lines| ==> SplitOnce(lines[i]).Some?
    ensures build == AddHeaders(b, Pairs(lines))
  {
    ghost var pairs := Pairs(lines);
    build := b;
    for n := 0 to |lines|
      invariant AddHeaders(build, pairs[n..]) == AddHeaders(b, pairs)
    {
      var split := SplitOnce(lines[n]);
      PairsIndex(lines, n);
      assert pairs[n..][1..] == pairs[n + 1..];
      build := WithHeader(build, split.value.0, split.value.1);
    }
    assert pairs[|pairs|..] == [];
  }

  lemma {:induction false} PairsIndex(lines: seq<string>, n: nat)
    requires forall i :: 0 <= i < |lines| ==> SplitOnce(lines[i]).Some?
    requires n < |lines|
    ensures Pairs(lines)[n] == SplitOnce(lines[n]).value
    decreases n
  {
    if n > 0 {
      PairsIndex(lines[1..], n - 1);
    }
  }

  // ----- What parse_request promises -----

  /** The parse yields `None` exactly when no well-formed request line occurs
      anywhere in the text. */
  lemma {:induction false} ParseNoMatch(s: string)
    ensures Parse(s).NoMatch? <==>
      forall i, l :: 0 <= i <= |s| && WellFormedLine(l) ==> !At(s, i, LineText(l))
  {
    LeftmostFirst(s, 0);
    if Parse(s).NoMatch? {
      forall i, l | 0 <= i <= |s| && WellFormedLine(l) ensures !At(s, i, LineText(l)) {
        if At(s, i, LineText(l)) {
          RequestLineAtComplete(s, i, l);
        }
      }
    } else {
      var (i, l) := Leftmost(s, 0).value;
      RequestLineAtSound(s, i);
      assert WellFormedLine(l) && At(s, i, LineText(l));
    }
  }

  /** The body that follows a header block: after a blank line, the first
      line of the rest; without a blank line, nothing. */
  function BodyAfter(rest: string): string
  {
    if |rest| >= 2 && rest[0] == '\r' && rest[1] == '\n' then UpToLf(rest[2..]) else ""
  }

  /** `s` is the text of request line `l`, then the header lines `fs`, then
      `rest`. */
  predicate RequestText(s: string, l: RequestLine, fs: seq<FieldLine>, rest: string)
  {
    var k := |LineText(l)|;
    var e := k + |Render(fs)|;
    && |s| == e + |rest|
    && At(s, 0, LineText(l)) && At(s, k, Render(fs)) && At(s, e, rest)
  }

  /** The concatenation of the three parts is such a text. */
  lemma RequestTextConcat(l: RequestLine, fs: seq<FieldLine>, rest: string)
    ensures RequestText(LineText(l) + Render(fs) + rest, l, fs, rest)
  {
    ThreeParts(LineText(l), Render(fs), rest);
  }

  /** Parsing a well-formed request text gives back its method, target and
      headers (in order), with the body cut at the first LF.  Anything after
      the header lines that neither starts a header line nor is a blank line
      leaves the body empty. */
  lemma {:induction false} ParseRequestText(s: string, l: RequestLine, fs: seq<FieldLine>, rest: string)
    requires RequestText(s, l, fs, rest)
    requires WellFormedLine(l)
    requires forall j :: 0 <= j < |fs| ==> WellFormedField(fs[j])
    requires AllFieldValues(FieldPairs(fs))
    requires rest == [] || !In(rest[0], NameChar)
    ensures Parse(s) == Parsed(Request(l.httpMethod, l.target, Http11, FieldHeaders(fs), BodyAfter(rest)))
  {
    TextCaptures(s, l, fs, rest);
    ParseCaptured(s, l, fs, |LineText(l)| + |Render(fs)|, BodyAfter(rest));
  }

  lemma {:induction false} ParseCaptured(s: string, l: RequestLine, fs: seq<FieldLine>, e: nat, body: string)
    requires Leftmost(s, 0) == Some((0, l))
    requires FieldBlock(s, |LineText(l)|) == (fs, e)
    requires BodyAt(s, e) == body
    requires AllFieldValues(FieldPairs(fs))
    ensures Parse(s) == Parsed(Request(l.httpMethod, l.target, Http11, FieldHeaders(fs), body))
  {
    ParseOf(s, (0, l), fs, e, body);
  }

  lemma {:induction false} BodyCaptured(s: string, l: RequestLine, fs: seq<FieldLine>, rest: string)
    requires RequestText(s, l, fs, rest)
    ensures BodyAt(s, |LineText(l)| + |Render(fs)|) == BodyAfter(rest)
  {
    BodyAfterRest(s, |LineText(l)| + |Render(fs)|, rest);
  }

  /** What the pattern captures in such a text. */
  lemma {:induction false} TextCaptures(s: string, l: RequestLine, fs: seq<FieldLine>, rest: string)
    requires RequestText(s, l, fs, rest)
    requires WellFormedLine(l)
    requires forall j :: 0 <= j < |fs| ==> WellFormedField(fs[j])
    requires rest == [] || !In(rest[0], NameChar)
    ensures var e := |LineText(l)| + |Render(fs)|;
      && e <= |s|
      && Leftmost(s, 0) == Some((0, l))
      && FieldBlock(s, |LineText(l)|) == (fs, e)
      && BodyAt(s, e) == BodyAfter(rest)
  {
    LineCaptured(s, l, fs, rest);
    FieldsCaptured(s, l, fs, rest);
    BodyCaptured(s, l, fs, rest);
  }

  /** The parse, once the captures are known. */
  lemma {:induction false} ParseOf(s: string, found: (nat, RequestLine), fs: seq<FieldLine>, e: nat, body: string)
    requires Leftmost(s, 0) == Some(found)
    requires FieldBlock(s, found.0 + |LineText(found.1)|) == (fs, e)
    requires BodyAt(s, e) == body
    ensures Parse(s) == Assemble(found.1, fs, body)
  {
    ParseLeftmost(s);
    ParseFromOf(s, found, fs, e);
  }

  lemma ParseLeftmost(s: string)
    requires Leftmost(s, 0).Some?
    ensures Parse(s) == ParseFrom(s, Leftmost(s, 0).value)
  {
  }

  lemma {:induction false} ParseFromOf(s: string, found: (nat, RequestLine), fs: seq<FieldLine>, e: nat)
    requires found.0 + |LineText(found.1)| <= |s|
    requires FieldBlock(s, found.0 + |LineText(found.1)|) == (fs, e)
    ensures ParseFrom(s, found) == Assemble(found.1, fs, BodyAt(s, e))
  {
  }

  lemma {:induction false} LineCaptured(s: string, l: RequestLine, fs: seq<FieldLine>, rest: string)
    requires RequestText(s, l, fs, rest)
    requires WellFormedLine(l)
    ensures Leftmost(s, 0) == Some((0, l))
  {
    RequestLineAtComplete(s, 0, l);
  }

  lemma {:induction false} FieldsCaptured(s: string, l: RequestLine, fs: seq<FieldLine>, rest: string)
    requires RequestText(s, l, fs, rest)
    requires forall j :: 0 <= j < |fs| ==> WellFormedField(fs[j])
    requires rest == [] || !In(rest[0], NameChar)
    ensures FieldBlock(s, |LineText(l)|) == (fs, |LineText(l)| + |Render(fs)|)
  {
    var e := |LineText(l)| + |Render(fs)|;
    if rest != [] {
      assert s[e + 0] == rest[0];
    }
    NoFieldAt(s, e);
    FieldBlockComplete(s, |LineText(l)|, fs);
  }

  /** Where the three parts of a concatenation occur in it. */
  lemma {:induction false} ThreeParts(a: string, b: string, c: string)
    ensures At(a + b + c, 0, a) && At(a + b + c, |a|, b) && At(a + b + c, |a| + |b|, c)
    ensures |a + b + c| == |a| + |b| + |c|
  {
    var s := a + b + c;
    assert forall j :: 0 <= j < |a| ==> s[j] == a[j];
    assert forall j :: 0 <= j < |b| ==> s[|a| + j] == b[j];
    assert forall j :: 0 <= j < |c| ==> s[|a| + |b| + j] == c[j];
  }

  /** The body group at the end of the header block is what BodyAfter
      takes from the rest of the text. */
  lemma {:induction false} BodyAfterRest(s: string, e: nat, rest: string)
    requires At(s, e, rest) && e + |rest| == |s|
    ensures BodyAt(s, e) == BodyAfter(rest)
  {
    if |rest| >= 2 && rest[0] == '\r' && rest[1] == '\n' {
      assert s[e + 0] == rest[0] && s[e + 1] == rest[1];
      var t := rest[2..];
      assert forall j :: 0 <= j < |t| ==> t[j] == s[e + 2 + j] by {
        forall j | 0 <= j < |t| ensures t[j] == s[e + 2 + j] {
          assert t[j] == rest[2 + j];
        }
      }
      var b := BodyAt(s, e);
      if |t| > 0 {
        assert t[0] == s[e + 2];
      }
      BodyAtSound(s, e);
      UpToLfSound(t);
      FirstLineUnique(t, b, UpToLf(t));
    } else if e + 1 < |s| {
      assert s[e + 0] == rest[0] && s[e + 1] == rest[1];
    }
  }

  /** A text has one first line. */
  lemma FirstLineUnique(t: string, a: string, b: string)
    requires |a| <= |t| && forall i :: 0 <= i < |a| ==> a[i] == t[i]
    requires |b| <= |t| && forall i :: 0 <= i < |b| ==> b[i] == t[i]
    requires forall i :: 0 <= i < |a| ==> a[i] != '\n'
    requires forall i :: 0 <= i < |b| ==> b[i] != '\n'
    requires |a| == |t| || t[|a|] == '\n'
    requires |b| == |t| || t[|b|] == '\n'
    ensures a == b
  {
  }
}

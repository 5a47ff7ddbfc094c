# simple_http request dispatch, modelled in Dafny

simple_http is a small Rust HTTP library. An `App` holds a route table of
(regular expression, handler) pairs. For each connection it:

1. reads up to 1024 bytes into a zero-filled buffer;
2. finds the request line, the header lines and the body with one regular
   expression (`parse_request`);
3. builds an `http::Request` from them;
4. picks the first route whose pattern matches the request path, or the
   built-in `not_found` handler;
5. writes the response back as `VERSION STATUS REASON`, one line per
   header (each value passed through `parse_header`), a blank line and the
   body.

`http_util` also provides:

- `extract_header` and `parse_header`, which read a header value through
  its `Debug` form;
- `parse_query`, which percent-decodes the query;
- `construct_request`, which writes a request back as text.

The crate root `src/lib.rs` is an older copy of the same code, with
`parse_request` as an associated function of `App`. It has no
`construct_request`; the other functions it shares with `http_util` and `app`
have the same logic line for line, so one model covers both copies. The table below cites
whichever copy states a point best.

The Dafny modules follow the source:

| module | file | models |
|---|---|---|
| `HttpTypes` | types.dfy | the request, response, header and route values; header values restricted to what the `http` builder accepts |
| `Utf8` | utf8.dfy | UTF-8 encoding of characters, for the bytes `parse_query` decodes |
| `HeaderCodec` | header_codec.dfy | `HeaderValue`'s `Debug` escape, the quote-stripping substitution, `parse_header`, `extract_header` |
| `Status` | status.dfy | the `Debug` text of `Version`, the status digits, the canonical reason table of `http` 0.2 |
| `DefaultHandlers` | default_handlers.dfy | `not_found` |
| `Query` | query.dfy | the path, query and host of a request-target; percent decoding; `parse_query` |
| `Routing` | routing.dfy | the route search of `handle_connection`, over an abstract pattern engine |
| `RequestGrammar` | request_grammar.dfy | the request regular expression: leftmost request line, greedy header group, optional body |
| `RequestParser` | request_parser.dfy | `parse_request`: the captures, the `split`/`filter`/`split_once` chain, the builder loop |
| `ResponseWriter` | response_writer.dfy | the header loop and the response text of `handle_connection` |
| `RequestWriter` | request_writer.dfy | `construct_request` as written, and a corrected writer |
| `Server` | app.dfy | the `App` object: `add_handler` and `handle_connection` |

`parse_request` and `handle_connection` panic on several paths. The model
makes each of these a result value:

- no request line found: `NoMatch`;
- the builder refuses a header value: `Rejected`;
- the status has no canonical reason phrase: `Aborted(NoReasonPhrase)`.

## Model

| member | source | states |
|---|---|---|
| Utf8.EncodeChar | simple_http/src/http_util.rs:50 | a character's UTF-8 encoding has one to four bytes; it is one byte exactly for ASCII, and that byte is the code point; every byte of a non-ASCII character is 0x80 or above |
| Utf8.DecodeEncodeChar | simple_http/src/http_util.rs:50 | decoding the UTF-8 bytes of any character gives back its code point |
| Utf8.EncodeAscii | simple_http/src/http_util.rs:50 | an ASCII string encodes to the same number of bytes, each equal to its character's code |
| HeaderCodec.StripQuotes | simple_http/src/http_util.rs:40-42 | the replacement of `(^")\|("$)` by nothing: the result is the input with at most one leading and one trailing quote removed, as one contiguous slice; a trailing character is removed exactly when it is a quote that the leading removal left in place |
| HeaderCodec.StripQuotesOfQuoted | simple_http/src/http_util.rs:40-42 | stripping `"x"` gives back `x` for every `x`, even when `x` itself starts or ends with a quote |
| HeaderCodec.StripQuotesUnquoted | simple_http/src/http_util.rs:40-42 | text that neither starts nor ends with a quote is left unchanged |
| HeaderCodec.EscapeCharLength | simple_http/src/http_util.rs:39 | a plain character is written as itself; every other character is written with at least two characters |
| HeaderCodec.EscapeLength | simple_http/src/http_util.rs:39 | the `Debug` escape never shortens a value; it keeps the value's length exactly when every character is plain (visible ASCII other than `"`, space and tab included), and then it leaves the value unchanged |
| HeaderCodec.Escape | simple_http/src/http_util.rs:39 | the text `Debug` writes between the quotes of a header value (a quote becomes `\"`, tab and visible ASCII stay, every other byte becomes `\x` and lower-case hex); it is never shorter than the value, and EscapeLength says exactly when it is as long |
| HeaderCodec.DebugForm | simple_http/src/http_util.rs:39 | `format!("{:?}", header)`: the escape between two quotes, which are exactly the ones the quote-stripping pattern removes again |
| HeaderCodec.ParseHeader | simple_http/src/http_util.rs:38-45 | `parse_header` gives exactly the escaped value, without the quotes that `Debug` put around it; ParseHeaderIdentity says when that is the value itself |
| HeaderCodec.ParseHeaderIdentity | simple_http/src/http_util.rs:38-45 | `parse_header` returns a value unchanged if and only if the value is plain |
| HeaderCodec.LowerTwice | simple_http/src/http_util.rs:95 | a name already in lower case is its own lower case, so a stored name prints unchanged |
| HeaderCodec.Lower | simple_http/src/app.rs:82-88 | header names are printed in lower case, character by character, at the same length |
| HeaderCodec.Lookup | simple_http/src/http_util.rs:18 | `headers().get(name)` is empty exactly when no header has that name, ignoring case; otherwise it is the value of the first header with that name |
| HeaderCodec.ExtractHeader | simple_http/src/http_util.rs:17-25 | no result (the `unwrap` panic) exactly when the header is absent; otherwise the escaped value of the first header with that name |
| Status.VersionText | simple_http/src/app.rs:92-93 | the `Debug` text of a version is eight characters: `HTTP/`, a decimal digit, `.`, a decimal digit |
| Status.ParseVersionText | simple_http/src/app.rs:92-93 | the version can be read back from its text, so no two versions print alike |
| Status.StatusText | simple_http/src/app.rs:94 | `status().as_str()` is three decimal digits |
| Status.ParseStatusText | simple_http/src/app.rs:94 | the three digits read back as the status code |
| Status.CanonicalReason | simple_http/src/app.rs:95 | the reason phrase table of `http` 0.2; a code has a phrase only if it is at most 511, and every phrase is non-empty; ReasonGaps names codes without one |
| Status.ReasonGaps | simple_http/src/app.rs:95 | `canonical_reason()` is missing for 103, 209 and 999, so the `unwrap` panics for them; 404 is `Not Found` and 200 is `OK` |
| DefaultHandlers.NotFound | simple_http/src/default_handlers.rs:4-9 | status 404, empty body, no headers, the builder's default version HTTP/1.1 |
| DefaultHandlers.NotFoundIgnoresRequest | src/lib.rs:165-170 | the answer does not depend on the request |
| Query.IndexFrom | simple_http/src/app.rs:73 | the first position from `i` on that holds `c`, or the end of the text |
| Query.AuthorityStart | simple_http/src/http_util.rs:106 | a non-zero result is the index just after a `://` that follows a letter and a run of scheme characters; AuthorityStartComplete gives the converse |
| Query.AuthorityStartComplete | simple_http/src/http_util.rs:106 | every target that starts with a letter, a run of scheme characters and `://` is in absolute form, with its authority starting right after that `://` |
| Query.AuthorityEnd | simple_http/src/http_util.rs:106 | the authority ends at the first `/` or `?` after it, or at the end |
| Query.Path | simple_http/src/app.rs:73 | `uri().path()` is never empty and holds no `?`; PathCut gives its exact value |
| Query.PathCut | simple_http/src/app.rs:73 | the path is `/` when the path-and-query is empty or starts with `?`; otherwise it is the prefix of the path-and-query that ends at its first `?` or at its end |
| Query.PathOfOriginForm | simple_http/src/app.rs:73 | a target in origin form (`/…`) without `?` is its own path-and-query and its own path, the key the routes are matched against |
| Query.UriQuery | simple_http/src/http_util.rs:48 | `uri().query()` is absent exactly when the path-and-query holds no `?` |
| Query.PathQuerySplit | simple_http/src/http_util.rs:48 | when the path-and-query has a `?` and does not start with one (so `/?x` too), the path, `?` and the query put back together give the path-and-query |
| Query.Host | simple_http/src/http_util.rs:106 | `uri().host()` is absent exactly when the target is not in absolute form; otherwise it is the prefix, up to the first `:` or the end, of the part of the authority after its last `@`, and so holds no `@` and no `:` |
| Query.AfterLast | simple_http/src/http_util.rs:106 | the part after the last `@`: a suffix that holds no `@`, preceded by an `@` unless it is the whole text, so everything when there is none |
| Query.PercentDecode | simple_http/src/http_util.rs:50 | decoding never lengthens the bytes and shrinks them at most threefold |
| Query.PercentDecodePlain | simple_http/src/http_util.rs:50 | bytes without `%` decode to themselves |
| Query.PercentEncode | simple_http/src/http_util.rs:50 | the reference encoder never shortens its input |
| Query.DecodeEncode | simple_http/src/http_util.rs:50 | decoding undoes percent-encoding for every byte string |
| Query.ParseQuery | simple_http/src/http_util.rs:47-55 | `parse_query` is `None` exactly when the target has no query |
| Query.ParseQueryPlain | simple_http/src/http_util.rs:47-55 | a query without `%` decodes to its own UTF-8 bytes |
| Routing.FirstMatch | simple_http/src/app.rs:70-73 | `find` gives none exactly when no pattern matches the path; otherwise an index whose pattern matches, with no earlier pattern matching |
| Routing.Dispatch | simple_http/src/app.rs:75-78 | when no route matches, the response is `not_found`'s 404 |
| Routing.DispatchFirst | simple_http/src/app.rs:75-77 | when route `i` is the first match, the response is its handler's |
| Routing.FirstMatchAppend | simple_http/src/app.rs:54-61 | appending a route keeps every path an earlier route matched; an unmatched path goes to the new route exactly when its pattern matches |
| Routing.Shadowed | simple_http/src/app.rs:33-34 | a route whose pattern matches every path takes every request from the routes after it |
| Routing.LiteralMatches | simple_http/src/app.rs:73 | for the concrete engine `LiteralEngine` (patterns without metacharacters, matched as substrings, as an unanchored regex search does): the empty pattern matches every path and a pattern longer than the path matches none |
| RequestGrammar.SpanEnd | simple_http/src/http_util.rs:60-63 | a greedy character-class run ends at the text's end or at the first character outside the class |
| RequestGrammar.RequestLineAt | simple_http/src/http_util.rs:60-62 | the request line the pattern matches when the search tries position `i`; RequestLineAtSound and RequestLineAtComplete state that it finds exactly the well-formed lines there, RequestLineAtFits that it fits in the text |
| RequestGrammar.RequestLineAtFits | simple_http/src/http_util.rs:60-62 | a request line found at `i` ends inside the text |
| RequestGrammar.RequestLineAtSound | simple_http/src/http_util.rs:60-62 | a request line found at `i` is well formed (`[A-Z]+ [^ ]+ HTTP/1.\d\r\n`), and its text occurs at `i` |
| RequestGrammar.RequestLineAtComplete | simple_http/src/http_util.rs:60-62 | every well-formed request line whose text occurs at `i` is the one found at `i` |
| RequestGrammar.Leftmost | simple_http/src/http_util.rs:67 | the search result is a request line found at or after the start, and it fits in the text |
| RequestGrammar.LeftmostFirst | simple_http/src/http_util.rs:67 | the search finds nothing only when no position matches, and nothing matches before what it finds |
| RequestGrammar.FieldLineAt | simple_http/src/http_util.rs:63 | one repetition of the header group tried at `k`; FieldLineAtSound and FieldLineAtComplete state that it finds exactly the well-formed header lines there |
| RequestGrammar.FieldLineAtSound | simple_http/src/http_util.rs:63 | a header line found at `k` is well formed (`[A-Za-z-]+: [^\r\n]+\r\n`), and its text occurs at `k` |
| RequestGrammar.FieldLineAtComplete | simple_http/src/http_util.rs:63 | every well-formed header line whose text occurs at `k` is found there |
| RequestGrammar.NoFieldAt | simple_http/src/http_util.rs:63 | no header line starts at a character that cannot begin a name |
| RequestGrammar.FieldBlock | simple_http/src/http_util.rs:63 | the greedy `(...)+` header group from `k`: it ends between `k` and the end of the text; FieldBlockSound, FieldBlockMaximal and FieldBlockComplete say which lines it takes |
| RequestGrammar.FieldBlockSound | simple_http/src/http_util.rs:63 | the header group is a run of well-formed header lines that occurs exactly from `k` to the group's end |
| RequestGrammar.FieldBlockMaximal | simple_http/src/http_util.rs:63 | the greedy group stops only where no further header line starts |
| RequestGrammar.FieldBlockComplete | simple_http/src/http_util.rs:63 | any run of well-formed header lines at `k` that no header line follows is the header group |
| RequestGrammar.BodyAt | simple_http/src/http_util.rs:64 | the body group is non-empty exactly when a CRLF follows the headers, and then a character other than LF |
| RequestGrammar.BodyAtSound | simple_http/src/http_util.rs:64 | the body holds no LF; it occurs after the CRLF and ends at an LF or at the end of the text |
| RequestGrammar.UpToLfSound | simple_http/src/http_util.rs:64 | the reference cut is the longest LF-free prefix |
| RequestParser.SplitCrlf | simple_http/src/http_util.rs:83 | `split("\r\n")` always gives at least one piece |
| RequestParser.SplitCrlfFirst | simple_http/src/http_util.rs:83 | a CR-free piece followed by CRLF is the first piece of the split |
| RequestParser.SplitOnce | simple_http/src/http_util.rs:85 | `split_once(": ")` fails exactly when there is no separator; otherwise the line is name, separator and value, split at the first separator |
| RequestParser.SplitOnceName | simple_http/src/http_util.rs:85 | a line whose name is in `[A-Za-z-]+` splits into that name and the rest |
| RequestParser.SplitLines | simple_http/src/http_util.rs:82-86 | splitting a header group at CRLF and dropping empty pieces gives back its lines in order |
| RequestParser.HeaderGroupSplits | simple_http/src/http_util.rs:82-86 | every line of the captured group splits at `": "`; the pairs are the captured names and values, in order, so the `unwrap` never panics |
| RequestParser.AddHeadersResult | simple_http/src/http_util.rs:93-96 | the builder loop appends every pair in order when all values are valid header values, and fails otherwise |
| RequestParser.FailedStays | simple_http/src/http_util.rs:94-96 | once the builder has failed, adding headers keeps it failed |
| RequestParser.Parse | simple_http/src/http_util.rs:58-98 | `parse_request` stated on the captures: no result without a request line, a refusal when a header value is invalid, otherwise a request with version HTTP/1.1 (the builder's default); ParseRequest computes it, ParseNoMatch, ParseNamesLower and ParseRequestText state its properties |
| RequestParser.Assemble | simple_http/src/http_util.rs:93-97 | the builder applied to a request line, header lines and a body; AssembleHeaders states what it makes of them |
| RequestParser.AssembleHeaders | simple_http/src/http_util.rs:93-97 | the builder never reports "no match"; it accepts the header lines exactly when every value is a valid field value, and then keeps method, target and body and stores one field per line, in order, under the lower-case name |
| RequestParser.ParseNamesLower | simple_http/src/http_util.rs:95 | every field of a parsed request is stored under a lower-case name, as `HeaderName` keeps it |
| RequestParser.ParseRequest | simple_http/src/http_util.rs:58-98 | the procedure (search, header loop, body) computes `Parse` |
| RequestParser.BuildHeaders | simple_http/src/http_util.rs:82-96 | the `split`/`filter`/`map` chain and the header loop over the captured group give the builder with those header lines |
| RequestParser.AddLines | simple_http/src/http_util.rs:94-96 | the loop over split lines equals adding their pairs in order |
| RequestParser.ParseNoMatch | simple_http/src/http_util.rs:67-73 | `parse_request` returns `None` if and only if no well-formed request line occurs anywhere in the text |
| RequestParser.TextCaptures | simple_http/src/http_util.rs:67-91 | in a text made of a request line, header lines and a rest that starts no header line, the captures are that line, those header lines and the first line after a blank line |
| RequestParser.ParseRequestText | simple_http/src/http_util.rs:58-98 | parsing such a text gives back its method and target, its headers in order with lower-case names, version HTTP/1.1, and the body cut at the first LF |
| ResponseWriter.WriteHeaders | simple_http/src/app.rs:80-89 | the `for_each` loop builds `HeaderBlock` |
| ResponseWriter.HeaderBlock | simple_http/src/app.rs:80-89 | the `header_string` the loop builds: at least four characters per header; HeaderBlockRender gives its lines and WriteHeaders computes it |
| ResponseWriter.HeaderBlockRender | simple_http/src/app.rs:82-89 | the header block is one `name: value\r\n` line per response header, in order |
| ResponseWriter.StatusLine | simple_http/src/app.rs:91-92 | the status line is fifteen characters plus the reason phrase |
| ResponseWriter.ResponseText | simple_http/src/app.rs:91-98 | the `res_str` of a response with a given reason phrase; ResponseTextReadsBack and HeaderBlockPlace state what can be read back from it |
| ResponseWriter.Serialize | simple_http/src/app.rs:91-98 | the response text exists exactly when the status has a canonical reason phrase |
| ResponseWriter.ResponseTextReadsBack | simple_http/src/app.rs:91-98 | the response text reads back: version in the first eight characters, then a space, the three status digits, a space; the body is its suffix |
| ResponseWriter.HeaderBlockPlace | simple_http/src/app.rs:91-98 | the header block follows the status line and is followed by the CR of the blank line |
| ResponseWriter.BlockAt | simple_http/src/http_util.rs:63 | `parse_request`'s header group, read where a response's header block is written, is exactly that block's lines |
| ResponseWriter.EscapeVisible | simple_http/src/app.rs:83 | every value `parse_header` prints is visible ASCII |
| ResponseWriter.ResponseFieldWellFormed | simple_http/src/app.rs:84-88 | a header with a token name and a non-empty value prints as a well-formed header line |
| ResponseWriter.FieldsWellFormed | simple_http/src/app.rs:82-89 | all such headers print as well-formed header lines |
| RequestWriter.ConstructRequest | simple_http/src/http_util.rs:100-117 | `construct_request` gives text exactly when the target has a host (`host().unwrap()`) |
| RequestWriter.JoinedBlock | simple_http/src/http_util.rs:107-114 | the joined header lines are the header block without its final CRLF |
| RequestWriter.ConstructText | simple_http/src/http_util.rs:101-116 | the text `construct_request` formats for a given host; without headers it is the corrected text with the host in quotes; ConstructRequestText gives its layout with headers |
| RequestWriter.ConstructRequestText | simple_http/src/http_util.rs:101-116 | the text as written: a request line, then `Host:` with the quoted host; with headers, the header block directly followed by the body (no blank line); without headers, a blank line and the body |
| RequestWriter.ConstructTextLosesBody | simple_http/src/http_util.rs:102 | for any host, parsing the written text of a request with headers loses a body that starts with neither a name character nor CR, and echoes the host with its quotes |
| RequestWriter.ConstructRequestLosesBody | simple_http/src/http_util.rs:102 | the same for the host taken from the request's target: the parsed body is empty, unlike the request's |
| RequestWriter.WriteText | simple_http/src/http_util.rs:100-117 | the corrected text: the body always follows a CRLF that ends the blank line; WriteTextRoundTrip shows it reads back |
| RequestWriter.WriteRequest | simple_http/src/http_util.rs:100-117 | the corrected writer gives text exactly when the target has a host |
| RequestWriter.ParseWritten | simple_http/src/http_util.rs:58-98 | parsing a written request line, `Host` line, header block and rest gives back the method, the path, the host and headers (names in lower case, values through `parse_header`) and the first line after the blank line that starts the rest as the body |
| RequestWriter.WriteTextRoundTrip | simple_http/src/http_util.rs:100-117 | for any host, the corrected text of a well-formed request parses back to its method, path, host, headers and LF-free body |
| RequestWriter.WriteRequestRoundTrip | simple_http/src/http_util.rs:100-117 | the same for the host taken from the request's target |
| Server.BufferText | simple_http/src/app.rs:64-67 | the parser sees the received characters followed by NULs up to 1024 |
| Server.App.constructor | simple_http/src/app.rs:16-21 | a new application has an empty route table |
| Server.App.AddHandler | simple_http/src/app.rs:54-61 | a route whose pattern compiles goes to the end of the table; nothing else changes |
| Server.App.HandleConnection | simple_http/src/app.rs:63-104 | with the buffer fill loop and the header loop, the connection handler computes `Serve` on the buffered text |
| Server.Answer | simple_http/src/app.rs:75-98 | the answer to a parsed request: the dispatched response written out, which succeeds exactly when its status has a reason phrase and otherwise aborts for that reason |
| Server.Serve | simple_http/src/app.rs:68-98 | `handle_connection` on a request text: a response is written only for a parsed request, and it aborts as an invalid request exactly when the builder refused it; ServeNoRequestLine, ServeFallback, ServeRouted and ServeAppend state the rest |
| Server.ServeNoRequestLine | simple_http/src/app.rs:69 | the connection aborts for lack of a request line exactly when no well-formed request line occurs in the text |
| Server.ServeFallback | simple_http/src/app.rs:75-98 | a request that no route matches is answered with exactly `HTTP/1.1 404 Not Found`, CRLF, then a blank line |
| Server.AnswerFallback | simple_http/src/default_handlers.rs:4-9 | the same, stated for the parsed request |
| Server.ServeRouted | src/lib.rs:119-129 | a request is answered by the serialised response of the first route that matches its path |
| Server.ServeAppend | src/lib.rs:70-72 | adding a route never changes the answer to a request that an earlier route already serves |

## Left out

- Sockets are not modelled. `App::new` binding the listener, `run`'s accept loop, `stream.read` and `stream.write`, and the byte count `handle_connection` returns are all left out. `HandleConnection` takes the received characters and returns the response text.
- Server.BufferText: the buffer is counted in characters, not bytes. Rust's `[0; 1024]` holds 1024 bytes, so for non-ASCII input the real NUL run is shorter by the extra UTF-8 bytes, and at most 1024 bytes (not characters) are received.
- Server.App.HandleConnection: `String::from_utf8_lossy` is not modelled. The received bytes are given as characters, so invalid UTF-8 is never replaced.
- The regular-expression engine for route patterns is a parameter (`PatternEngine`): which patterns compile and which paths they match. Only literal patterns get a concrete engine. The request regular expression itself is modelled in full.
- `\d` in the request line is modelled as ASCII `0`-`9`. Rust's `regex` also accepts other Unicode decimal digits there.
- The builder's `.uri(path)` validation is not modelled: every target is accepted. Method validation is not modelled either, since `[A-Z]+` is always a valid method.
- Query.Path, Query.UriQuery, Query.Host: cover absolute-form and origin-form targets only. Authority-form and asterisk-form targets, fragments, IPv6 literal hosts and the URI parser's rejections are not modelled.
- `HeaderMap` iteration order is not modelled. The model keeps headers in insertion order; `HeaderMap` yields all values of a repeated name together, at the name's first position.
- Header values marked sensitive print as `Sensitive` under `Debug`. Nothing in this code marks them, so this is not modelled.
- Query.ParseQuery: returns the decoded bytes. `decode_utf8_lossy`'s replacement of invalid UTF-8 is not modelled.
- `println!` of the unmatched text in `parse_request` is output only, and is left out.
- The canonical reason phrases are the table of `http` 0.2: 103 has none there, and 418 is `I'm a teapot`.
- RequestWriter.ConstructRequest: the host is written as `Debug` prints a `&str`, with quotes added. Escapes inside the host are not modelled, since a host taken from a URI holds no quote, backslash or control character.
- The examples (`echo.rs`, `path.rs`) and `main.rs` are not part of this model.

## Findings

| source | as written | input that shows it | evidently intended | confidence | as-written member | corrected member |
|---|---|---|---|---|---|---|
| simple_http/src/http_util.rs:102 | the header lines are joined with CRLF and followed by one CRLF, so when there are headers no blank line separates them from the body | a request with target `http://h/`, one header `a: 1` and body `42`: the text ends `a: 1\r\n42`, and `parse_request` reads back an empty body | a CRLF after every header line and a blank line before the body | not executed; high | RequestWriter.ConstructRequestLosesBody | RequestWriter.WriteRequestRoundTrip |
| simple_http/src/http_util.rs:102 | `Host: {host:?}` writes the host in quotes | a request with target `http://h/`: the text holds `Host: "h"`, and the parsed `Host` value is `"h"` with its quotes | `Host: h` | not executed; high | RequestWriter.ConstructRequestLosesBody | RequestWriter.WriteRequestRoundTrip |

/** The status-line pieces of a response: the `Debug` text of a `Version`, the
    three digits of `StatusCode::as_str` and the `http` crate's table of
    canonical reason phrases (`StatusCode::canonical_reason`, after section 15
    of RFC 9110). */
module Status {
  import opened HttpTypes

  /** `format!("{:?}", version)`. */
  function VersionText(v: Version): (r: string)
    ensures |r| == 8 && r[..5] == "HTTP/" && r[6] == '.'
    ensures IsDigitChar(r[5]) && IsDigitChar(r[7])
  {
    match v
    case Http09 => "HTTP/0.9"
    case Http10 => "HTTP/1.0"
    case Http11 => "HTTP/1.1"
    case Http2 => "HTTP/2.0"
    case Http3 => "HTTP/3.0"
  }

  /** Reading a version back from its text. */
  function ParseVersion(t: string): Option<Version>
  {
    if t == "HTTP/0.9" then Some(Http09)
    else if t == "HTTP/1.0" then Some(Http10)
    else if t == "HTTP/1.1" then Some(Http11)
    else if t == "HTTP/2.0" then Some(Http2)
    else if t == "HTTP/3.0" then Some(Http3)
    else None
  }

  /** Every version has its own text. */
  lemma {:induction false} ParseVersionText(v: Version)
    ensures ParseVersion(VersionText(v)) == Some(v)
  {
  }

  predicate IsDigitChar(c: char)
  {
    '0' <= c <= '9'
  }

  function DigitChar(d: int): char
    requires 0 <= d < 10
  {
    ('0' as int + d) as char
  }

  function DigitValue(c: char): int
  {
    c as int - '0' as int
  }

  /** `StatusCode::as_str`: the code as three decimal digits. */
  function StatusText(s: StatusCode): (r: string)
    ensures |r| == 3
    ensures forall i :: 0 <= i < 3 ==> IsDigitChar(r[i])
  {
    [DigitChar(s / 100), DigitChar(s / 10 % 10), DigitChar(s % 10)]
  }

  /** The number three decimal digits denote. */
  function ParseStatus(t: string): int
    requires |t| == 3
  {
    DigitValue(t[0]) * 100 + DigitValue(t[1]) * 10 + DigitValue(t[2])
  }

  /** The digits denote the code they were written from. */
  lemma {:induction false} ParseStatusText(s: StatusCode)
    ensures ParseStatus(StatusText(s)) == s
  {
    assert s == s / 100 * 100 + s / 10 % 10 * 10 + s % 10;
  }

  /** `StatusCode::canonical_reason`: the reason phrase the `http` crate
      knows for a code, `None` for a code outside its table. */
  function CanonicalReason(s: StatusCode): (r: Option<string>)
    ensures r.Some? ==> s <= 511 && r.value != ""
  {
    match s
    case 100 => Some("Continue")
    case 101 => Some("Switching Protocols")
    case 102 => Some("Processing")
    case 200 => Some("OK")
    case 201 => Some("Created")
    case 202 => Some("Accepted")
    case 203 => Some("Non Authoritative Information")
    case 204 => Some("No Content")
    case 205 => Some("Reset Content")
    case 206 => Some("Partial Content")
    case 207 => Some("Multi-Status")
    case 208 => Some("Already Reported")
    case 226 => Some("IM Used")
    case 300 => Some("Multiple Choices")
    case 301 => Some("Moved Permanently")
    case 302 => Some("Found")
    case 303 => Some("See Other")
    case 304 => Some("Not Modified")
    case 305 => Some("Use Proxy")
    case 307 => Some("Temporary Redirect")
    case 308 => Some("Permanent Redirect")
    case 400 => Some("Bad Request")
    case 401 => Some("Unauthorized")
    case 402 => Some("Payment Required")
    case 403 => Some("Forbidden")
    case 404 => Some("Not Found")
    case 405 => Some("Method Not Allowed")
    case 406 => Some("Not Acceptable")
    case 407 => Some("Proxy Authentication Required")
    case 408 => Some("Request Timeout")
    case 409 => Some("Conflict")
    case 410 => Some("Gone")
    case 411 => Some("Length Required")
    case 412 => Some("Precondition Failed")
    case 413 => Some("Payload Too Large")
    case 414 => Some("URI Too Long")
    case 415 => Some("Unsupported Media Type")
    case 416 => Some("Range Not Satisfiable")
    case 417 => Some("Expectation Failed")
    case 418 => Some("I'm a teapot")
    case 421 => Some("Misdirected Request")
    case 422 => Some("Unprocessable Entity")
    case 423 => Some("Locked")
    case 424 => Some("Failed Dependency")
    case 426 => Some("Upgrade Required")
    case 428 => Some("Precondition Required")
    case 429 => Some("Too Many Requests")
    case 431 => Some("Request Header Fields Too Large")
    case 451 => Some("Unavailable For Legal Reasons")
    case 500 => Some("Internal Server Error")
    case 501 => Some("Not Implemented")
    case 502 => Some("Bad Gateway")
    case 503 => Some("Service Unavailable")
    case 504 => Some("Gateway Timeout")
    case 505 => Some("HTTP Version Not Supported")
    case 506 => Some("Variant Also Negotiates")
    case 507 => Some("Insufficient Storage")
    case 508 => Some("Loop Detected")
    case 510 => Some("Not Extended")
    case 511 => Some("Network Authentication Required")
    case _ => None
  }

  /** Some codes have no phrase: the table stops at 511, and leaves 103, 209
      and 999 out, among others. */
  lemma {:induction false} ReasonGaps()
    ensures CanonicalReason(103).None? && CanonicalReason(209).None? && CanonicalReason(999).None?
    ensures CanonicalReason(404) == Some("Not Found") && CanonicalReason(200) == Some("OK")
  {
  }
}

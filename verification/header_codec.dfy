/** `parse_header` and `extract_header`: a header value is rendered in the
    `Debug` form of the `http` crate's `HeaderValue`, then the pattern
    `(^")|("$)` deletes a double quote at the very start and one at the very
    end of that rendering. */
module HeaderCodec {
  import opened HttpTypes
  import opened Utf8

  /** The bytes `HeaderValue`'s `Debug` writes through unchanged. */
  predicate IsVisibleAscii(c: char)
  {
    (32 <= c as int < 127) || c == '\t'
  }

  /** A character that `Debug` leaves as it is. */
  predicate IsPlainChar(c: char)
  {
    IsVisibleAscii(c) && c != '"'
  }

  predicate IsPlain(v: string)
  {
    forall i :: 0 <= i < |v| ==> IsPlainChar(v[i])
  }

  function HexDigit(d: int): char
    requires 0 <= d < 16
  {
    if d < 10 then ('0' as int + d) as char else ('a' as int + d - 10) as char
  }

  /** `{:x}` of a byte: lower-case hexadecimal without leading zeros. */
  function LowerHex(b: byte): (r: string)
    ensures 1 <= |r| <= 2
  {
    if b < 16 then [HexDigit(b as int)] else [HexDigit(b as int / 16), HexDigit(b as int % 16)]
  }

  /** One `\x..` escape per byte. */
  function HexEscapes(bs: seq<byte>): (r: string)
    ensures |r| >= 3 * |bs|
  {
    if bs == [] then [] else "\\x" + LowerHex(bs[0]) + HexEscapes(bs[1..])
  }

  /** How `Debug` writes the bytes of one character: a quote becomes `\"`,
      a visible ASCII byte stays, every other byte becomes `\x..`. */
  function EscapeChar(c: char): string
  {
    if c == '"' then "\\\""
    else if IsVisibleAscii(c) then [c]
    else HexEscapes(EncodeChar(c))
  }

  /** Only a plain character is written as itself; any other takes at least
      two characters. */
  lemma EscapeCharLength(c: char)
    ensures IsPlainChar(c) ==> EscapeChar(c) == [c]
    ensures !IsPlainChar(c) ==> |EscapeChar(c)| >= 2
  {
  }

  /** The text between the quotes of the `Debug` form.  It is never shorter
      than the value (EscapeLength says when it is as long). */
  function Escape(v: string): (r: string)
    ensures |r| >= |v|
  {
    if v == [] then []
    else
      EscapeCharLength(v[0]);
      EscapeChar(v[0]) + Escape(v[1..])
  }

  /** `format!("{:?}", value)` for a header value that is not marked
      sensitive: the escape between two quotes, which are exactly what the
      quote-stripping pattern takes off again. */
  function DebugForm(v: FieldValue): (r: string)
    ensures StripQuotes(r) == Escape(v)
  {
    StripQuotesOfQuoted(Escape(v));
    "\"" + Escape(v) + "\""
  }

  /** 1 when `t` opens with a double quote, else 0. */
  function Lead(t: string): nat
  {
    if |t| > 0 && t[0] == '"' then 1 else 0
  }

  /** The regex replacement `(^")|("$)` → "" (no multi-line flag, so `^` and
      `$` are the ends of the text).  The result is `t` without its opening
      quote, if any, and without a closing quote that is not that same
      opening one; nothing else changes. */
  function StripQuotes(t: string): (r: string)
    ensures |r| <= |t| <= |r| + 2
    ensures Lead(t) + |r| <= |t| && r == t[Lead(t)..Lead(t) + |r|]
    ensures |t| - |r| - Lead(t) == 1 <==> |t| > Lead(t) && t[|t| - 1] == '"'
  {
    var b := if |t| > Lead(t) && t[|t| - 1] == '"' then |t| - 1 else |t|;
    t[Lead(t)..b]
  }

  /** Stripping undoes quoting. */
  lemma {:induction false} StripQuotesOfQuoted(x: string)
    ensures StripQuotes("\"" + x + "\"") == x
  {
    var t := "\"" + x + "\"";
    assert Lead(t) == 1;
    assert t[|t| - 1] == '"';
    assert t[1..|t| - 1] == x;
  }

  /** A text with no quote at either end comes back unchanged. */
  lemma {:induction false} StripQuotesUnquoted(t: string)
    requires |t| > 0 ==> t[0] != '"' && t[|t| - 1] != '"'
    ensures StripQuotes(t) == t
  {
  }

  /** `parse_header`: exactly the escaped value.  The quotes `Debug` adds
      are the ones the pattern deletes, and an escaped `\"` inside the value
      is never touched. */
  function ParseHeader(v: FieldValue): (r: string)
    ensures r == Escape(v)
  {
    StripQuotes(DebugForm(v))
  }

  /** Escaping never shortens, and keeps the length exactly when every
      character is plain. */
  lemma {:induction false} EscapeLength(v: string)
    ensures |Escape(v)| >= |v|
    ensures |Escape(v)| == |v| <==> IsPlain(v)
    ensures IsPlain(v) ==> Escape(v) == v
  {
    if v != [] {
      EscapeCharLength(v[0]);
      EscapeLength(v[1..]);
      if IsPlain(v[1..]) && IsPlainChar(v[0]) {
        assert IsPlain(v);
      }
      if IsPlain(v) {
        assert IsPlainChar(v[0]);
        assert IsPlain(v[1..]) by {
          forall i | 0 <= i < |v| - 1 ensures IsPlainChar(v[1..][i]) {
            assert v[1..][i] == v[i + 1];
          }
        }
        assert v == [v[0]] + v[1..];
      }
    }
  }

  /** `parse_header` gives back the value itself exactly when the value is
      visible ASCII without a double quote (so `bar.com` comes back as
      `bar.com`). */
  lemma {:induction false} ParseHeaderIdentity(v: FieldValue)
    ensures ParseHeader(v) == v <==> IsPlain(v)
  {
    EscapeLength(v);
  }

  /** ASCII lower-casing, as `HeaderName` stores and compares names. */
  function LowerChar(c: char): char
  {
    if 'A' <= c <= 'Z' then (c as int + 32) as char else c
  }

  function Lower(s: string): (r: string)
    ensures |r| == |s|
    ensures forall i :: 0 <= i < |s| ==> r[i] == LowerChar(s[i])
  {
    if s == [] then [] else [LowerChar(s[0])] + Lower(s[1..])
  }

  /** Lower case is kept: a name already in lower case prints as itself. */
  lemma {:induction false} LowerTwice(s: string)
    ensures Lower(Lower(s)) == Lower(s)
  {
    var l := Lower(s);
    assert forall i :: 0 <= i < |l| ==> Lower(l)[i] == LowerChar(LowerChar(s[i]));
  }

  /** Two header names are the same name. */
  predicate SameName(a: string, b: string)
  {
    Lower(a) == Lower(b)
  }

  /** `HeaderMap::get`: the value of the first field whose name is `name`,
      compared without regard to ASCII case. */
  function Lookup(hs: seq<Header>, name: string): (r: Option<FieldValue>)
    ensures r.None? <==> forall i :: 0 <= i < |hs| ==> !SameName(hs[i].name, name)
    ensures r.Some? ==> exists i :: 0 <= i < |hs| && SameName(hs[i].name, name) && hs[i].value == r.value
                          && forall j :: 0 <= j < i ==> !SameName(hs[j].name, name)
  {
    if hs == [] then None
    else if SameName(hs[0].name, name) then Some(hs[0].value)
    else
      var r := Lookup(hs[1..], name);
      assert forall i :: 0 <= i < |hs| - 1 ==> hs[1..][i] == hs[i + 1];
      r
  }

  /** `extract_header`: `None` is the `unwrap` failing because the request has
      no field of that name. */
  function ExtractHeader(req: Request, name: string): (r: Option<string>)
    ensures r.None? <==> forall i :: 0 <= i < |req.headers| ==> !SameName(req.headers[i].name, name)
    ensures r.Some? ==> exists i :: 0 <= i < |req.headers| && SameName(req.headers[i].name, name)
                          && r.value == Escape(req.headers[i].value)
                          && forall j :: 0 <= j < i ==> !SameName(req.headers[j].name, name)
  {
    match Lookup(req.headers, name)
    case None => None
    case Some(v) =>
        Some(ParseHeader(v))
  }
}

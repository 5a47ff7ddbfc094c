/** The parts of a request-target that the library reads through `http::Uri`
    (its path, query and host, after sections 3.2.2, 3.3 and 3.4 of RFC 3986)
    and `parse_query`, which percent-decodes the query (section 2.1 of
    RFC 3986). */
module Query {
  import opened HttpTypes
  import opened Utf8

  /** The first index at or after `i` where `s` holds `c`, or `|s|`. */
  function IndexFrom(s: string, i: nat, c: char): (r: nat)
    requires i <= |s|
    ensures i <= r <= |s|
    ensures r < |s| ==> s[r] == c
    ensures forall j :: i <= j < r ==> s[j] != c
    decreases |s| - i
  {
    if i == |s| || s[i] == c then i else IndexFrom(s, i + 1, c)
  }

  predicate IsAlpha(c: char)
  {
    'a' <= c <= 'z' || 'A' <= c <= 'Z'
  }

  predicate IsSchemeChar(c: char)
  {
    IsAlpha(c) || '0' <= c <= '9' || c == '+' || c == '-' || c == '.'
  }

  /** The end of the run of scheme characters that starts at `i`. */
  function SchemeEnd(s: string, i: nat): (r: nat)
    requires i <= |s|
    ensures i <= r <= |s|
    ensures r < |s| ==> !IsSchemeChar(s[r])
    ensures forall j :: i <= j < r ==> IsSchemeChar(s[j])
    decreases |s| - i
  {
    if i == |s| || !IsSchemeChar(s[i]) then i else SchemeEnd(s, i + 1)
  }

  /** A target in absolute form (`scheme://authority/path?query`): the index
      just after its `://`, or 0 for a target in origin form (`/path?query`). */
  function AuthorityStart(t: string): (r: nat)
    ensures r <= |t|
    ensures r > 0 ==> r >= 4 && t[r - 3..r] == "://" && IsAlpha(t[0])
    ensures r > 0 ==> forall j :: 0 <= j < r - 3 ==> IsSchemeChar(t[j])
  {
    var k := SchemeEnd(t, 0);
    if k > 0 && IsAlpha(t[0]) && k + 3 <= |t| && t[k..k + 3] == "://" then k + 3 else 0
  }

  /** A target that starts with a letter, a run of scheme characters and
      `://` is in absolute form, and its authority starts after that `://`. */
  lemma {:induction false} AuthorityStartComplete(t: string, k: nat)
    requires 0 < k && k + 3 <= |t| && IsAlpha(t[0])
    requires forall j :: 0 <= j < k ==> IsSchemeChar(t[j])
    requires t[k..k + 3] == "://"
    ensures AuthorityStart(t) == k + 3
  {
    assert t[k] == ':';
  }

  /** The authority of an absolute-form target, empty for origin form. */
  function Authority(t: string): string
  {
    var a := AuthorityStart(t);
    if a == 0 then "" else t[a..AuthorityEnd(t, a)]
  }

  /** Where the authority of an absolute-form target ends: at the first `/`,
      `?` or end of text. */
  function AuthorityEnd(t: string, i: nat): (r: nat)
    requires i <= |t|
    ensures i <= r <= |t|
    ensures r < |t| ==> t[r] == '/' || t[r] == '?'
    ensures forall j :: i <= j < r ==> t[j] != '/' && t[j] != '?'
    decreases |t| - i
  {
    if i == |t| || t[i] == '/' || t[i] == '?' then i else AuthorityEnd(t, i + 1)
  }

  /** The path-and-query part of a target. */
  function PathAndQuery(t: string): (r: string)
    ensures |r| <= |t|
    ensures t == "" || !IsAlpha(t[0]) ==> r == t
  {
    var a := AuthorityStart(t);
    if a == 0 then t else t[AuthorityEnd(t, a)..]
  }

  /** `Uri::path`: the text before the first `?`, or `/` when that is empty. */
  function Path(t: string): (r: string)
    ensures r != ""
    ensures '?' !in r
  {
    var pq := PathAndQuery(t);
    var q := IndexFrom(pq, 0, '?');
    if q == 0 then "/" else pq[..q]
  }

  /** The path is `/` when the path-and-query is empty or starts with `?`;
      otherwise it is the prefix that ends at the first `?` or at the end. */
  lemma {:induction false} PathCut(t: string)
    ensures PathAndQuery(t) == "" || PathAndQuery(t)[0] == '?' ==> Path(t) == "/"
    ensures PathAndQuery(t) != "" && PathAndQuery(t)[0] != '?' ==>
      Path(t) <= PathAndQuery(t)
      && (|Path(t)| == |PathAndQuery(t)| || PathAndQuery(t)[|Path(t)|] == '?')
  {
  }

  /** `Uri::query`: the text after the first `?`, if there is one. */
  function UriQuery(t: string): (r: Option<string>)
    ensures r.None? <==> '?' !in PathAndQuery(t)
  {
    var pq := PathAndQuery(t);
    var q := IndexFrom(pq, 0, '?');
    if q == |pq| then None else Some(pq[q + 1..])
  }

  /** Path and query cut the path-and-query at its first `?`. */
  lemma {:induction false} PathQuerySplit(t: string)
    requires UriQuery(t).Some?
    requires PathAndQuery(t)[0] != '?'
    ensures PathAndQuery(t) == Path(t) + "?" + UriQuery(t).value
  {
    var pq := PathAndQuery(t);
    var q := IndexFrom(pq, 0, '?');
    assert pq == pq[..q] + [pq[q]] + pq[q + 1..];
  }

  /** A target in origin form without a query is its own path. */
  lemma {:induction false} PathOfOriginForm(t: string)
    requires t != "" && t[0] == '/'
    requires '?' !in t
    ensures PathAndQuery(t) == t
    ensures Path(t) == t
  {
  }

  /** `Uri::host`: the authority of an absolute-form target without its
      user information and port; `None` for a target in origin form. */
  function Host(t: string): (r: Option<string>)
    ensures r.None? <==> AuthorityStart(t) == 0
    ensures r.Some? ==> '@' !in r.value && ':' !in r.value
    ensures r.Some? ==> r.value <= AfterLast(Authority(t), '@')
    ensures r.Some? ==> var h := AfterLast(Authority(t), '@');
      |r.value| == |h| || h[|r.value|] == ':'
  {
    if AuthorityStart(t) == 0 then None
    else
      var h := AfterLast(Authority(t), '@');
      Some(h[..IndexFrom(h, 0, ':')])
  }

  /** What follows the last `c` of `s`, or all of `s` when it has none. */
  function AfterLast(s: string, c: char): (r: string)
    ensures |r| <= |s|
    ensures c !in r
    ensures c !in s ==> r == s
    ensures r == s[|s| - |r|..]
    ensures |r| < |s| ==> s[|s| - |r| - 1] == c
  {
    if s == [] then []
    else if s[|s| - 1] == c then []
    else AfterLast(s[..|s| - 1], c) + [s[|s| - 1]]
  }

  predicate IsHexByte(b: byte)
  {
    '0' as byte <= b <= '9' as byte || 'a' as byte <= b <= 'f' as byte || 'A' as byte <= b <= 'F' as byte
  }

  function HexValue(b: byte): (r: int)
    requires IsHexByte(b)
    ensures 0 <= r < 16
  {
    if b <= '9' as byte then (b - '0' as byte) as int
    else if b <= 'F' as byte then (b - 'A' as byte) as int + 10
    else (b - 'a' as byte) as int + 10
  }

  const Percent: byte := '%' as byte

  /** An escape `%XX` starts at `i`. */
  predicate EscapeAt(b: seq<byte>, i: nat)
  {
    i + 3 <= |b| && b[i] == Percent && IsHexByte(b[i + 1]) && IsHexByte(b[i + 2])
  }

  /** `percent_decode`: every `%` followed by two hexadecimal digits becomes
      the byte they denote; any other byte, including a `%` that does not
      start such an escape, is kept. */
  function PercentDecode(b: seq<byte>): (r: seq<byte>)
    ensures |r| <= |b|
    ensures 3 * |r| >= |b|
    decreases |b|
  {
    if b == [] then []
    else if EscapeAt(b, 0) then [(HexValue(b[1]) * 16 + HexValue(b[2])) as byte] + PercentDecode(b[3..])
    else [b[0]] + PercentDecode(b[1..])
  }

  /** Text without a `%` decodes to itself. */
  lemma {:induction false} PercentDecodePlain(b: seq<byte>)
    requires Percent !in b
    ensures PercentDecode(b) == b
  {
    if b != [] {
      assert b[1..] <= b[1..];
      assert Percent !in b[1..] by {
        assert forall x :: x in b[1..] ==> x in b;
      }
      PercentDecodePlain(b[1..]);
      assert b == [b[0]] + b[1..];
    }
  }

  /** RFC 3986's unreserved characters, which an encoder leaves as they are. */
  predicate IsUnreserved(b: byte)
  {
    '0' as byte <= b <= '9' as byte || 'a' as byte <= b <= 'z' as byte || 'A' as byte <= b <= 'Z' as byte
    || b == '-' as byte || b == '.' as byte || b == '_' as byte || b == '~' as byte
  }

  function UpperHexDigit(d: int): byte
    requires 0 <= d < 16
  {
    if d < 10 then ('0' as int + d) as byte else ('A' as int + d - 10) as byte
  }

  /** The percent-encoder the decoder inverts: unreserved bytes stay, every
      other byte becomes `%XX`. */
  function PercentEncode(b: seq<byte>): (r: seq<byte>)
    ensures |r| >= |b|
  {
    if b == [] then []
    else if IsUnreserved(b[0]) then [b[0]] + PercentEncode(b[1..])
    else [Percent, UpperHexDigit(b[0] as int / 16), UpperHexDigit(b[0] as int % 16)] + PercentEncode(b[1..])
  }

  /** Decoding undoes encoding, so every byte string is reachable. */
  lemma {:induction false} DecodeEncode(b: seq<byte>)
    ensures PercentDecode(PercentEncode(b)) == b
  {
    if b != [] {
      DecodeEncode(b[1..]);
      var e := PercentEncode(b);
      if IsUnreserved(b[0]) {
        assert e == [b[0]] + PercentEncode(b[1..]);
        assert !EscapeAt(e, 0);
        assert e[1..] == PercentEncode(b[1..]);
      } else {
        var hi, lo := b[0] as int / 16, b[0] as int % 16;
        assert e == [Percent, UpperHexDigit(hi), UpperHexDigit(lo)] + PercentEncode(b[1..]);
        assert HexValue(UpperHexDigit(hi)) == hi;
        assert HexValue(UpperHexDigit(lo)) == lo;
        assert EscapeAt(e, 0);
        assert e[3..] == PercentEncode(b[1..]);
      }
      assert b == [b[0]] + b[1..];
    }
  }

  /** `parse_query`: the percent-decoded bytes of the query, `None` when the
      target has no query. */
  function ParseQuery(req: Request): (r: Option<seq<byte>>)
    ensures r.None? <==> UriQuery(req.target).None?
  {
    match UriQuery(req.target)
    case None => None
    case Some(q) => Some(PercentDecode(Encode(q)))
  }

  /** A query without `%` comes back as its own bytes. */
  lemma {:induction false} ParseQueryPlain(req: Request)
    requires UriQuery(req.target).Some?
    requires '%' !in UriQuery(req.target).value
    ensures ParseQuery(req) == Some(Encode(UriQuery(req.target).value))
  {
    var q := UriQuery(req.target).value;
    EncodeNoPercent(q);
    PercentDecodePlain(Encode(q));
  }

  /** A string without `%` has no `%` byte: a non-ASCII character's bytes are
      all at least 0x80. */
  lemma {:induction false} EncodeNoPercent(s: string)
    requires '%' !in s
    ensures Percent !in Encode(s)
  {
    if s != [] {
      assert s[0] in s;
      assert '%' !in s[1..] by {
        assert forall x :: x in s[1..] ==> x in s;
      }
      EncodeNoPercent(s[1..]);
    }
  }
}

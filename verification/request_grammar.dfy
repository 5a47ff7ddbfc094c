/** The regular expression that `parse_request` searches with,

      (?P<method>[A-Z]+) (?P<path>[^ ]+) HTTP/1\.\d\r\n
      (?P<headers>(?:[A-Za-z-]+: [^\r\n]+\r\n)+)?
      (?:\r\n(?P<body>.+))?

    written out as an explicit recogniser over the request text.  The search is
    unanchored and leftmost-first.  Every greedy run in the pattern is followed
    by a literal outside its own class, so giving characters back never helps:
    each run is the longest one, and a request line either matches at a start
    position in exactly one way or not at all.  The header group and the body
    group are optional, so once a request line matches, the match succeeds. */
module RequestGrammar {
  import opened HttpTypes

  /** The character classes of the pattern. */
  datatype CharClass =
    | Upper     // [A-Z]
    | NotSpace  // [^ ]
    | NameChar  // [A-Za-z-]
    | LineChar  // [^\r\n]
    | NotLf     // .

  predicate In(c: char, k: CharClass)
  {
    match k
    case Upper => 'A' <= c <= 'Z'
    case NotSpace => c != ' '
    case NameChar => 'A' <= c <= 'Z' || 'a' <= c <= 'z' || c == '-'
    case LineChar => c != '\r' && c != '\n'
    case NotLf => c != '\n'
  }

  /** `\d` */
  predicate IsDigit(c: char) { '0' <= c <= '9' }

  /** The text of `s` from `a` up to `b`: what a capture group holds. */
  function Sub(s: string, a: nat, b: nat): (r: string)
    requires a <= b <= |s|
    ensures |r| == b - a
    decreases b - a
  {
    if a == b then [] else [s[a]] + Sub(s, a + 1, b)
  }

  /** The capture holds the characters between its bounds, in order. */
  lemma {:induction false} SubIndex(s: string, a: nat, b: nat)
    requires a <= b <= |s|
    ensures forall j :: 0 <= j < b - a ==> Sub(s, a, b)[j] == s[a + j]
    decreases b - a
  {
    if a < b {
      SubIndex(s, a + 1, b);
      assert forall j :: 1 <= j < b - a ==> Sub(s, a, b)[j] == Sub(s, a + 1, b)[j - 1];
    }
  }

  /** The end of the longest run of characters of class `p` that starts at
      `i`: what a greedy repetition of the class consumes. */
  function SpanEnd(s: string, i: nat, p: CharClass): (j: nat)
    requires i <= |s|
    ensures i <= j <= |s|
    ensures j == |s| || !In(s[j], p)
    decreases |s| - i
  {
    if i == |s| || !In(s[i], p) then i else SpanEnd(s, i + 1, p)
  }

  /** Every character of the run is in the class. */
  lemma {:induction false} SpanEndRun(s: string, i: nat, p: CharClass)
    requires i <= |s|
    ensures forall k :: i <= k < SpanEnd(s, i, p) ==> In(s[k], p)
    decreases |s| - i
  {
    if i < |s| && In(s[i], p) {
      SpanEndRun(s, i + 1, p);
    }
  }

  /** A greedy run is determined by where it starts. */
  lemma {:induction false} SpanEndUnique(s: string, i: nat, j: nat, p: CharClass)
    requires i <= j <= |s|
    requires forall k :: i <= k < j ==> In(s[k], p)
    requires j == |s| || !In(s[j], p)
    ensures SpanEnd(s, i, p) == j
    decreases j - i
  {
    if i < j {
      SpanEndUnique(s, i + 1, j, p);
    }
  }

  /** `t` occurs in `s` at position `i`. */
  predicate At(s: string, i: nat, t: string)
  {
    i + |t| <= |s| && forall j :: 0 <= j < |t| ==> s[i + j] == t[j]
  }

  lemma AtConcat(s: string, i: nat, a: string, b: string)
    ensures At(s, i, a + b) <==> At(s, i, a) && At(s, i + |a|, b)
  {
    if At(s, i, a) && At(s, i + |a|, b) {
      forall j | 0 <= j < |a + b| ensures s[i + j] == (a + b)[j] {
        if j >= |a| {
          assert s[i + |a| + (j - |a|)] == b[j - |a|];
        }
      }
    }
    if At(s, i, a + b) {
      forall j | 0 <= j < |a| ensures s[i + j] == a[j] {
        assert s[i + j] == (a + b)[j];
      }
      forall j | 0 <= j < |b| ensures s[i + |a| + j] == b[j] {
        assert s[i + (|a| + j)] == (a + b)[|a| + j];
      }
    }
  }

  /** A capture is the text that occurs where it was taken. */
  lemma AtSub(s: string, i: nat, t: string)
    requires i + |t| <= |s|
    ensures At(s, i, t) <==> Sub(s, i, i + |t|) == t
  {
    SubIndex(s, i, i + |t|);
    if At(s, i, t) {
      assert forall j :: 0 <= j < |t| ==> Sub(s, i, i + |t|)[j] == t[j];
    }
  }

  // ----- The request line: METHOD SP TARGET SP "HTTP/1." DIGIT CRLF -----

  const VersionPrefix: string := " HTTP/1."

  predicate VersionAt(s: string, p: nat)
  {
    && p + 8 <= |s| && s[p] == ' ' && s[p + 1] == 'H' && s[p + 2] == 'T' && s[p + 3] == 'T'
    && s[p + 4] == 'P' && s[p + 5] == '/' && s[p + 6] == '1' && s[p + 7] == '.'
  }

  lemma VersionAtPrefix(s: string, p: nat)
    ensures VersionAt(s, p) <==> At(s, p, VersionPrefix)
  {
    if At(s, p, VersionPrefix) {
      assert s[p + 0] == VersionPrefix[0] && s[p + 1] == VersionPrefix[1];
      assert s[p + 2] == VersionPrefix[2] && s[p + 3] == VersionPrefix[3];
      assert s[p + 4] == VersionPrefix[4] && s[p + 5] == VersionPrefix[5];
      assert s[p + 6] == VersionPrefix[6] && s[p + 7] == VersionPrefix[7];
    }
  }

  /** A request line as the pattern captures it; `digit` is the minor
      version digit, which the match requires and the parse then drops. */
  datatype RequestLine = RequestLine(httpMethod: string, target: string, digit: char)

  /** The text a request line stands for. */
  function LineText(l: RequestLine): string
  {
    l.httpMethod + " " + l.target + VersionPrefix + [l.digit] + "\r\n"
  }

  predicate WellFormedLine(l: RequestLine)
  {
    && |l.httpMethod| > 0 && (forall i :: 0 <= i < |l.httpMethod| ==> In(l.httpMethod[i], Upper))
    && |l.target| > 0 && (forall i :: 0 <= i < |l.target| ==> In(l.target[i], NotSpace))
    && IsDigit(l.digit)
  }

  /** The request line that the pattern matches when its search tries start
      position `i`, if any.  RequestLineAtSound and RequestLineAtComplete
      state what it finds. */
  function RequestLineAt(s: string, i: nat): Option<RequestLine>
    requires i <= |s|
  {
    var m := SpanEnd(s, i, Upper);
    if m == i || m == |s| || s[m] != ' ' then None
    else
      var p := SpanEnd(s, m + 1, NotSpace);
      if p == m + 1 || !VersionAt(s, p) || p + 10 >= |s| || !IsDigit(s[p + 8])
         || s[p + 9] != '\r' || s[p + 10] != '\n' then None
      else Some(RequestLine(Sub(s, i, m), Sub(s, m + 1, p), s[p + 8]))
  }

  /** What is found at `i` is a well-formed request line whose text occurs
      there. */
  lemma RequestLineAtSound(s: string, i: nat)
    requires i <= |s|
    ensures var r := RequestLineAt(s, i);
      r.Some? ==> WellFormedLine(r.value) && At(s, i, LineText(r.value))
  {
    RequestLineAtWellFormed(s, i);
    RequestLineAtText(s, i);
  }

  /** The request line found at `i` fits in the text. */
  lemma RequestLineAtFits(s: string, i: nat)
    requires i <= |s|
    ensures var r := RequestLineAt(s, i); r.Some? ==> i + |LineText(r.value)| <= |s|
  {
  }

  lemma RequestLineAtWellFormed(s: string, i: nat)
    requires i <= |s|
    ensures var r := RequestLineAt(s, i); r.Some? ==> WellFormedLine(r.value)
  {
    if RequestLineAt(s, i).Some? {
      var m := SpanEnd(s, i, Upper);
      var p := SpanEnd(s, m + 1, NotSpace);
      SpanEndRun(s, i, Upper);
      SpanEndRun(s, m + 1, NotSpace);
      SubIndex(s, i, m);
      SubIndex(s, m + 1, p);
      var l := RequestLine(Sub(s, i, m), Sub(s, m + 1, p), s[p + 8]);
      assert forall j :: 0 <= j < |l.httpMethod| ==> l.httpMethod[j] == s[i + j];
      assert forall j :: 0 <= j < |l.target| ==> l.target[j] == s[m + 1 + j];
    }
  }

  lemma RequestLineAtText(s: string, i: nat)
    requires i <= |s|
    ensures var r := RequestLineAt(s, i); r.Some? ==> At(s, i, LineText(r.value))
  {
    if RequestLineAt(s, i).Some? {
      var m := SpanEnd(s, i, Upper);
      var p := SpanEnd(s, m + 1, NotSpace);
      var l := RequestLine(Sub(s, i, m), Sub(s, m + 1, p), s[p + 8]);
      AtSub(s, i, l.httpMethod);
      AtSub(s, m + 1, l.target);
      assert s[m + 0] == " "[0];
      assert s[p + 9 + 0] == "\r\n"[0] && s[p + 9 + 1] == "\r\n"[1];
      VersionAtPrefix(s, p);
      LineTextJoin(s, i, l);
    }
  }

  lemma LineTextJoin(s: string, i: nat, l: RequestLine)
    requires var m := i + |l.httpMethod|; var p := m + 1 + |l.target|;
      && At(s, i, l.httpMethod) && At(s, m, " ") && At(s, m + 1, l.target)
      && At(s, p, VersionPrefix) && p + 8 < |s| && s[p + 8] == l.digit && At(s, p + 9, "\r\n")
    ensures At(s, i, LineText(l))
  {
    var m := i + |l.httpMethod|;
    var p := m + 1 + |l.target|;
    assert s[p + 8 + 0] == [l.digit][0];
    AtConcat(s, i, l.httpMethod, " ");
    AtConcat(s, i, l.httpMethod + " ", l.target);
    AtConcat(s, i, l.httpMethod + " " + l.target, VersionPrefix);
    AtConcat(s, i, l.httpMethod + " " + l.target + VersionPrefix, [l.digit]);
    AtConcat(s, i, l.httpMethod + " " + l.target + VersionPrefix + [l.digit], "\r\n");
  }

  /** Every well-formed request line present at `i` is found there. */
  lemma RequestLineAtComplete(s: string, i: nat, l: RequestLine)
    requires WellFormedLine(l)
    requires At(s, i, LineText(l))
    ensures RequestLineAt(s, i) == Some(l)
  {
    var m := i + |l.httpMethod|;
    var p := m + 1 + |l.target|;
    LineTextParts(s, i, l);
    MethodSpan(s, i, l);
    TargetSpan(s, i, l);
    VersionAtPrefix(s, p);
    RequestLineAtWhen(s, i, m, p);
  }

  /** RequestLineAt, read backwards from the positions where its runs end. */
  lemma RequestLineAtWhen(s: string, i: nat, m: nat, p: nat)
    requires i <= |s|
    requires m == SpanEnd(s, i, Upper) && m != i && m < |s| && s[m] == ' '
    requires p == SpanEnd(s, m + 1, NotSpace) && p != m + 1
    requires VersionAt(s, p) && p + 10 < |s| && IsDigit(s[p + 8]) && s[p + 9] == '\r' && s[p + 10] == '\n'
    ensures RequestLineAt(s, i) == Some(RequestLine(Sub(s, i, m), Sub(s, m + 1, p), s[p + 8]))
  {
  }

  lemma MethodSpan(s: string, i: nat, l: RequestLine)
    requires WellFormedLine(l)
    requires At(s, i, l.httpMethod) && i + |l.httpMethod| < |s| && s[i + |l.httpMethod|] == ' '
    ensures SpanEnd(s, i, Upper) == i + |l.httpMethod|
    ensures Sub(s, i, i + |l.httpMethod|) == l.httpMethod
  {
    var m := i + |l.httpMethod|;
    forall k | i <= k < m ensures In(s[k], Upper) {
      assert s[i + (k - i)] == l.httpMethod[k - i];
    }
    SpanEndUnique(s, i, m, Upper);
    AtSub(s, i, l.httpMethod);
  }

  lemma TargetSpan(s: string, i: nat, l: RequestLine)
    requires WellFormedLine(l)
    requires var p := i + |l.httpMethod| + 1 + |l.target|;
      At(s, i + |l.httpMethod| + 1, l.target) && p < |s| && s[p] == ' '
    ensures var m := i + |l.httpMethod|;
      && SpanEnd(s, m + 1, NotSpace) == m + 1 + |l.target|
      && Sub(s, m + 1, m + 1 + |l.target|) == l.target
  {
    var m := i + |l.httpMethod|;
    var p := m + 1 + |l.target|;
    forall k | m + 1 <= k < p ensures In(s[k], NotSpace) {
      assert s[m + 1 + (k - m - 1)] == l.target[k - m - 1];
    }
    SpanEndUnique(s, m + 1, p, NotSpace);
    AtSub(s, m + 1, l.target);
  }

  lemma LineTextParts(s: string, i: nat, l: RequestLine)
    requires At(s, i, LineText(l))
    ensures var m := i + |l.httpMethod|; var p := m + 1 + |l.target|;
      && At(s, i, l.httpMethod) && s[m] == ' ' && At(s, m + 1, l.target)
      && At(s, p, VersionPrefix) && s[p] == ' ' && p + 10 < |s| && s[p + 8] == l.digit
      && s[p + 9] == '\r' && s[p + 10] == '\n'
  {
    var m := i + |l.httpMethod|;
    var p := m + 1 + |l.target|;
    AtConcat(s, i, l.httpMethod + " " + l.target + VersionPrefix + [l.digit], "\r\n");
    AtConcat(s, i, l.httpMethod + " " + l.target + VersionPrefix, [l.digit]);
    AtConcat(s, i, l.httpMethod + " " + l.target, VersionPrefix);
    AtConcat(s, i, l.httpMethod + " ", l.target);
    AtConcat(s, i, l.httpMethod, " ");
    assert s[m + 0] == " "[0];
    assert s[p + 0] == VersionPrefix[0];
    assert s[p + 8 + 0] == [l.digit][0];
    assert s[p + 9 + 0] == "\r\n"[0];
    assert s[p + 9 + 1] == "\r\n"[1];
  }

  /** The leftmost start position at or after `i` where a request line
      matches: where the unanchored search settles. */
  function Leftmost(s: string, i: nat): (r: Option<(nat, RequestLine)>)
    requires i <= |s|
    ensures r.Some? ==> i <= r.value.0 <= |s| && RequestLineAt(s, r.value.0) == Some(r.value.1)
    ensures r.Some? ==> r.value.0 + |LineText(r.value.1)| <= |s|
    decreases |s| - i
  {
    match RequestLineAt(s, i)
    case Some(l) =>
      RequestLineAtFits(s, i);
      Some((i, l))
    case None => if i == |s| then None else Leftmost(s, i + 1)
  }

  /** The search finds nothing only when no start position matches, and
      what it finds is the first start position that does. */
  lemma {:induction false} LeftmostFirst(s: string, i: nat)
    requires i <= |s|
    ensures Leftmost(s, i).None? ==> forall k :: i <= k <= |s| ==> RequestLineAt(s, k).None?
    ensures Leftmost(s, i).Some? ==> forall k :: i <= k < Leftmost(s, i).value.0 ==> RequestLineAt(s, k).None?
    decreases |s| - i
  {
    if RequestLineAt(s, i).None? && i < |s| {
      LeftmostFirst(s, i + 1);
    }
  }

  // ----- Header lines: NAME ": " VALUE CRLF -----

  /** A header line as the pattern captures it, before any validation. */
  datatype FieldLine = FieldLine(name: string, value: string)

  function FieldText(f: FieldLine): string
  {
    f.name + ": " + f.value + "\r\n"
  }

  predicate WellFormedField(f: FieldLine)
  {
    && |f.name| > 0 && (forall i :: 0 <= i < |f.name| ==> In(f.name[i], NameChar))
    && |f.value| > 0 && (forall i :: 0 <= i < |f.value| ==> In(f.value[i], LineChar))
  }

  /** The header line that one repetition of the header group matches at
      `k`.  FieldLineAtSound and FieldLineAtComplete state what it finds. */
  function FieldLineAt(s: string, k: nat): Option<FieldLine>
    requires k <= |s|
  {
    var n := SpanEnd(s, k, NameChar);
    if n == k || n + 1 >= |s| || s[n] != ':' || s[n + 1] != ' ' then None
    else
      var v := SpanEnd(s, n + 2, LineChar);
      if v == n + 2 || v + 1 >= |s| || s[v] != '\r' || s[v + 1] != '\n' then None
      else Some(FieldLine(Sub(s, k, n), Sub(s, n + 2, v)))
  }

  /** What is found at `k` is a well-formed header line whose text occurs
      there. */
  lemma FieldLineAtSound(s: string, k: nat)
    requires k <= |s|
    ensures var r := FieldLineAt(s, k);
      r.Some? ==> WellFormedField(r.value) && At(s, k, FieldText(r.value))
  {
    FieldLineAtWellFormed(s, k);
    FieldLineAtText(s, k);
  }

  lemma FieldLineAtWellFormed(s: string, k: nat)
    requires k <= |s|
    ensures var r := FieldLineAt(s, k); r.Some? ==> WellFormedField(r.value)
  {
    if FieldLineAt(s, k).Some? {
      var n := SpanEnd(s, k, NameChar);
      var v := SpanEnd(s, n + 2, LineChar);
      SpanEndRun(s, k, NameChar);
      SpanEndRun(s, n + 2, LineChar);
      SubIndex(s, k, n);
      SubIndex(s, n + 2, v);
      var f := FieldLine(Sub(s, k, n), Sub(s, n + 2, v));
      assert forall j :: 0 <= j < |f.name| ==> f.name[j] == s[k + j];
      assert forall j :: 0 <= j < |f.value| ==> f.value[j] == s[n + 2 + j];
    }
  }

  lemma FieldLineAtText(s: string, k: nat)
    requires k <= |s|
    ensures var r := FieldLineAt(s, k); r.Some? ==> At(s, k, FieldText(r.value))
  {
    if FieldLineAt(s, k).Some? {
      var n := SpanEnd(s, k, NameChar);
      var v := SpanEnd(s, n + 2, LineChar);
      var f := FieldLine(Sub(s, k, n), Sub(s, n + 2, v));
      AtSub(s, k, f.name);
      AtSub(s, n + 2, f.value);
      assert s[n + 0] == ": "[0] && s[n + 1] == ": "[1];
      assert s[v + 0] == "\r\n"[0] && s[v + 1] == "\r\n"[1];
      FieldTextJoin(s, k, f);
    }
  }

  lemma FieldTextJoin(s: string, k: nat, f: FieldLine)
    requires var n := k + |f.name|;
      At(s, k, f.name) && At(s, n, ": ") && At(s, n + 2, f.value) && At(s, n + 2 + |f.value|, "\r\n")
    ensures At(s, k, FieldText(f))
  {
    AtConcat(s, k, f.name, ": ");
    AtConcat(s, k, f.name + ": ", f.value);
    AtConcat(s, k, f.name + ": " + f.value, "\r\n");
  }

  /** No header line starts at a character that cannot begin a name. */
  lemma {:induction false} NoFieldAt(s: string, e: nat)
    requires e <= |s|
    requires e == |s| || !In(s[e], NameChar)
    ensures FieldLineAt(s, e).None?
  {
    assert SpanEnd(s, e, NameChar) == e;
  }

  /** Every well-formed header line present at `k` is found there. */
  lemma FieldLineAtComplete(s: string, k: nat, f: FieldLine)
    requires WellFormedField(f)
    requires At(s, k, FieldText(f))
    ensures FieldLineAt(s, k) == Some(f)
  {
    FieldTextParts(s, k, f);
    NameSpan(s, k, f);
    ValueSpan(s, k, f);
    FieldLineAtWhen(s, k, k + |f.name|, k + |f.name| + 2 + |f.value|);
  }

  /** FieldLineAt, read backwards from the positions where its runs end. */
  lemma FieldLineAtWhen(s: string, k: nat, n: nat, v: nat)
    requires k <= |s|
    requires n == SpanEnd(s, k, NameChar) && n != k && n + 1 < |s| && s[n] == ':' && s[n + 1] == ' '
    requires v == SpanEnd(s, n + 2, LineChar) && v != n + 2 && v + 1 < |s| && s[v] == '\r' && s[v + 1] == '\n'
    ensures FieldLineAt(s, k) == Some(FieldLine(Sub(s, k, n), Sub(s, n + 2, v)))
  {
  }

  lemma NameSpan(s: string, k: nat, f: FieldLine)
    requires WellFormedField(f)
    requires At(s, k, f.name) && k + |f.name| < |s| && s[k + |f.name|] == ':'
    ensures SpanEnd(s, k, NameChar) == k + |f.name|
    ensures Sub(s, k, k + |f.name|) == f.name
  {
    var n := k + |f.name|;
    forall j | k <= j < n ensures In(s[j], NameChar) {
      assert s[k + (j - k)] == f.name[j - k];
    }
    SpanEndUnique(s, k, n, NameChar);
    AtSub(s, k, f.name);
  }

  lemma ValueSpan(s: string, k: nat, f: FieldLine)
    requires WellFormedField(f)
    requires var v := k + |f.name| + 2 + |f.value|;
      At(s, k + |f.name| + 2, f.value) && v < |s| && s[v] == '\r'
    ensures var n := k + |f.name|;
      && SpanEnd(s, n + 2, LineChar) == n + 2 + |f.value|
      && Sub(s, n + 2, n + 2 + |f.value|) == f.value
  {
    var n := k + |f.name|;
    var v := n + 2 + |f.value|;
    forall j | n + 2 <= j < v ensures In(s[j], LineChar) {
      assert s[n + 2 + (j - n - 2)] == f.value[j - n - 2];
    }
    SpanEndUnique(s, n + 2, v, LineChar);
    AtSub(s, n + 2, f.value);
  }

  lemma FieldTextParts(s: string, k: nat, f: FieldLine)
    requires At(s, k, FieldText(f))
    ensures var n := k + |f.name|; var v := n + 2 + |f.value|;
      && At(s, k, f.name) && s[n] == ':' && s[n + 1] == ' ' && At(s, n + 2, f.value)
      && v + 1 < |s| && s[v] == '\r' && s[v + 1] == '\n'
  {
    var n := k + |f.name|;
    var v := n + 2 + |f.value|;
    AtConcat(s, k, f.name + ": " + f.value, "\r\n");
    AtConcat(s, k, f.name + ": ", f.value);
    AtConcat(s, k, f.name, ": ");
    assert s[n + 0] == ": "[0];
    assert s[n + 1] == ": "[1];
    assert s[v + 0] == "\r\n"[0];
    assert s[v + 1] == "\r\n"[1];
  }

  /** The text of a run of header lines. */
  function Render(fs: seq<FieldLine>): string
  {
    if fs == [] then "" else FieldText(fs[0]) + Render(fs[1..])
  }

  /** The header group: the longest run of header lines starting at `k`,
      in input order, and where it ends.  No line at all is the empty run. */
  function FieldBlock(s: string, k: nat): (r: (seq<FieldLine>, nat))
    requires k <= |s|
    ensures k <= r.1 <= |s|
    decreases |s| - k
  {
    match FieldLineAt(s, k)
    case None => ([], k)
    case Some(f) =>
      var rest := FieldBlock(s, k + |FieldText(f)|);
      ([f] + rest.0, rest.1)
  }

  lemma FieldBlockUnfold(s: string, k: nat, f: FieldLine)
    requires k <= |s| && FieldLineAt(s, k) == Some(f)
    ensures k + |FieldText(f)| <= |s|
    ensures FieldBlock(s, k) == ([f] + FieldBlock(s, k + |FieldText(f)|).0, FieldBlock(s, k + |FieldText(f)|).1)
  {
  }

  /** The header group is a run of well-formed header lines that occurs
      in the text exactly between `k` and its end. */
  lemma FieldBlockSound(s: string, k: nat)
    requires k <= |s|
    ensures FieldBlock(s, k).1 == k + |Render(FieldBlock(s, k).0)|
    ensures At(s, k, Render(FieldBlock(s, k).0))
    ensures forall j :: 0 <= j < |FieldBlock(s, k).0| ==> WellFormedField(FieldBlock(s, k).0[j])
  {
    FieldBlockText(s, k);
    FieldBlockFields(s, k);
  }

  lemma {:induction false} FieldBlockText(s: string, k: nat)
    requires k <= |s|
    ensures FieldBlock(s, k).1 == k + |Render(FieldBlock(s, k).0)|
    ensures At(s, k, Render(FieldBlock(s, k).0))
    decreases |s| - k
  {
    var r := FieldLineAt(s, k);
    if r.Some? {
      var f := r.value;
      var k' := k + |FieldText(f)|;
      FieldLineAtText(s, k);
      FieldBlockUnfold(s, k, f);
      FieldBlockText(s, k');
      RenderStep(s, k, f, FieldBlock(s, k').0);
    } else {
      assert FieldBlock(s, k).0 == [];
    }
  }

  lemma {:induction false} FieldBlockFields(s: string, k: nat)
    requires k <= |s|
    ensures forall j :: 0 <= j < |FieldBlock(s, k).0| ==> WellFormedField(FieldBlock(s, k).0[j])
    decreases |s| - k
  {
    var r := FieldLineAt(s, k);
    if r.Some? {
      var f := r.value;
      var k' := k + |FieldText(f)|;
      FieldLineAtWellFormed(s, k);
      FieldBlockUnfold(s, k, f);
      FieldBlockFields(s, k');
      var fs := FieldBlock(s, k').0;
      assert forall j :: 1 <= j < |[f] + fs| ==> ([f] + fs)[j] == fs[j - 1];
    }
  }

  /** One more header line in front of a run. */
  lemma RenderStep(s: string, k: nat, f: FieldLine, fs: seq<FieldLine>)
    requires At(s, k, FieldText(f))
    requires At(s, k + |FieldText(f)|, Render(fs))
    ensures |Render([f] + fs)| == |FieldText(f)| + |Render(fs)|
    ensures At(s, k, Render([f] + fs))
  {
    assert ([f] + fs)[1..] == fs;
    AtConcat(s, k, FieldText(f), Render(fs));
  }

  /** The run cannot be extended: no header line starts where it ends. */
  lemma {:induction false} FieldBlockMaximal(s: string, k: nat)
    requires k <= |s|
    ensures FieldLineAt(s, FieldBlock(s, k).1).None?
    decreases |s| - k
  {
    var r := FieldLineAt(s, k);
    if r.Some? {
      FieldBlockUnfold(s, k, r.value);
      FieldBlockMaximal(s, k + |FieldText(r.value)|);
    }
  }

  /** A run of well-formed header lines that is not followed by another one
      is exactly what the header group captures. */
  lemma {:induction false} FieldBlockComplete(s: string, k: nat, fs: seq<FieldLine>)
    requires forall j :: 0 <= j < |fs| ==> WellFormedField(fs[j])
    requires At(s, k, Render(fs))
    requires FieldLineAt(s, k + |Render(fs)|).None?
    ensures FieldBlock(s, k) == (fs, k + |Render(fs)|)
    decreases |fs|
  {
    if fs != [] {
      var f := fs[0];
      var k' := k + |FieldText(f)|;
      assert Render(fs) == FieldText(f) + Render(fs[1..]);
      AtConcat(s, k, FieldText(f), Render(fs[1..]));
      FieldLineAtComplete(s, k, f);
      FieldBlockComplete(s, k', fs[1..]);
      FieldBlockUnfold(s, k, f);
      assert [f] + fs[1..] == fs;
    }
  }

  // ----- The body: CRLF followed by the longest non-empty run without LF -----

  /** The body group after the header block ending at `e`; "" when the
      optional group does not match.  BodyAtSound states what it holds. */
  function BodyAt(s: string, e: nat): (b: string)
    requires e <= |s|
    ensures b != "" <==> e + 2 < |s| && s[e] == '\r' && s[e + 1] == '\n' && s[e + 2] != '\n'
  {
    if e + 2 < |s| && s[e] == '\r' && s[e + 1] == '\n' && s[e + 2] != '\n' then
      Sub(s, e + 2, SpanEnd(s, e + 2, NotLf))
    else
      ""
  }

  /** A non-empty body is the whole line that follows the CRLF. */
  lemma BodyAtSound(s: string, e: nat)
    requires e <= |s|
    ensures var b := BodyAt(s, e);
      && (forall i :: 0 <= i < |b| ==> b[i] != '\n')
      && (b != "" ==> At(s, e + 2, b) && (e + 2 + |b| == |s| || s[e + 2 + |b|] == '\n'))
  {
    if BodyAt(s, e) != "" {
      SpanEndRun(s, e + 2, NotLf);
      SubIndex(s, e + 2, SpanEnd(s, e + 2, NotLf));
    }
  }

  /** The first line of `t`: everything before its first LF.  UpToLfSound
      states it. */
  function UpToLf(t: string): (r: string)
    ensures |r| <= |t|
  {
    Sub(t, 0, SpanEnd(t, 0, NotLf))
  }

  lemma UpToLfSound(t: string)
    ensures var r := UpToLf(t);
      && (forall i :: 0 <= i < |r| ==> r[i] == t[i] && r[i] != '\n')
      && (|r| == |t| || t[|r|] == '\n')
  {
    SpanEndRun(t, 0, NotLf);
    SubIndex(t, 0, SpanEnd(t, 0, NotLf));
  }
}

/** Bytes and the UTF-8 encoding of Rust's `str`, which the header-value
    `Debug` escape and the percent decoder both work on. */
module Utf8 {

  newtype byte = x: int | 0 <= x < 256

  predicate IsAscii(c: char)
  {
    c as int < 0x80
  }

  /** A continuation byte `10xxxxxx` carrying the six bits `n % 64`. */
  function Cont(n: int): byte
    requires 0 <= n
  {
    (0x80 + n % 64) as byte
  }

  /** The UTF-8 encoding of one Unicode scalar value (RFC 3629, section 3). */
  function EncodeChar(c: char): (r: seq<byte>)
    ensures 1 <= |r| <= 4
    ensures |r| == 1 <==> IsAscii(c)
    ensures IsAscii(c) ==> r == [c as int as byte]
    ensures !IsAscii(c) ==> forall i :: 0 <= i < |r| ==> r[i] >= 0x80
  {
    var n := c as int;
    if n < 0x80 then [n as byte]
    else if n < 0x800 then [(0xC0 + n / 64) as byte, Cont(n)]
    else if n < 0x10000 then [(0xE0 + n / 4096) as byte, Cont(n / 64), Cont(n)]
    else [(0xF0 + n / 262144) as byte, Cont(n / 4096), Cont(n / 64), Cont(n)]
  }

  /** The scalar value a well-formed one- to four-byte sequence encodes. */
  function DecodeChar(b: seq<byte>): int
    requires 1 <= |b| <= 4
  {
    if |b| == 1 then b[0] as int
    else if |b| == 2 then (b[0] as int - 0xC0) * 64 + (b[1] as int - 0x80)
    else if |b| == 3 then (b[0] as int - 0xE0) * 4096 + (b[1] as int - 0x80) * 64 + (b[2] as int - 0x80)
    else (b[0] as int - 0xF0) * 262144 + (b[1] as int - 0x80) * 4096
         + (b[2] as int - 0x80) * 64 + (b[3] as int - 0x80)
  }

  /** Decoding undoes encoding: the bytes carry the character's code point. */
  lemma {:induction false} DecodeEncodeChar(c: char)
    ensures DecodeChar(EncodeChar(c)) == c as int
  {
    var n := c as int;
    if n >= 0x10000 {
      assert n == (n / 262144) * 262144 + ((n / 4096) % 64) * 4096 + ((n / 64) % 64) * 64 + n % 64;
    } else if n >= 0x800 {
      assert n == (n / 4096) * 4096 + ((n / 64) % 64) * 64 + n % 64;
    }
  }

  /** The bytes of a string, as `str::as_bytes` gives them. */
  function Encode(s: string): (r: seq<byte>)
    ensures |r| >= |s|
  {
    if s == [] then [] else EncodeChar(s[0]) + Encode(s[1..])
  }

  /** An ASCII string is its own byte sequence. */
  lemma {:induction false} EncodeAscii(s: string)
    requires forall i :: 0 <= i < |s| ==> IsAscii(s[i])
    ensures |Encode(s)| == |s|
    ensures forall i :: 0 <= i < |s| ==> Encode(s)[i] as int == s[i] as int
  {
    if s != [] {
      EncodeAscii(s[1..]);
    }
  }
}

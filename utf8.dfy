/**
  UTF-8, as `URLSearchParams` uses it: the serializer encodes every name and value
  to UTF-8 before percent-encoding, and the parser decodes the percent-decoded bytes
  as UTF-8 again. Dafny's `char` is a Unicode scalar value, so no surrogate ever
  needs encoding.
 */
module Utf8 {
  import opened Wrappers

  newtype byte = x: int | 0 <= x < 256

  /** A continuation byte, 10xxxxxx. */
  predicate IsContinuation(b: byte) {
    0x80 <= b <= 0xBF
  }

  /** The one to four bytes that encode one scalar value. */
  function EncodeChar(c: char): (r: seq<byte>)
    ensures 1 <= |r| <= 4
    ensures (c as int < 0x80) <==> |r| == 1
    ensures |r| == 1 ==> r[0] as int == c as int
    ensures forall i :: 1 <= i < |r| ==> IsContinuation(r[i])
  {
    var cp := c as int;
    if cp < 0x80 then
      [cp as byte]
    else if cp < 0x800 then
      [(0xC0 + cp / 64) as byte, (0x80 + cp % 64) as byte]
    else if cp < 0x10000 then
      [(0xE0 + cp / 4096) as byte, (0x80 + cp / 64 % 64) as byte, (0x80 + cp % 64) as byte]
    else
      [(0xF0 + cp / 262144) as byte, (0x80 + cp / 4096 % 64) as byte,
       (0x80 + cp / 64 % 64) as byte, (0x80 + cp % 64) as byte]
  }

  function Encode(s: string): seq<byte> {
    if s == [] then [] else EncodeChar(s[0]) + Encode(s[1..])
  }

  /**
    Decodes the scalar value at the front of `bs` and says how many bytes it took,
    or None when the front is not a well-formed UTF-8 sequence (a stray continuation
    byte, a truncated sequence, an overlong form, a surrogate, or a value beyond
    U+10FFFF).
   */
  function DecodeFirst(bs: seq<byte>): (r: Option<(char, nat)>)
    requires bs != []
    ensures r.Some? ==> 1 <= r.value.1 <= |bs|
  {
    var b0 := bs[0] as int;
    if b0 < 0x80 then
      Some((b0 as char, 1))
    else if 0xC2 <= b0 <= 0xDF then
      if |bs| >= 2 && IsContinuation(bs[1]) then
        var cp := (b0 - 0xC0) * 64 + (bs[1] as int - 0x80);
        Some((cp as char, 2))
      else None
    else if 0xE0 <= b0 <= 0xEF then
      if |bs| >= 3 && IsContinuation(bs[1]) && IsContinuation(bs[2]) then
        var cp := (b0 - 0xE0) * 4096 + (bs[1] as int - 0x80) * 64 + (bs[2] as int - 0x80);
        if 0x800 <= cp && !(0xD800 <= cp <= 0xDFFF) then Some((cp as char, 3)) else None
      else None
    else if 0xF0 <= b0 <= 0xF4 then
      if |bs| >= 4 && IsContinuation(bs[1]) && IsContinuation(bs[2]) && IsContinuation(bs[3]) then
        var cp := (b0 - 0xF0) * 262144 + (bs[1] as int - 0x80) * 4096
                  + (bs[2] as int - 0x80) * 64 + (bs[3] as int - 0x80);
        if 0x10000 <= cp <= 0x10FFFF then Some((cp as char, 4)) else None
      else None
    else
      None
  }

  /** UTF-8 decode without BOM or fail. */
  function Decode(bs: seq<byte>): Option<string>
    decreases |bs|
  {
    if bs == [] then Some([])
    else
      match DecodeFirst(bs)
      case None => None
      case Some((c, k)) =>
        match Decode(bs[k..])
        case None => None
        case Some(rest) => Some([c] + rest)
  }

  /** Base-64 digits of a code point, the arithmetic behind the multi-byte forms. */
  lemma Digits64(cp: nat)
    ensures cp == cp / 64 * 64 + cp % 64
    ensures cp / 64 == cp / 4096 * 64 + cp / 64 % 64
    ensures cp / 4096 == cp / 262144 * 64 + cp / 4096 % 64
  {
  }

  lemma DecodeEncodeChar(c: char, rest: seq<byte>)
    ensures DecodeFirst(EncodeChar(c) + rest) == Some((c, |EncodeChar(c)|))
  {
    var cp := c as int;
    Digits64(cp);
  }

  lemma {:induction false} EncodeAppend(a: string, b: string)
    ensures Encode(a + b) == Encode(a) + Encode(b)
  {
    if a != [] {
      assert (a + b)[1..] == a[1..] + b;
      EncodeAppend(a[1..], b);
    } else {
      assert a + b == b;
    }
  }

  /** Decoding inverts encoding: no scalar value is lost or altered. */
  lemma {:induction false} DecodeEncode(s: string)
    ensures Decode(Encode(s)) == Some(s)
  {
    if s != [] {
      var e := EncodeChar(s[0]);
      DecodeEncodeChar(s[0], Encode(s[1..]));
      assert (e + Encode(s[1..]))[|e|..] == Encode(s[1..]);
      DecodeEncode(s[1..]);
      assert [s[0]] + s[1..] == s;
    }
  }

  /** An ASCII string encodes to its own code points, one byte each. */
  lemma {:induction false} EncodeAscii(s: string)
    requires forall i :: 0 <= i < |s| ==> s[i] as int < 0x80
    ensures |Encode(s)| == |s|
    ensures forall i :: 0 <= i < |s| ==> Encode(s)[i] as int == s[i] as int
  {
    if s != [] {
      EncodeAscii(s[1..]);
    }
  }
}

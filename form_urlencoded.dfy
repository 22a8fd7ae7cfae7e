/**
  The application/x-www-form-urlencoded format of the WHATWG URL Standard, which
  `URLSearchParams.prototype.toString` produces: the serializer of section 5.2
  (names and values UTF-8 encoded, then percent-encoded with the
  application/x-www-form-urlencoded percent-encode set, space written as `+`) and
  the parser of section 5.1 that reads such a string back.
 */
module FormUrlEncoded {
  import opened Wrappers
  import Utf8

  type byte = Utf8.byte

  /** A name-value tuple, as `URLSearchParams` keeps them. */
  type Pair = (string, string)

  // The percent-encode sets of section 1.3 of the URL Standard, each built on the one before.

  predicate InC0ControlSet(c: int) {
    (0 <= c <= 0x1F) || c > 0x7E
  }

  predicate InQuerySet(c: int) {
    InC0ControlSet(c) || c == 0x20 || c == 0x22 || c == 0x23 || c == 0x3C || c == 0x3E
  }

  predicate InPathSet(c: int) {
    InQuerySet(c) || c == 0x3F || c == 0x5E || c == 0x60 || c == 0x7B || c == 0x7D
  }

  predicate InUserinfoSet(c: int) {
    InPathSet(c) || c == 0x2F || c == 0x3A || c == 0x3B || c == 0x3D || c == 0x40
    || (0x5B <= c <= 0x5E) || c == 0x7C
  }

  predicate InComponentSet(c: int) {
    InUserinfoSet(c) || (0x24 <= c <= 0x26) || c == 0x2B || c == 0x2C
  }

  predicate InFormSet(c: int) {
    InComponentSet(c) || c == 0x21 || (0x27 <= c <= 0x29) || c == 0x7E
  }

  /** The bytes the serializer copies unchanged: ASCII letters and digits, `*`, `-`, `.` and `_`. */
  predicate Unreserved(b: int) {
    (0x30 <= b <= 0x39) || (0x41 <= b <= 0x5A) || (0x61 <= b <= 0x7A)
    || b == 0x2A || b == 0x2D || b == 0x2E || b == 0x5F
  }

  /** The layered definition of the form percent-encode set leaves exactly the unreserved bytes alone. */
  lemma FormSetComplement(b: byte)
    ensures !InFormSet(b as int) <==> Unreserved(b as int)
  {
  }

  /** An upper-case hexadecimal digit, as percent-encoding writes it. */
  function HexDigit(d: int): (c: char)
    requires 0 <= d < 16
    ensures IsHexDigit(c as int) && HexValue(c as int) == d
    ensures c as int < 0x80 && !('a' <= c <= 'f')
  {
    if d < 10 then (0x30 + d) as char else (0x37 + d) as char
  }

  /** ASCII hex digit, either case, as percent-decoding accepts it. */
  predicate IsHexDigit(b: int) {
    (0x30 <= b <= 0x39) || (0x41 <= b <= 0x46) || (0x61 <= b <= 0x66)
  }

  function HexValue(b: int): (v: int)
    requires IsHexDigit(b)
    ensures 0 <= v < 16
  {
    if b <= 0x39 then b - 0x30 else if b <= 0x46 then b - 0x37 else b - 0x57
  }

  /** One byte of a UTF-8 encoded name or value, as the serializer writes it. */
  function EncodeByte(b: byte): string {
    if b == 0x20 then "+"
    else if InFormSet(b as int) then ['%', HexDigit(b as int / 16), HexDigit(b as int % 16)]
    else [b as int as char]
  }

  function EncodeBytes(bs: seq<byte>): string {
    if bs == [] then "" else EncodeByte(bs[0]) + EncodeBytes(bs[1..])
  }

  /** Percent-encode after encoding, with UTF-8, the form set and space as `+`. */
  function PercentEncode(s: string): string {
    EncodeBytes(Utf8.Encode(s))
  }

  function SerializePair(p: Pair): string {
    PercentEncode(p.0) + "=" + PercentEncode(p.1)
  }

  /** The application/x-www-form-urlencoded serializer: `name=value` pairs joined by `&`. */
  function Serialize(pairs: seq<Pair>): (r: string)
    ensures r == "" <==> pairs == []
  {
    if |pairs| == 0 then ""
    else if |pairs| == 1 then SerializePair(pairs[0])
    else SerializePair(pairs[0]) + "&" + Serialize(pairs[1..])
  }

  // The parser.

  /** Strictly splits `s` on every `sep`; the empty input gives one empty piece. */
  function Split(s: seq<byte>, sep: byte): (r: seq<seq<byte>>)
    ensures |r| >= 1
  {
    if s == [] then [[]]
    else
      var rest := Split(s[1..], sep);
      if s[0] == sep then [[]] + rest else [[s[0]] + rest[0]] + rest[1..]
  }

  /** The position of the first `x` in `s`, or `|s|` when there is none. */
  function IndexOf<T(==)>(s: seq<T>, x: T): (i: nat)
    ensures i <= |s|
    ensures i < |s| ==> s[i] == x
    ensures x !in s[..i]
  {
    if s == [] then 0
    else if s[0] == x then 0
    else 1 + IndexOf(s[1..], x)
  }

  function PlusToSpace(s: seq<byte>): seq<byte> {
    if s == [] then [] else [if s[0] == 0x2B then 0x20 else s[0]] + PlusToSpace(s[1..])
  }

  /** Percent-decoding: `%` and two hex digits become one byte, every other byte stays. */
  function PercentDecode(s: seq<byte>): seq<byte> {
    if s == [] then []
    else if s[0] == 0x25 && |s| >= 3 && IsHexDigit(s[1] as int) && IsHexDigit(s[2] as int) then
      [(HexValue(s[1] as int) * 16 + HexValue(s[2] as int)) as byte] + PercentDecode(s[3..])
    else
      [s[0]] + PercentDecode(s[1..])
  }

  /** Replaces `+` by a space, percent-decodes and UTF-8 decodes one name or value. */
  function DecodeComponent(s: seq<byte>): Option<string> {
    Utf8.Decode(PercentDecode(PlusToSpace(s)))
  }

  /** One non-empty `&`-separated sequence: name before the first `=`, value after it. */
  function ParseSequence(s: seq<byte>): Option<Pair> {
    var i := IndexOf(s, 0x3D);
    var name := DecodeComponent(s[..i]);
    var value := DecodeComponent(if i < |s| then s[i + 1..] else []);
    if name.Some? && value.Some? then Some((name.value, value.value)) else None
  }

  function ParseSequences(seqs: seq<seq<byte>>): Option<seq<Pair>> {
    if seqs == [] then Some([])
    else
      var rest := ParseSequences(seqs[1..]);
      if seqs[0] == [] then rest
      else
        match ParseSequence(seqs[0])
        case None => None
        case Some(p) => if rest.Some? then Some([p] + rest.value) else None
  }

  /** The application/x-www-form-urlencoded parser, on the UTF-8 bytes of the input. */
  function Parse(query: string): Option<seq<Pair>> {
    ParseSequences(Split(Utf8.Encode(query), 0x26))
  }

  // What the serializer's output is made of.

  /** A character that can appear in serialized output. */
  predicate IsEncodedChar(c: char) {
    Unreserved(c as int) || c == '+' || c == '%' || ('A' <= c <= 'F')
  }

  lemma {:induction false} EncodeBytesChars(bs: seq<byte>)
    ensures forall i :: 0 <= i < |EncodeBytes(bs)| ==> IsEncodedChar(EncodeBytes(bs)[i])
  {
    if bs != [] {
      EncodeBytesChars(bs[1..]);
      var e := EncodeByte(bs[0]);
      forall i | 0 <= i < |e| ensures IsEncodedChar(e[i]) {
        if bs[0] != 0x20 && !InFormSet(bs[0] as int) {
          FormSetComplement(bs[0]);
        }
      }
    }
  }

  /** A percent-encoded string holds no `&`, `=`, `?` or `#`, and only ASCII. */
  lemma PercentEncodeChars(s: string)
    ensures forall i :: 0 <= i < |PercentEncode(s)| ==> IsEncodedChar(PercentEncode(s)[i])
  {
    EncodeBytesChars(Utf8.Encode(s));
  }

  lemma PlusToSpaceAppend(a: seq<byte>, b: seq<byte>)
    ensures PlusToSpace(a + b) == PlusToSpace(a) + PlusToSpace(b)
  {
    if a == [] {
      assert a + b == b;
    } else {
      assert (a + b)[1..] == a[1..] + b;
      PlusToSpaceAppend(a[1..], b);
    }
  }

  lemma {:induction false} PlusToSpaceWithoutPlus(s: seq<byte>)
    requires 0x2B !in s
    ensures PlusToSpace(s) == s
  {
    if s != [] {
      PlusToSpaceWithoutPlus(s[1..]);
    }
  }

  /** The bytes of one encoded byte, once `+` is turned back into a space, percent-decode to that byte. */
  lemma DecodeEncodedByte(b: byte, rest: seq<byte>)
    ensures PercentDecode(PlusToSpace(Utf8.Encode(EncodeByte(b))) + rest) == [b] + PercentDecode(rest)
  {
    var e := EncodeByte(b);
    if b == 0x20 {
      assert Utf8.Encode(e) == [0x2B];
    } else if InFormSet(b as int) {
      var h1, h2 := HexDigit(b as int / 16), HexDigit(b as int % 16);
      Utf8.EncodeAscii(e);
      var u := Utf8.Encode(e);
      assert u == [0x25, h1 as int as byte, h2 as int as byte];
      PlusToSpaceWithoutPlus(u);
      var s := u + rest;
      assert s[3..] == rest;
    } else {
      FormSetComplement(b);
      Utf8.EncodeAscii(e);
      assert Utf8.Encode(e) == [b];
    }
  }

  lemma {:induction false} DecodeEncodedBytes(bs: seq<byte>)
    ensures PercentDecode(PlusToSpace(Utf8.Encode(EncodeBytes(bs)))) == bs
  {
    if bs != [] {
      var e, tail := EncodeByte(bs[0]), EncodeBytes(bs[1..]);
      Utf8.EncodeAppend(e, tail);
      PlusToSpaceAppend(Utf8.Encode(e), Utf8.Encode(tail));
      DecodeEncodedByte(bs[0], PlusToSpace(Utf8.Encode(tail)));
      DecodeEncodedBytes(bs[1..]);
    }
  }

  /** Decoding a serialized name or value gives back the original string. */
  lemma DecodePercentEncoded(s: string)
    ensures DecodeComponent(Utf8.Encode(PercentEncode(s))) == Some(s)
  {
    DecodeEncodedBytes(Utf8.Encode(s));
    Utf8.DecodeEncode(s);
  }

  /** The UTF-8 bytes of a percent-encoded string: ASCII, with no `&` and no `=`. */
  lemma EncodedBytesFree(s: string)
    ensures |Utf8.Encode(PercentEncode(s))| == |PercentEncode(s)|
    ensures forall i :: 0 <= i < |Utf8.Encode(PercentEncode(s))| ==>
      Utf8.Encode(PercentEncode(s))[i] as int == PercentEncode(s)[i] as int
    ensures 0x26 !in Utf8.Encode(PercentEncode(s)) && 0x3D !in Utf8.Encode(PercentEncode(s))
  {
    PercentEncodeChars(s);
    Utf8.EncodeAscii(PercentEncode(s));
  }

  lemma {:induction false} SplitWithout(a: seq<byte>, sep: byte)
    requires sep !in a
    ensures Split(a, sep) == [a]
  {
    if a != [] {
      SplitWithout(a[1..], sep);
      assert [a[0]] + a[1..] == a;
    }
  }

  lemma {:induction false} SplitAt(a: seq<byte>, sep: byte, b: seq<byte>)
    requires sep !in a
    ensures Split(a + [sep] + b, sep) == [a] + Split(b, sep)
  {
    if a == [] {
      assert a + [sep] + b == [sep] + b;
      assert ([sep] + b)[1..] == b;
    } else {
      assert (a + [sep] + b)[1..] == a[1..] + [sep] + b;
      SplitAt(a[1..], sep, b);
      assert [a[0]] + a[1..] == a;
    }
  }

  lemma {:induction false} IndexOfAt<T>(a: seq<T>, x: T, b: seq<T>)
    requires x !in a
    ensures IndexOf(a + [x] + b, x) == |a|
  {
    if a != [] {
      assert (a + [x] + b)[1..] == a[1..] + [x] + b;
      IndexOfAt(a[1..], x, b);
    }
  }

  /** One serialized pair parses back to itself. */
  lemma ParseSerializedPair(p: Pair)
    ensures var e := Utf8.Encode(SerializePair(p));
      e != [] && 0x26 !in e && ParseSequence(e) == Some(p)
  {
    var n, v := Utf8.Encode(PercentEncode(p.0)), Utf8.Encode(PercentEncode(p.1));
    Utf8.EncodeAppend(PercentEncode(p.0), "=");
    Utf8.EncodeAppend(PercentEncode(p.0) + "=", PercentEncode(p.1));
    assert Utf8.Encode("=") == [0x3D];
    var e := n + [0x3D] + v;
    assert Utf8.Encode(SerializePair(p)) == e;
    EncodedBytesFree(p.0);
    EncodedBytesFree(p.1);
    IndexOfAt(n, 0x3D, v);
    assert e[..|n|] == n && e[|n| + 1..] == v;
    DecodePercentEncoded(p.0);
    DecodePercentEncoded(p.1);
  }

  /** A single serialized pair parses back to itself. */
  lemma ParseSerializeOne(p: Pair)
    ensures Parse(Serialize([p])) == Some([p])
  {
    ParseSerializedPair(p);
    var e := Utf8.Encode(SerializePair(p));
    SplitWithout(e, 0x26);
    assert [e][1..] == [];
    assert ParseSequence(e) == Some(p);
    assert ParseSequences([]) == Some([]);
    assert [p] + [] == [p];
    assert ParseSequences([e]) == Some([p]);
    assert Serialize([p]) == SerializePair(p);
  }

  /** Parsing what the serializer wrote gives back exactly the pairs, in order. */
  lemma {:induction false} ParseSerialize(pairs: seq<Pair>)
    ensures Parse(Serialize(pairs)) == Some(pairs)
  {
    if |pairs| == 0 {
      assert Utf8.Encode("") == [];
    } else if |pairs| == 1 {
      ParseSerializeOne(pairs[0]);
      assert [pairs[0]] == pairs;
    } else {
      var head, tail := SerializePair(pairs[0]), Serialize(pairs[1..]);
      ParseSerializedPair(pairs[0]);
      Utf8.EncodeAppend(head, "&");
      Utf8.EncodeAppend(head + "&", tail);
      assert Utf8.Encode("&") == [0x26];
      SplitAt(Utf8.Encode(head), 0x26, Utf8.Encode(tail));
      ParseSerialize(pairs[1..]);
      var seqs := Split(Utf8.Encode(Serialize(pairs)), 0x26);
      assert seqs == [Utf8.Encode(head)] + Split(Utf8.Encode(tail), 0x26);
      assert seqs[1..] == Split(Utf8.Encode(tail), 0x26);
      assert [pairs[0]] + pairs[1..] == pairs;
    }
  }

  /** `URLSearchParams.prototype.get`: the value of the first pair with that name. */
  function Get(pairs: seq<Pair>, name: string): (r: Option<string>)
    ensures r.Some? <==> exists i :: 0 <= i < |pairs| && pairs[i].0 == name
    ensures r.Some? ==> exists i ::
      && 0 <= i < |pairs| && pairs[i] == (name, r.value)
      && forall j :: 0 <= j < i ==> pairs[j].0 != name
  {
    if pairs == [] then None
    else if pairs[0].0 == name then Some(pairs[0].1)
    else Get(pairs[1..], name)
  }

  /** Serialized output is made of encoded characters, `=` and `&` only: no `?` and no `#`. */
  lemma {:induction false} SerializeChars(pairs: seq<Pair>)
    ensures forall i :: 0 <= i < |Serialize(pairs)| ==>
      IsEncodedChar(Serialize(pairs)[i]) || Serialize(pairs)[i] in "=&"
  {
    if |pairs| > 0 {
      PercentEncodeChars(pairs[0].0);
      PercentEncodeChars(pairs[0].1);
      if |pairs| > 1 {
        SerializeChars(pairs[1..]);
      }
    }
  }
}

/**
 * Byte-level encodings the WebDAV transport depends on: the UTF-8 bytes of a
 * string, java.net.URLEncoder with the UTF-8 charset, the percent-decoding
 * that inverts it, and commons-codec Base64 (the alphabet of section 4 of
 * RFC 4648, decoded leniently as Base64.decodeBase64 does).
 */
module Encodings {
  import opened Wrappers

  type byte = b: int | 0 <= b < 256

  /** The UTF-8 encoding of one code point. */
  function Utf8Char(c: char): (bs: seq<byte>)
    ensures 1 <= |bs| <= 4
    ensures (|bs| == 1) <==> (c as int < 0x80)
  {
    var cp := c as int;
    if cp < 0x80 then [cp]
    else if cp < 0x800 then [0xC0 + cp / 64, 0x80 + cp % 64]
    else if cp < 0x1_0000 then [0xE0 + cp / 4096, 0x80 + (cp / 64) % 64, 0x80 + cp % 64]
    else [0xF0 + cp / 262144, 0x80 + (cp / 4096) % 64, 0x80 + (cp / 64) % 64, 0x80 + cp % 64]
  }

  /** String.getBytes with the UTF-8 charset. */
  function Utf8(s: string): seq<byte> {
    if s == [] then [] else Utf8Char(s[0]) + Utf8(s[1..])
  }

  lemma {:induction false} Utf8Append(a: string, b: string)
    ensures Utf8(a + b) == Utf8(a) + Utf8(b)
    decreases |a|
  {
    if a != [] {
      assert (a + b)[0] == a[0];
      assert (a + b)[1..] == a[1..] + b;
      Utf8Append(a[1..], b);
    } else {
      assert a + b == b;
    }
  }

  /** Upper-case hexadecimal digit, as URLEncoder writes it. */
  function HexDigit(n: int): char
    requires 0 <= n < 16
  {
    if n < 10 then ('0' as int + n) as char else ('A' as int + n - 10) as char
  }

  predicate IsHexDigit(c: char) {
    ('0' <= c <= '9') || ('A' <= c <= 'F') || ('a' <= c <= 'f')
  }

  function HexValue(c: char): (n: int)
    requires IsHexDigit(c)
    ensures 0 <= n < 16
  {
    if '0' <= c <= '9' then c as int - '0' as int
    else if 'A' <= c <= 'F' then c as int - 'A' as int + 10
    else c as int - 'a' as int + 10
  }

  lemma HexDigitValue(n: int)
    requires 0 <= n < 16
    ensures IsHexDigit(HexDigit(n)) && HexValue(HexDigit(n)) == n
  {
  }

  /** The characters URLEncoder leaves as they are. */
  predicate KeptByUrlEncoder(c: char) {
    ('a' <= c <= 'z') || ('A' <= c <= 'Z') || ('0' <= c <= '9')
    || c == '-' || c == '_' || c == '.' || c == '*'
  }

  /** "%XY" for every byte. */
  function PercentEncodeBytes(bs: seq<byte>): (t: string)
    ensures |t| == 3 * |bs|
    ensures forall i :: 0 <= i < |t| ==> t[i] == '%' || IsHexDigit(t[i])
  {
    if bs == [] then ""
    else ['%', HexDigit(bs[0] / 16), HexDigit(bs[0] % 16)] + PercentEncodeBytes(bs[1..])
  }

  /** URLEncoder.encode applied to one character. */
  function UrlEncodeChar(c: char): string {
    if KeptByUrlEncoder(c) then [c]
    else if c == ' ' then "+"
    else PercentEncodeBytes(Utf8Char(c))
  }

  /** URLEncoder.encode(s, "UTF-8"). */
  function UrlEncode(s: string): string {
    if s == [] then "" else UrlEncodeChar(s[0]) + UrlEncode(s[1..])
  }

  lemma {:induction false} UrlEncodeAppend(a: string, b: string)
    ensures UrlEncode(a + b) == UrlEncode(a) + UrlEncode(b)
    decreases |a|
  {
    if a != [] {
      assert (a + b)[0] == a[0];
      assert (a + b)[1..] == a[1..] + b;
      UrlEncodeAppend(a[1..], b);
    } else {
      assert a + b == b;
    }
  }

  /** URLEncoder writes a plus only for a space: a literal '+' becomes "%2B". */
  lemma UrlEncodePlus()
    ensures UrlEncode("+") == "%2B" && UrlEncode(" ") == "+"
  {
    assert Utf8Char('+') == [0x2B];
  }

  /** Decodes "%XY" escapes and plain ASCII characters to bytes; None for anything else. */
  function PercentDecode(t: string): Option<seq<byte>>
    decreases |t|
  {
    if t == [] then Some([])
    else if t[0] == '%' then
      if |t| >= 3 && IsHexDigit(t[1]) && IsHexDigit(t[2]) then
        PrependBytes([HexValue(t[1]) * 16 + HexValue(t[2])], PercentDecode(t[3..]))
      else None
    else if t[0] as int < 0x80 then PrependBytes([t[0] as int], PercentDecode(t[1..]))
    else None
  }

  function PrependBytes(bs: seq<byte>, rest: Option<seq<byte>>): Option<seq<byte>> {
    match rest
    case None => None
    case Some(r) => Some(bs + r)
  }

  /** One "%XY" escape decodes to its byte, whatever follows it. */
  lemma PercentDecodeEscape(b: byte, rest: string)
    ensures PercentDecode(['%', HexDigit(b / 16), HexDigit(b % 16)] + rest) == PrependBytes([b], PercentDecode(rest))
  {
    var t := ['%', HexDigit(b / 16), HexDigit(b % 16)] + rest;
    HexDigitValue(b / 16);
    HexDigitValue(b % 16);
    assert t[3..] == rest;
  }

  lemma PrependBytesTwice(first: seq<byte>, second: seq<byte>, rest: Option<seq<byte>>)
    ensures PrependBytes(first, PrependBytes(second, rest)) == PrependBytes(first + second, rest)
  {
    if rest.Some? {
      assert first + (second + rest.value) == (first + second) + rest.value;
    }
  }

  /** Percent-decoding an escaped byte string in front of anything yields those bytes first. */
  lemma {:induction false} PercentDecodeEncodedBytes(bs: seq<byte>, rest: string)
    ensures PercentDecode(PercentEncodeBytes(bs) + rest) == PrependBytes(bs, PercentDecode(rest))
    decreases |bs|
  {
    if bs != [] {
      var escape := ['%', HexDigit(bs[0] / 16), HexDigit(bs[0] % 16)];
      var tail := PercentEncodeBytes(bs[1..]) + rest;
      assert PercentEncodeBytes(bs) + rest == escape + tail;
      PercentDecodeEscape(bs[0], tail);
      PercentDecodeEncodedBytes(bs[1..], rest);
      PrependBytesTwice([bs[0]], bs[1..], PercentDecode(rest));
      assert [bs[0]] + bs[1..] == bs;
    } else {
      assert PercentEncodeBytes(bs) + rest == rest;
      if PercentDecode(rest).Some? {
        assert bs + PercentDecode(rest).value == PercentDecode(rest).value;
      }
    }
  }

  /** The Base64 alphabet value of a character, as commons-codec's decode table has it
      (standard and URL-safe letters both accepted); -1 for characters it skips. */
  function Base64Value(c: char): (v: int)
    ensures -1 <= v < 64
  {
    if 'A' <= c <= 'Z' then c as int - 'A' as int
    else if 'a' <= c <= 'z' then c as int - 'a' as int + 26
    else if '0' <= c <= '9' then c as int - '0' as int + 52
    else if c == '+' || c == '-' then 62
    else if c == '/' || c == '_' then 63
    else -1
  }

  /** The character for a value of the alphabet of section 4 of RFC 4648. */
  function Base64Char(v: int): char
    requires 0 <= v < 64
  {
    if v < 26 then ('A' as int + v) as char
    else if v < 52 then ('a' as int + v - 26) as char
    else if v < 62 then ('0' as int + v - 52) as char
    else if v == 62 then '+'
    else '/'
  }

  lemma Base64CharValue(v: int)
    requires 0 <= v < 64
    ensures Base64Value(Base64Char(v)) == v && Base64Char(v) != '='
  {
  }

  /** The 6-bit values the decoder accumulates: alphabet characters up to the first pad. */
  function Sextets(s: string): (q: seq<int>)
    ensures forall i :: 0 <= i < |q| ==> 0 <= q[i] < 64
    decreases |s|
  {
    if s == [] || s[0] == '=' then []
    else if Base64Value(s[0]) >= 0 then [Base64Value(s[0])] + Sextets(s[1..])
    else Sextets(s[1..])
  }

  /** Every four sextets give three bytes; a trailing pair gives one and a trailing triple two;
      a single trailing sextet is dropped. */
  function DecodeSextets(q: seq<int>): seq<byte>
    requires forall i :: 0 <= i < |q| ==> 0 <= q[i] < 64
    decreases |q|
  {
    if |q| >= 4 then
      [q[0] * 4 + q[1] / 16, (q[1] % 16) * 16 + q[2] / 4, (q[2] % 4) * 64 + q[3]] + DecodeSextets(q[4..])
    else if |q| == 3 then [q[0] * 4 + q[1] / 16, (q[1] % 16) * 16 + q[2] / 4]
    else if |q| == 2 then [q[0] * 4 + q[1] / 16]
    else []
  }

  /** Base64.decodeBase64(String). */
  function Base64Decode(s: string): seq<byte> {
    DecodeSextets(Sextets(s))
  }

  /** The sextets of the encoding of section 4 of RFC 4648: four per three bytes,
      then three for a trailing pair of bytes or two for a trailing single byte. */
  function EncodedSextets(b: seq<byte>): (q: seq<int>)
    ensures forall i :: 0 <= i < |q| ==> 0 <= q[i] < 64
    decreases |b|
  {
    if |b| >= 3 then
      [b[0] / 4, (b[0] % 4) * 16 + b[1] / 16, (b[1] % 16) * 4 + b[2] / 64, b[2] % 64] + EncodedSextets(b[3..])
    else if |b| == 2 then [b[0] / 4, (b[0] % 4) * 16 + b[1] / 16, (b[1] % 16) * 4]
    else if |b| == 1 then [b[0] / 4, (b[0] % 4) * 16]
    else []
  }

  /** The alphabet characters for a run of sextets. */
  function Base64Chars(q: seq<int>): string
    requires forall i :: 0 <= i < |q| ==> 0 <= q[i] < 64
  {
    if q == [] then "" else [Base64Char(q[0])] + Base64Chars(q[1..])
  }

  /** Base64 encoding with padding, section 4 of RFC 4648. */
  function Base64Encode(b: seq<byte>): string {
    Base64Chars(EncodedSextets(b)) + (if |b| % 3 == 1 then "==" else if |b| % 3 == 2 then "=" else "")
  }

  lemma {:induction false} SextetsOfChars(q: seq<int>, pad: string)
    requires forall i :: 0 <= i < |q| ==> 0 <= q[i] < 64
    ensures Sextets(Base64Chars(q) + pad) == q + Sextets(pad)
    decreases |q|
  {
    if q != [] {
      var t := Base64Chars(q) + pad;
      Base64CharValue(q[0]);
      assert t[0] == Base64Char(q[0]);
      assert t[1..] == Base64Chars(q[1..]) + pad;
      SextetsOfChars(q[1..], pad);
      assert q == [q[0]] + q[1..];
    } else {
      assert Base64Chars(q) + pad == pad;
    }
  }

  lemma SextetsOfEncoding(b: seq<byte>)
    ensures Sextets(Base64Encode(b)) == EncodedSextets(b)
  {
    var pad := if |b| % 3 == 1 then "==" else if |b| % 3 == 2 then "=" else "";
    SextetsOfChars(EncodedSextets(b), pad);
  }

  /** The four sextets of three bytes give the three bytes back. */
  lemma DecodeGroup(b0: byte, b1: byte, b2: byte)
    ensures var q1, q2 := (b0 % 4) * 16 + b1 / 16, (b1 % 16) * 4 + b2 / 64;
      (b0 / 4) * 4 + q1 / 16 == b0 && (q1 % 16) * 16 + q2 / 4 == b1 && (q2 % 4) * 64 + b2 % 64 == b2
  {
  }

  /** The three sextets of a trailing pair of bytes give the pair back. */
  lemma DecodePair(b0: byte, b1: byte)
    ensures var q1, q2 := (b0 % 4) * 16 + b1 / 16, (b1 % 16) * 4;
      (b0 / 4) * 4 + q1 / 16 == b0 && (q1 % 16) * 16 + q2 / 4 == b1
  {
  }

  /** A trailing pair or single byte, or nothing, survives the round trip through sextets. */
  lemma {:induction false} DecodeEncodedTail(b: seq<byte>)
    requires |b| < 3
    ensures DecodeSextets(EncodedSextets(b)) == b
  {
    if |b| == 2 {
      DecodePair(b[0], b[1]);
      assert b == [b[0], b[1]];
    } else if |b| == 1 {
      assert b == [b[0]];
    }
  }

  /** Three leading bytes become four leading sextets, which decode to the same three bytes. */
  lemma {:induction false} DecodeEncodedGroup(b: seq<byte>)
    requires |b| >= 3
    ensures DecodeSextets(EncodedSextets(b)) == b[..3] + DecodeSextets(EncodedSextets(b[3..]))
  {
    var rest := EncodedSextets(b[3..]);
    var g := [b[0] / 4, (b[0] % 4) * 16 + b[1] / 16, (b[1] % 16) * 4 + b[2] / 64, b[2] % 64];
    assert EncodedSextets(b) == g + rest;
    assert (g + rest)[4..] == rest;
    DecodeGroup(b[0], b[1], b[2]);
    assert b[..3] == [b[0], b[1], b[2]];
  }

  lemma {:induction false} DecodeEncodedSextets(b: seq<byte>)
    ensures DecodeSextets(EncodedSextets(b)) == b
    decreases |b|
  {
    if |b| >= 3 {
      DecodeEncodedGroup(b);
      DecodeEncodedSextets(b[3..]);
      assert b == b[..3] + b[3..];
    } else {
      DecodeEncodedTail(b);
    }
  }

  /** Base64 round trip: decoding what the encoder of RFC 4648 produced gives the bytes back. */
  lemma Base64RoundTrip(b: seq<byte>)
    ensures Base64Decode(Base64Encode(b)) == b
  {
    SextetsOfEncoding(b);
    DecodeEncodedSextets(b);
  }
}

/** Bytes and the two byte-to-text encodings the core uses: Node's
    `Buffer.toString('hex')` (lower-case hexadecimal, high nibble first) and
    `Buffer.toString('base64')` (the base 64 alphabet with `=` padding of
    section 4 of RFC 4648), plus the byte view of an all-ASCII string that
    `Buffer.from(s)` produces with its default UTF-8 encoding. */
module Encoding {

  import opened Wrappers
  import opened Text

  newtype byte = x: int | 0 <= x < 256

  // ---------------------------------------------------------------------
  // Hexadecimal

  predicate IsLowerHex(c: char) { IsDigit(c) || 'a' <= c <= 'f' }

  function HexDigit(d: int): (c: char)
    requires 0 <= d < 16
    ensures IsLowerHex(c) && HexValue(c) == d
  {
    if d < 10 then (('0' as int) + d) as char else (('a' as int) + d - 10) as char
  }

  function HexValue(c: char): (d: int)
    requires IsLowerHex(c)
    ensures 0 <= d < 16
  {
    if IsDigit(c) then (c as int) - ('0' as int) else (c as int) - ('a' as int) + 10
  }

  /** `Buffer.toString('hex')`: two lower-case digits per byte. */
  function Hex(bytes: seq<byte>): (s: string)
    ensures |s| == 2 * |bytes|
    ensures forall i :: 0 <= i < |s| ==> IsLowerHex(s[i])
    decreases |bytes|
  {
    if |bytes| == 0 then ""
    else [HexDigit(bytes[0] as int / 16), HexDigit(bytes[0] as int % 16)] + Hex(bytes[1..])
  }

  /** The inverse of `Hex`: `None` on odd length or a character outside `[0-9a-f]`. */
  function HexDecode(s: string): (r: Option<seq<byte>>)
    ensures r.Some? ==> 2 * |r.value| == |s|
    decreases |s|
  {
    if |s| == 0 then Some([])
    else if |s| == 1 || !IsLowerHex(s[0]) || !IsLowerHex(s[1]) then None
    else
      match HexDecode(s[2..])
      case None => None
      case Some(rest) => Some([(HexValue(s[0]) * 16 + HexValue(s[1])) as byte] + rest)
  }

  lemma {:induction false} HexRoundTrip(bytes: seq<byte>)
    ensures HexDecode(Hex(bytes)) == Some(bytes)
    decreases |bytes|
  {
    if |bytes| > 0 {
      var s := Hex(bytes);
      assert s[2..] == Hex(bytes[1..]);
      HexRoundTrip(bytes[1..]);
      assert [bytes[0]] + bytes[1..] == bytes;
    }
  }

  lemma HexInjective(a: seq<byte>, b: seq<byte>)
    requires Hex(a) == Hex(b)
    ensures a == b
  {
    HexRoundTrip(a);
    HexRoundTrip(b);
  }

  /** Hexadecimal text never holds the `$` that separates credential fields. */
  lemma HexHasNoDollar(bytes: seq<byte>)
    ensures '$' !in Hex(bytes)
  {
  }

  // ---------------------------------------------------------------------
  // Base 64 (RFC 4648, section 4)

  predicate IsBase64Char(c: char)
  {
    IsUpper(c) || ('a' <= c <= 'z') || IsDigit(c) || c == '+' || c == '/'
  }

  /** Table 1 of RFC 4648: the character that encodes a 6-bit value. */
  function Sextet(v: int): (c: char)
    requires 0 <= v < 64
    ensures IsBase64Char(c) && SextetValue(c) == v
  {
    if v < 26 then (('A' as int) + v) as char
    else if v < 52 then (('a' as int) + v - 26) as char
    else if v < 62 then (('0' as int) + v - 52) as char
    else if v == 62 then '+'
    else '/'
  }

  function SextetValue(c: char): (v: int)
    requires IsBase64Char(c)
    ensures 0 <= v < 64
  {
    if IsUpper(c) then (c as int) - ('A' as int)
    else if 'a' <= c <= 'z' then (c as int) - ('a' as int) + 26
    else if IsDigit(c) then (c as int) - ('0' as int) + 52
    else if c == '+' then 62
    else 63
  }

  /** Three bytes (24 bits, most significant first) as four characters. */
  function EncodeGroup(a: byte, b: byte, c: byte): string
  {
    [Sextet(a as int / 4), Sextet(a as int % 4 * 16 + b as int / 16),
     Sextet(b as int % 16 * 4 + c as int / 64), Sextet(c as int % 64)]
  }

  /** `Buffer.toString('base64')`: full groups, then a one- or two-byte tail
      padded with `=` to four characters. */
  function Base64Encode(data: seq<byte>): (s: string)
    ensures |s| == 4 * ((|data| + 2) / 3)
    ensures |data| % 3 == 0 ==> forall i :: 0 <= i < |s| ==> IsBase64Char(s[i])
    decreases |data|
  {
    if |data| == 0 then ""
    else if |data| == 1 then
      [Sextet(data[0] as int / 4), Sextet(data[0] as int % 4 * 16), '=', '=']
    else if |data| == 2 then
      [Sextet(data[0] as int / 4), Sextet(data[0] as int % 4 * 16 + data[1] as int / 16),
       Sextet(data[1] as int % 16 * 4), '=']
    else EncodeGroup(data[0], data[1], data[2]) + Base64Encode(data[3..])
  }

  /** The three bytes a group of four base 64 characters stands for. */
  function DecodeGroup(g: string): (r: Option<seq<byte>>)
    requires |g| == 4
  {
    if IsBase64Char(g[0]) && IsBase64Char(g[1]) && IsBase64Char(g[2]) && IsBase64Char(g[3]) then
      var v0, v1, v2, v3 := SextetValue(g[0]), SextetValue(g[1]), SextetValue(g[2]), SextetValue(g[3]);
      Some([(v0 * 4 + v1 / 16) as byte, (v1 % 16 * 16 + v2 / 4) as byte, (v2 % 4 * 64 + v3) as byte])
    else None
  }

  /** Decoding of padded base 64 text; `None` on a length that is not a
      multiple of four or a character outside the alphabet. */
  function Base64Decode(s: string): (r: Option<seq<byte>>)
    decreases |s|
  {
    if |s| == 0 then Some([])
    else if |s| < 4 then None
    else if |s| == 4 && s[2] == '=' && s[3] == '=' then
      if IsBase64Char(s[0]) && IsBase64Char(s[1]) && SextetValue(s[1]) % 16 == 0 then
        Some([(SextetValue(s[0]) * 4 + SextetValue(s[1]) / 16) as byte])
      else None
    else if |s| == 4 && s[3] == '=' then
      if IsBase64Char(s[0]) && IsBase64Char(s[1]) && IsBase64Char(s[2]) && SextetValue(s[2]) % 4 == 0 then
        var v0, v1, v2 := SextetValue(s[0]), SextetValue(s[1]), SextetValue(s[2]);
        Some([(v0 * 4 + v1 / 16) as byte, (v1 % 16 * 16 + v2 / 4) as byte])
      else None
    else
      match (DecodeGroup(s[..4]), Base64Decode(s[4..]))
      case (Some(g), Some(rest)) => Some(g + rest)
      case _ => None
  }

  lemma GroupRoundTrip(a: byte, b: byte, c: byte)
    ensures DecodeGroup(EncodeGroup(a, b, c)) == Some([a, b, c])
  {
    var x, y, z := a as int, b as int, c as int;
    assert x / 4 * 4 + (x % 4 * 16 + y / 16) / 16 == x;
    assert (x % 4 * 16 + y / 16) % 16 * 16 + (y % 16 * 4 + z / 64) / 4 == y;
    assert (y % 16 * 4 + z / 64) % 4 * 64 + z % 64 == z;
  }

  lemma OneByteRoundTrip(data: seq<byte>)
    requires |data| == 1
    ensures Base64Decode(Base64Encode(data)) == Some(data)
  {
    var x := data[0] as int;
    var s := Base64Encode(data);
    var v0, v1 := SextetValue(s[0]), SextetValue(s[1]);
    assert v0 == x / 4 && v1 == x % 4 * 16;
    assert v0 * 4 + v1 / 16 == x;
    assert [x as byte] == data;
  }

  lemma TwoByteRoundTrip(data: seq<byte>)
    requires |data| == 2
    ensures Base64Decode(Base64Encode(data)) == Some(data)
  {
    var x, y := data[0] as int, data[1] as int;
    var s := Base64Encode(data);
    assert s[2] == Sextet(y % 16 * 4) && IsBase64Char(s[2]);
    var v0, v1, v2 := SextetValue(s[0]), SextetValue(s[1]), SextetValue(s[2]);
    assert v0 == x / 4 && v1 == x % 4 * 16 + y / 16 && v2 == y % 16 * 4;
    TwoByteArithmetic(x, y);
    assert [x as byte, y as byte] == data;
  }

  lemma TwoByteArithmetic(x: int, y: int)
    requires 0 <= x < 256 && 0 <= y < 256
    ensures (y % 16 * 4) % 4 == 0
    ensures x / 4 * 4 + (x % 4 * 16 + y / 16) / 16 == x
    ensures (x % 4 * 16 + y / 16) % 16 * 16 + (y % 16 * 4) / 4 == y
  {
  }

  /** Text of four or more characters whose fourth is not padding is decoded
      group by group. */
  lemma DecodeFullGroup(s: string)
    requires |s| >= 4 && s[3] != '='
    ensures Base64Decode(s) ==
      match (DecodeGroup(s[..4]), Base64Decode(s[4..]))
      case (Some(g), Some(rest)) => Some(g + rest)
      case _ => None
  {
  }

  lemma {:induction false} Base64RoundTrip(data: seq<byte>)
    ensures Base64Decode(Base64Encode(data)) == Some(data)
    decreases |data|
  {
    if |data| == 1 {
      OneByteRoundTrip(data);
    } else if |data| == 2 {
      TwoByteRoundTrip(data);
    } else if |data| >= 3 {
      var s := Base64Encode(data);
      var g := EncodeGroup(data[0], data[1], data[2]);
      assert s == g + Base64Encode(data[3..]);
      assert s[..4] == g && s[4..] == Base64Encode(data[3..]);
      GroupRoundTrip(data[0], data[1], data[2]);
      Base64RoundTrip(data[3..]);
      DecodeFullGroup(s);
      assert [data[0], data[1], data[2]] + data[3..] == data;
    }
  }

  /** Encoding is a homomorphism on whole groups: a prefix whose length is a
      multiple of three is encoded on its own. */
  lemma {:induction false} Base64Concat(a: seq<byte>, b: seq<byte>)
    requires |a| % 3 == 0
    ensures Base64Encode(a + b) == Base64Encode(a) + Base64Encode(b)
    decreases |a|
  {
    if |a| > 0 {
      assert |a| >= 3;
      assert (a + b)[0] == a[0] && (a + b)[1] == a[1] && (a + b)[2] == a[2];
      assert (a + b)[3..] == a[3..] + b;
      Base64Concat(a[3..], b);
      var g := EncodeGroup(a[0], a[1], a[2]);
      assert Base64Encode(a) == g + Base64Encode(a[3..]);
      assert Base64Encode(a + b) == g + Base64Encode(a[3..] + b);
    } else {
      assert a + b == b;
    }
  }

  /** The first 16 characters of an encoding of 12 or more bytes are the
      encoding of the first 12 bytes alone, with no padding. */
  lemma Base64Head(data: seq<byte>)
    requires |data| >= 12
    ensures |Base64Encode(data)| >= 16
    ensures Base64Encode(data)[..16] == Base64Encode(data[..12])
    ensures forall i :: 0 <= i < 16 ==> IsBase64Char(Base64Encode(data)[i])
  {
    var head, tail := data[..12], data[12..];
    Base64Concat(head, tail);
    assert head + tail == data;
    var e := Base64Encode(head);
    assert |e| == 16;
    assert Base64Encode(data) == e + Base64Encode(tail);
    assert forall i :: 0 <= i < 16 ==> Base64Encode(data)[i] == e[i];
  }

  // ---------------------------------------------------------------------
  // ASCII text as bytes

  predicate IsAscii(s: string) { forall i :: 0 <= i < |s| ==> s[i] as int < 128 }

  /** `Buffer.from(s)`: UTF-8 encodes an ASCII character as its code. */
  function AsciiBytes(s: string): (b: seq<byte>)
    requires IsAscii(s)
    ensures |b| == |s|
    ensures forall i :: 0 <= i < |s| ==> b[i] as int == s[i] as int
  {
    seq(|s|, i requires 0 <= i < |s| => s[i] as int as byte)
  }
}

/** The text <-> bytes conversions the client applies to keys, values,
    cursors and numbers: UTF-8 for strings and decimal ASCII for longs.
    Only two facts about them matter to the client: encoding is
    injective, and decoding undoes it. */
module Encodings {
  import opened Common
  import Text

  const REPLACEMENT: char := 0xFFFD as char

  predicate IsContinuation(b: byte) {
    0x80 <= b < 0xC0
  }

  /** The UTF-8 bytes of one Unicode scalar value. */
  function EncodeChar(c: char): (r: Bytes)
    ensures 1 <= |r| <= 4
  {
    var n := c as int;
    if n < 0x80 then
      [n as byte]
    else if n < 0x800 then
      [(0xC0 + n / 64) as byte, (0x80 + n % 64) as byte]
    else if n < 0x1_0000 then
      [(0xE0 + n / 4096) as byte, (0x80 + (n / 64) % 64) as byte, (0x80 + n % 64) as byte]
    else
      [(0xF0 + n / 262144) as byte, (0x80 + (n / 4096) % 64) as byte,
       (0x80 + (n / 64) % 64) as byte, (0x80 + n % 64) as byte]
  }

  function Encode(s: string): (r: Bytes)
    ensures |s| <= |r| <= 4 * |s|
  {
    if s == [] then [] else EncodeChar(s[0]) + Encode(s[1..])
  }

  predicate IsScalar(v: int) {
    (0 <= v < 0xD800) || (0xE000 <= v < 0x11_0000)
  }

  /** The first character of a non-empty byte string and how many bytes it
      took. A byte that does not start a well-formed sequence decodes to
      U+FFFD and takes one byte. */
  function DecodeFirst(b: Bytes): (r: (char, nat))
    requires |b| > 0
    ensures 1 <= r.1 <= |b|
  {
    var b0 := b[0] as int;
    if b0 < 0x80 then
      (b0 as char, 1)
    else if 0xC2 <= b0 < 0xE0 && |b| >= 2 && IsContinuation(b[1]) then
      ((((b0 - 0xC0) * 64) + (b[1] as int - 0x80)) as char, 2)
    else if 0xE0 <= b0 < 0xF0 && |b| >= 3 && IsContinuation(b[1]) && IsContinuation(b[2])
      && var v := (b0 - 0xE0) * 4096 + (b[1] as int - 0x80) * 64 + (b[2] as int - 0x80);
         0x800 <= v && IsScalar(v) then
      var v := (b0 - 0xE0) * 4096 + (b[1] as int - 0x80) * 64 + (b[2] as int - 0x80);
      (v as char, 3)
    else if 0xF0 <= b0 < 0xF5 && |b| >= 4 && IsContinuation(b[1]) && IsContinuation(b[2]) && IsContinuation(b[3])
      && var v := (b0 - 0xF0) * 262144 + (b[1] as int - 0x80) * 4096 + (b[2] as int - 0x80) * 64 + (b[3] as int - 0x80);
         0x1_0000 <= v && IsScalar(v) then
      var v := (b0 - 0xF0) * 262144 + (b[1] as int - 0x80) * 4096 + (b[2] as int - 0x80) * 64 + (b[3] as int - 0x80);
      (v as char, 4)
    else
      (REPLACEMENT, 1)
  }

  function Decode(b: Bytes): (s: string)
    ensures |s| <= |b|
    decreases |b|
  {
    if b == [] then "" else [DecodeFirst(b).0] + Decode(b[DecodeFirst(b).1..])
  }

  lemma DivModDigits(n: int, d: int)
    requires 0 <= n && 0 < d
    ensures n == (n / d) * d + n % d && 0 <= n % d < d
  {
  }

  lemma DecodeFirstTwo(c: char, tail: Bytes)
    requires 0x80 <= c as int < 0x800
    ensures DecodeFirst(EncodeChar(c) + tail) == (c, 2)
  {
    var n := c as int;
    DivModDigits(n, 64);
    assert 2 <= n / 64 < 32;
  }

  lemma DecodeFirstThree(c: char, tail: Bytes)
    requires 0x800 <= c as int < 0x1_0000
    ensures DecodeFirst(EncodeChar(c) + tail) == (c, 3)
  {
    var n := c as int;
    DivModDigits(n, 64);
    DivModDigits(n / 64, 64);
    assert n / 64 / 64 == n / 4096;
    var b := EncodeChar(c) + tail;
    var v := (b[0] as int - 0xE0) * 4096 + (b[1] as int - 0x80) * 64 + (b[2] as int - 0x80);
    assert v == n;
  }

  lemma DecodeFirstFour(c: char, tail: Bytes)
    requires 0x1_0000 <= c as int
    ensures DecodeFirst(EncodeChar(c) + tail) == (c, 4)
  {
    var n := c as int;
    DivModDigits(n, 64);
    DivModDigits(n / 64, 64);
    DivModDigits(n / 4096, 64);
    assert n / 64 / 64 == n / 4096;
    assert n / 4096 / 64 == n / 262144;
    var b := EncodeChar(c) + tail;
    var v := (b[0] as int - 0xF0) * 262144 + (b[1] as int - 0x80) * 4096 + (b[2] as int - 0x80) * 64 + (b[3] as int - 0x80);
    assert v == n;
  }

  /** The decoder reads back exactly the character the encoder wrote, and
      only its bytes, whatever follows. */
  lemma DecodeFirstEncodeChar(c: char, tail: Bytes)
    ensures DecodeFirst(EncodeChar(c) + tail) == (c, |EncodeChar(c)|)
  {
    var n := c as int;
    if n < 0x80 {
    } else if n < 0x800 {
      DecodeFirstTwo(c, tail);
    } else if n < 0x1_0000 {
      DecodeFirstThree(c, tail);
    } else {
      DecodeFirstFour(c, tail);
    }
  }

  /** Round trip: decoding the UTF-8 encoding of a string gives the string. */
  lemma {:induction false} DecodeEncode(s: string)
    ensures Decode(Encode(s)) == s
    decreases |s|
  {
    if s != [] {
      var b := Encode(s);
      assert b == EncodeChar(s[0]) + Encode(s[1..]);
      DecodeFirstEncodeChar(s[0], Encode(s[1..]));
      assert b[|EncodeChar(s[0])|..] == Encode(s[1..]);
      DecodeEncode(s[1..]);
      assert s == [s[0]] + s[1..];
    }
  }

  /** RedisEncodings.encode(long): the decimal text in ASCII. */
  function EncodeLong(n: int): (r: Bytes)
    ensures |r| >= 1
  {
    Encode(Text.DecimalString(n))
  }

  /** Reading the bytes of a number back gives the number. */
  lemma DecodeEncodeLong(n: int)
    ensures Text.ParseDecimal(Decode(EncodeLong(n))) == Some(n)
  {
    DecodeEncode(Text.DecimalString(n));
    Text.ParseDecimalString(n);
  }
}

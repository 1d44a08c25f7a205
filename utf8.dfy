/**
 * UTF-8, the encoding `str.encode('utf-8')` and `bytes.decode('utf-8')` apply to the
 * message text before and after base64url. The decoder is strict: it refuses bad lead
 * bytes, missing continuation bytes, overlong forms, surrogates and code points past
 * U+10FFFF, so that encoding and decoding are inverse to each other in both directions.
 */
module Utf8 {
  import opened Wrappers

  /** Whether `n` is a Unicode scalar value, that is, the code of some `char`. */
  predicate IsScalar(n: int) {
    0 <= n < 0xD800 || 0xE000 <= n < 0x11_0000
  }

  /** The one to four bytes that encode one character. */
  function EncodeChar(c: char): (r: seq<byte>)
    ensures 1 <= |r| <= 4
  {
    var n := c as int;
    if n < 0x80 then
      [n as byte]
    else if n < 0x800 then
      [(0xC0 + n / 64) as byte, (0x80 + n % 64) as byte]
    else if n < 0x1_0000 then
      [(0xE0 + n / 4096) as byte, (0x80 + (n / 64) % 64) as byte, (0x80 + n % 64) as byte]
    else
      [(0xF0 + n / 262144) as byte, (0x80 + (n / 4096) % 64) as byte,
       (0x80 + (n / 64) % 64) as byte, (0x80 + n % 64) as byte]
  }

  /** `s.encode('utf-8')`. */
  function Encode(s: string): (r: seq<byte>)
    ensures |s| <= |r| <= 4 * |s|
  {
    if s == [] then [] else EncodeChar(s[0]) + Encode(s[1..])
  }

  /** A continuation byte `10xxxxxx`. */
  predicate IsCont(b: byte) {
    0x80 <= b < 0xC0
  }

  /** Decodes the character at the head of `b`: the character and the number of bytes it used. */
  function DecodeHead(b: seq<byte>): (r: Option<(char, nat)>)
    requires |b| > 0
    ensures r.Some? ==> 1 <= r.value.1 <= |b| && r.value.1 <= 4
  {
    var b0 := b[0] as int;
    if b0 < 0x80 then
      Some((b0 as char, 1))
    else if 0xC2 <= b0 < 0xE0 then
      if |b| >= 2 && IsCont(b[1]) then
        var n := (b0 - 0xC0) * 64 + (b[1] as int - 0x80);
        Some((n as char, 2))
      else None
    else if 0xE0 <= b0 < 0xF0 then
      if |b| >= 3 && IsCont(b[1]) && IsCont(b[2]) then
        var n := (b0 - 0xE0) * 4096 + (b[1] as int - 0x80) * 64 + (b[2] as int - 0x80);
        if 0x800 <= n && IsScalar(n) then Some((n as char, 3)) else None
      else None
    else if 0xF0 <= b0 < 0xF5 then
      if |b| >= 4 && IsCont(b[1]) && IsCont(b[2]) && IsCont(b[3]) then
        var n := (b0 - 0xF0) * 262144 + (b[1] as int - 0x80) * 4096
                 + (b[2] as int - 0x80) * 64 + (b[3] as int - 0x80);
        if 0x1_0000 <= n < 0x11_0000 then Some((n as char, 4)) else None
      else None
    else
      None
  }

  /** `b.decode('utf-8')`, or None where Python would raise `UnicodeDecodeError`. */
  function Decode(b: seq<byte>): (r: Option<string>)
    decreases |b|
  {
    if b == [] then Some([])
    else
      match DecodeHead(b)
      case None => None
      case Some((c, k)) =>
        match Decode(b[k..])
        case None => None
        case Some(rest) => Some([c] + rest)
  }

  /** Two-byte case of DecodeHeadOfEncodeChar. */
  lemma DecodeHead2(c: char, rest: seq<byte>)
    requires 0x80 <= c as int < 0x800
    ensures DecodeHead(EncodeChar(c) + rest) == Some((c, 2))
  {
    var n := c as int;
    var q, r := n / 64, n % 64;
    assert n == q * 64 + r;
    var b := EncodeChar(c) + rest;
    assert b[0] as int == 0xC0 + q && b[1] as int == 0x80 + r;
  }

  /** Three-byte case of DecodeHeadOfEncodeChar. */
  lemma DecodeHead3(c: char, rest: seq<byte>)
    requires 0x800 <= c as int < 0x1_0000
    ensures DecodeHead(EncodeChar(c) + rest) == Some((c, 3))
  {
    var n := c as int;
    var q, r := n / 64, n % 64;
    var q2, r2 := q / 64, q % 64;
    assert n == q * 64 + r && q == q2 * 64 + r2;
    assert n / 4096 == q2;
    var b := EncodeChar(c) + rest;
    assert b[0] as int == 0xE0 + q2 && b[1] as int == 0x80 + r2 && b[2] as int == 0x80 + r;
  }

  /** Four-byte case of DecodeHeadOfEncodeChar. */
  lemma DecodeHead4(c: char, rest: seq<byte>)
    requires 0x1_0000 <= c as int
    ensures DecodeHead(EncodeChar(c) + rest) == Some((c, 4))
  {
    var n := c as int;
    var q, r := n / 64, n % 64;
    var q2, r2 := q / 64, q % 64;
    var q3, r3 := q2 / 64, q2 % 64;
    assert n == q * 64 + r && q == q2 * 64 + r2 && q2 == q3 * 64 + r3;
    assert n / 4096 == q2 && n / 262144 == q3;
    var b := EncodeChar(c) + rest;
    assert b[0] as int == 0xF0 + q3 && b[1] as int == 0x80 + r3;
    assert b[2] as int == 0x80 + r2 && b[3] as int == 0x80 + r;
  }

  /** The head of an encoded character decodes to that character, whatever follows it. */
  lemma DecodeHeadOfEncodeChar(c: char, rest: seq<byte>)
    ensures DecodeHead(EncodeChar(c) + rest) == Some((c, |EncodeChar(c)|))
  {
    var n := c as int;
    if n < 0x80 {
    } else if n < 0x800 {
      DecodeHead2(c, rest);
    } else if n < 0x1_0000 {
      DecodeHead3(c, rest);
    } else {
      DecodeHead4(c, rest);
    }
  }

  /** Arithmetic behind EncodeCharOfDecodeHead: a code point split into 6-bit groups. */
  lemma SixBitGroups(n: int, a: int, x: int, y: int, z: int)
    requires 0 <= x < 64 && 0 <= y < 64 && 0 <= z < 64 && 0 <= a
    requires n == a * 262144 + x * 4096 + y * 64 + z
    ensures n / 262144 == a && (n / 4096) % 64 == x && (n / 64) % 64 == y && n % 64 == z
    ensures n / 4096 == a * 64 + x && n / 64 == (a * 64 + x) * 64 + y
  {
    var m := a * 64 + x;
    var p := m * 64 + y;
    assert n == p * 64 + z;
    assert n / 64 == p;
    assert p / 64 == m && p % 64 == y;
    assert n / 4096 == m;
    assert m / 64 == a && m % 64 == x;
  }

  /** What the head decoder accepts is exactly the encoding of the character it returns. */
  lemma EncodeCharOfDecodeHead(b: seq<byte>)
    requires |b| > 0 && DecodeHead(b).Some?
    ensures EncodeChar(DecodeHead(b).value.0) == b[..DecodeHead(b).value.1]
  {
    var b0 := b[0] as int;
    var (c, k) := DecodeHead(b).value;
    var n := c as int;
    if b0 < 0x80 {
    } else if b0 < 0xE0 {
      SixBitGroups(n, 0, 0, b0 - 0xC0, b[1] as int - 0x80);
    } else if b0 < 0xF0 {
      SixBitGroups(n, 0, b0 - 0xE0, b[1] as int - 0x80, b[2] as int - 0x80);
    } else {
      SixBitGroups(n, b0 - 0xF0, b[1] as int - 0x80, b[2] as int - 0x80, b[3] as int - 0x80);
    }
  }

  /** Decoding undoes encoding: `s.encode('utf-8').decode('utf-8') == s`. */
  lemma {:induction false} DecodeEncode(s: string)
    ensures Decode(Encode(s)) == Some(s)
  {
    if s != [] {
      var e, t := EncodeChar(s[0]), Encode(s[1..]);
      var b := e + t;
      assert Encode(s) == b && b != [];
      DecodeHeadOfEncodeChar(s[0], t);
      assert b[|e|..] == t;
      DecodeEncode(s[1..]);
      assert Decode(b) == Some([s[0]] + s[1..]);
      assert [s[0]] + s[1..] == s;
    }
  }

  /** Encoding undoes decoding: a byte string that decodes is the encoding of its text. */
  lemma {:induction false} EncodeDecode(b: seq<byte>)
    requires Decode(b).Some?
    ensures Encode(Decode(b).value) == b
    decreases |b|
  {
    if b != [] {
      var h := DecodeHead(b).value;
      var k := h.1;
      EncodeCharOfDecodeHead(b);
      EncodeDecode(b[k..]);
      assert Decode(b).value == [h.0] + Decode(b[k..]).value;
      assert b == b[..k] + b[k..];
    }
  }
}

/**
 * The URL-safe base64 alphabet of `base64.urlsafe_b64encode` (RFC 4648, section 5):
 * `A`-`Z`, `a`-`z`, `0`-`9`, `-`, `_`, with `=` padding to a multiple of four characters.
 * The decoder accepts only padded input over this alphabet, with `=` only in the last group,
 * and ignores the unused low bits of a final partial group (so `QR==` decodes like `QQ==`).
 */
module Base64Url {
  import opened Wrappers

  /** The alphabet character for a 6-bit value. */
  function CharOf(i: int): (c: char)
    requires 0 <= i < 64
  {
    if i < 26 then ('A' as int + i) as char
    else if i < 52 then ('a' as int + (i - 26)) as char
    else if i < 62 then ('0' as int + (i - 52)) as char
    else if i == 62 then '-'
    else '_'
  }

  /** The 6-bit value of an alphabet character; None for any other character, `=` included. */
  function IndexOf(c: char): (r: Option<int>)
    ensures r.Some? ==> 0 <= r.value < 64 && CharOf(r.value) == c
  {
    if 'A' <= c <= 'Z' then Some(c as int - 'A' as int)
    else if 'a' <= c <= 'z' then Some(c as int - 'a' as int + 26)
    else if '0' <= c <= '9' then Some(c as int - '0' as int + 52)
    else if c == '-' then Some(62)
    else if c == '_' then Some(63)
    else None
  }

  /** Every 6-bit value is recovered from its character. */
  lemma IndexOfCharOf(i: int)
    requires 0 <= i < 64
    ensures IndexOf(CharOf(i)) == Some(i) && CharOf(i) != '='
  {
  }

  /** Three octets (missing ones given as 0) cut into four 6-bit values, high bits first. */
  function Sextets(b0: int, b1: int, b2: int): (r: (int, int, int, int))
    requires 0 <= b0 < 256 && 0 <= b1 < 256 && 0 <= b2 < 256
    ensures 0 <= r.0 < 64 && 0 <= r.1 < 64 && 0 <= r.2 < 64 && 0 <= r.3 < 64
  {
    (b0 / 4, (b0 % 4) * 16 + b1 / 16, (b1 % 16) * 4 + b2 / 64, b2 % 64)
  }

  /** Four 6-bit values glued back into three octets. */
  function Octets(c0: int, c1: int, c2: int, c3: int): (r: (byte, byte, byte))
    requires 0 <= c0 < 64 && 0 <= c1 < 64 && 0 <= c2 < 64 && 0 <= c3 < 64
  {
    ((c0 * 4 + c1 / 16) as byte, ((c1 % 16) * 16 + c2 / 4) as byte, ((c2 % 4) * 64 + c3) as byte)
  }

  /** Gluing undoes cutting. */
  lemma OctetsOfSextets(b0: int, b1: int, b2: int)
    requires 0 <= b0 < 256 && 0 <= b1 < 256 && 0 <= b2 < 256
    ensures var c := Sextets(b0, b1, b2);
            Octets(c.0, c.1, c.2, c.3) == (b0 as byte, b1 as byte, b2 as byte)
  {
    var c1 := (b0 % 4) * 16 + b1 / 16;
    var c2 := (b1 % 16) * 4 + b2 / 64;
    assert c1 / 16 == b0 % 4 && c1 % 16 == b1 / 16;
    assert c2 / 4 == b1 % 16 && c2 % 4 == b2 / 64;
  }

  /** `base64.urlsafe_b64encode(b).decode('utf-8')`. */
  function Encode(b: seq<byte>): (r: string)
    ensures |r| % 4 == 0 && (|r| == 0 <==> |b| == 0)
    decreases |b|
  {
    if |b| == 0 then []
    else
      var c := Sextets(b[0] as int, if |b| > 1 then b[1] as int else 0,
                       if |b| > 2 then b[2] as int else 0);
      if |b| == 1 then [CharOf(c.0), CharOf(c.1), '=', '=']
      else if |b| == 2 then [CharOf(c.0), CharOf(c.1), CharOf(c.2), '=']
      else [CharOf(c.0), CharOf(c.1), CharOf(c.2), CharOf(c.3)] + Encode(b[3..])
  }

  /** `base64.urlsafe_b64decode(s)`; None where the input is not in padded base64url form. */
  function Decode(s: string): (r: Option<seq<byte>>)
    decreases |s|
  {
    if |s| == 0 then Some([])
    else if |s| < 4 then None
    else
      var i0, i1, i2, i3 := IndexOf(s[0]), IndexOf(s[1]), IndexOf(s[2]), IndexOf(s[3]);
      if i0.None? || i1.None? then None
      else if |s| == 4 && s[2] == '=' && s[3] == '=' then
        Some([Octets(i0.value, i1.value, 0, 0).0])
      else if i2.None? then None
      else if |s| == 4 && s[3] == '=' then
        var (d0, d1, _) := Octets(i0.value, i1.value, i2.value, 0);
        Some([d0, d1])
      else if i3.None? then None
      else
        var (d0, d1, d2) := Octets(i0.value, i1.value, i2.value, i3.value);
        match Decode(s[4..])
        case None => None
        case Some(rest) => Some([d0, d1, d2] + rest)
  }

  /** DecodeEncode for one octet: `XX==`. */
  lemma DecodeEncode1(b: seq<byte>)
    requires |b| == 1
    ensures Decode(Encode(b)) == Some(b)
  {
    var (c0, c1, c2, c3) := Sextets(b[0] as int, 0, 0);
    OctetsOfSextets(b[0] as int, 0, 0);
    IndexOfCharOf(c0);
    IndexOfCharOf(c1);
    assert c2 == 0 && c3 == 0;
    var s := Encode(b);
    assert s == [CharOf(c0), CharOf(c1), '=', '='];
    assert [b[0]] == b;
  }

  /** DecodeEncode for two octets: `XXX=`. */
  lemma DecodeEncode2(b: seq<byte>)
    requires |b| == 2
    ensures Decode(Encode(b)) == Some(b)
  {
    var (c0, c1, c2, c3) := Sextets(b[0] as int, b[1] as int, 0);
    OctetsOfSextets(b[0] as int, b[1] as int, 0);
    IndexOfCharOf(c0);
    IndexOfCharOf(c1);
    IndexOfCharOf(c2);
    assert c3 == 0;
    var s := Encode(b);
    assert s == [CharOf(c0), CharOf(c1), CharOf(c2), '='];
    assert [b[0], b[1]] == b;
  }

  /** A full group of four alphabet characters decodes to its three octets, then the rest. */
  lemma DecodeGroup(c0: int, c1: int, c2: int, c3: int, t: string)
    requires 0 <= c0 < 64 && 0 <= c1 < 64 && 0 <= c2 < 64 && 0 <= c3 < 64
    ensures var d := Octets(c0, c1, c2, c3);
            Decode([CharOf(c0), CharOf(c1), CharOf(c2), CharOf(c3)] + t)
            == if Decode(t).Some? then Some([d.0, d.1, d.2] + Decode(t).value) else None
  {
    var s := [CharOf(c0), CharOf(c1), CharOf(c2), CharOf(c3)] + t;
    IndexOfCharOf(c0);
    IndexOfCharOf(c1);
    IndexOfCharOf(c2);
    IndexOfCharOf(c3);
    assert s[4..] == t;
  }

  /** The encoding of three or more octets starts with the four characters of the first three. */
  lemma EncodeGroup(b: seq<byte>)
    requires |b| >= 3
    ensures var g := Sextets(b[0] as int, b[1] as int, b[2] as int);
            Encode(b) == [CharOf(g.0), CharOf(g.1), CharOf(g.2), CharOf(g.3)] + Encode(b[3..])
  {
  }

  /** A sequence of three or more elements is its first three followed by the rest. */
  lemma SplitThree(b: seq<byte>)
    requires |b| >= 3
    ensures [b[0], b[1], b[2]] + b[3..] == b
  {
    assert b == b[..3] + b[3..];
  }

  /** DecodeEncode for a full group of three octets followed by more. */
  lemma DecodeEncode3(b: seq<byte>)
    requires |b| >= 3 && Decode(Encode(b[3..])) == Some(b[3..])
    ensures Decode(Encode(b)) == Some(b)
  {
    var g := Sextets(b[0] as int, b[1] as int, b[2] as int);
    OctetsOfSextets(b[0] as int, b[1] as int, b[2] as int);
    var q := [CharOf(g.0), CharOf(g.1), CharOf(g.2), CharOf(g.3)];
    var t := Encode(b[3..]);
    EncodeGroup(b);
    assert Encode(b) == q + t;
    DecodeGroup(g.0, g.1, g.2, g.3, t);
    var d := Octets(g.0, g.1, g.2, g.3);
    assert d == (b[0], b[1], b[2]);
    SplitThree(b);
    assert Decode(q + t) == Some([b[0], b[1], b[2]] + b[3..]);
  }

  /** Decoding undoes encoding: `urlsafe_b64decode(urlsafe_b64encode(b)) == b`. */
  lemma {:induction false} DecodeEncode(b: seq<byte>)
    ensures Decode(Encode(b)) == Some(b)
    decreases |b|
  {
    if |b| == 1 {
      DecodeEncode1(b);
    } else if |b| == 2 {
      DecodeEncode2(b);
    } else if |b| >= 3 {
      DecodeEncode(b[3..]);
      DecodeEncode3(b);
    }
  }
}

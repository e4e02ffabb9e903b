/**
 * The conversions of Node's `Buffer` that the session-token codec relies on:
 * UTF-8 between strings and bytes, the `"binary"` (Latin-1) string view of
 * bytes, and base64 text (RFC 4648 section 4 alphabet, `=` padding).
 */
module NodeBuffer {
  import opened Wrappers

  newtype byte = x: int | 0 <= x < 256

  // ---------------------------------------------------------------- UTF-8

  predicate IsContinuation(b: byte) {
    0x80 <= b < 0xC0
  }

  /**
   * The UTF-8 encoding of one Unicode scalar value: one byte below U+0080,
   * otherwise a lead byte followed by 6-bit continuation bytes.
   */
  function EncodeChar(c: char): (r: seq<byte>)
    ensures 1 <= |r| <= 4
  {
    var cp := c as int;
    var q1 := cp / 64;
    var q2 := q1 / 64;
    if cp < 0x80 then
      [cp as byte]
    else if cp < 0x800 then
      [(0xC0 + q1) as byte, (0x80 + cp % 64) as byte]
    else if cp < 0x1_0000 then
      [(0xE0 + q2) as byte, (0x80 + q1 % 64) as byte, (0x80 + cp % 64) as byte]
    else
      [(0xF0 + q2 / 64) as byte, (0x80 + q2 % 64) as byte,
       (0x80 + q1 % 64) as byte, (0x80 + cp % 64) as byte]
  }

  /** `Buffer.from(s)`: the UTF-8 bytes of a string. */
  function Utf8Encode(s: string): (r: seq<byte>)
    ensures |s| <= |r| <= 4 * |s|
  {
    if s == [] then [] else EncodeChar(s[0]) + Utf8Encode(s[1..])
  }

  /**
   * The character encoded by the well-formed UTF-8 sequence at the start of
   * `b`, with that sequence's length; None when `b` does not start with one
   * (stray continuation byte, truncated sequence, overlong form, surrogate,
   * or a value above U+10FFFF).
   */
  function DecodeFirst(b: seq<byte>): (r: Option<(char, nat)>)
    requires |b| > 0
    ensures r.Some? ==> 1 <= r.value.1 <= |b| && r.value.1 == |EncodeChar(r.value.0)|
  {
    var b0 := b[0] as int;
    if b0 < 0x80 then
      Some((b0 as char, 1))
    else if 0xC2 <= b0 <= 0xDF && |b| >= 2 && IsContinuation(b[1]) then
      Some((((b0 - 0xC0) * 64 + (b[1] as int - 0x80)) as char, 2))
    else if 0xE0 <= b0 <= 0xEF && |b| >= 3 && IsContinuation(b[1]) && IsContinuation(b[2]) then
      var cp := (b0 - 0xE0) * 4096 + (b[1] as int - 0x80) * 64 + (b[2] as int - 0x80);
      if 0x800 <= cp && !(0xD800 <= cp < 0xE000) then Some((cp as char, 3)) else None
    else if 0xF0 <= b0 <= 0xF4 && |b| >= 4
         && IsContinuation(b[1]) && IsContinuation(b[2]) && IsContinuation(b[3]) then
      var cp := (b0 - 0xF0) * 262144 + (b[1] as int - 0x80) * 4096
                + (b[2] as int - 0x80) * 64 + (b[3] as int - 0x80);
      if 0x1_0000 <= cp < 0x11_0000 then Some((cp as char, 4)) else None
    else
      None
  }

  /** U+FFFD, what the decoder puts in place of bytes it cannot decode. */
  const ReplacementChar: char := '\U{FFFD}'

  /** `buffer.toString("utf-8")`: never fails; an undecodable byte becomes U+FFFD. */
  function Utf8Decode(b: seq<byte>): (s: string)
    ensures |s| <= |b|
    decreases |b|
  {
    if b == [] then []
    else match DecodeFirst(b)
      case Some((c, n)) => [c] + Utf8Decode(b[n..])
      case None => [ReplacementChar] + Utf8Decode(b[1..])
  }

  /** The decoder reads back exactly the character that `EncodeChar` wrote. */
  lemma DecodeEncodedChar(c: char, rest: seq<byte>)
    ensures DecodeFirst(EncodeChar(c) + rest) == Some((c, |EncodeChar(c)|))
  {
    if c as int < 0x80 {
    } else if c as int < 0x800 {
      DecodeTwoBytes(c, rest);
    } else if c as int < 0x1_0000 {
      DecodeThreeBytes(c, rest);
    } else {
      DecodeFourBytes(c, rest);
    }
  }

  lemma DecodeTwoBytes(c: char, rest: seq<byte>)
    requires 0x80 <= c as int < 0x800
    ensures DecodeFirst(EncodeChar(c) + rest) == Some((c, 2))
  {
    var cp := c as int;
    var b := EncodeChar(c) + rest;
    var q1 := cp / 64;
    assert cp == q1 * 64 + cp % 64;
    assert b[0] as int == 0xC0 + q1 && b[1] as int == 0x80 + cp % 64;
  }

  lemma DecodeThreeBytes(c: char, rest: seq<byte>)
    requires 0x800 <= c as int < 0x1_0000
    ensures DecodeFirst(EncodeChar(c) + rest) == Some((c, 3))
  {
    var cp := c as int;
    var b := EncodeChar(c) + rest;
    var q1 := cp / 64;
    var q2 := q1 / 64;
    assert cp == q1 * 64 + cp % 64;
    assert q1 == q2 * 64 + q1 % 64;
    assert b[0] as int == 0xE0 + q2;
    assert b[1] as int == 0x80 + q1 % 64;
    assert b[2] as int == 0x80 + cp % 64;
  }

  lemma DecodeFourBytes(c: char, rest: seq<byte>)
    requires 0x1_0000 <= c as int
    ensures DecodeFirst(EncodeChar(c) + rest) == Some((c, 4))
  {
    var cp := c as int;
    var b := EncodeChar(c) + rest;
    var q1 := cp / 64;
    var q2 := q1 / 64;
    assert cp == q1 * 64 + cp % 64;
    assert q1 == q2 * 64 + q1 % 64;
    assert q2 == q2 / 64 * 64 + q2 % 64;
    assert b[0] as int == 0xF0 + q2 / 64;
    assert b[1] as int == 0x80 + q2 % 64;
    assert b[2] as int == 0x80 + q1 % 64;
    assert b[3] as int == 0x80 + cp % 64;
  }

  /** UTF-8 round trip: decoding the bytes of a string gives the string back. */
  lemma {:induction false} Utf8RoundTrip(s: string)
    ensures Utf8Decode(Utf8Encode(s)) == s
  {
    if s != [] {
      var head := EncodeChar(s[0]);
      var tail := Utf8Encode(s[1..]);
      DecodeEncodedChar(s[0], tail);
      assert (head + tail)[|head|..] == tail;
      Utf8RoundTrip(s[1..]);
    }
  }

  /** `buffer.toString("binary")`: one character per byte, with the byte's value as its code. */
  function Latin1(b: seq<byte>): (r: string)
    ensures |r| == |b|
    ensures forall i :: 0 <= i < |b| ==> r[i] as int == b[i] as int
  {
    seq(|b|, i requires 0 <= i < |b| => b[i] as int as char)
  }

  // --------------------------------------------------------------- base64

  type sextet = x: int | 0 <= x < 64

  /** The RFC 4648 section 4 alphabet: `A-Z`, `a-z`, `0-9`, `+`, `/`. */
  function StdChar(v: sextet): (c: char)
    ensures c != '=' && c != '-' && c != '_' && c != '.'
  {
    if v < 26 then ('A' as int + v) as char
    else if v < 52 then ('a' as int + (v - 26)) as char
    else if v < 62 then ('0' as int + (v - 52)) as char
    else if v == 62 then '+'
    else '/'
  }

  /**
   * The value of a base64 character as Node's decoder reads it: both the
   * standard and the URL-safe alphabet are accepted; None for any other
   * character.
   */
  function SextetOf(c: char): Option<sextet> {
    if 'A' <= c <= 'Z' then Some(c as int - 'A' as int)
    else if 'a' <= c <= 'z' then Some(c as int - 'a' as int + 26)
    else if '0' <= c <= '9' then Some(c as int - '0' as int + 52)
    else if c == '+' || c == '-' then Some(62)
    else if c == '/' || c == '_' then Some(63)
    else None
  }

  /** Every 6-bit value is read back from its character. */
  lemma SextetOfStdChar(v: sextet)
    ensures SextetOf(StdChar(v)) == Some(v)
  {
  }

  /** The four 6-bit values spelled by the three bytes `x`, `y`, `z`. */
  function Quad(x: byte, y: byte, z: byte): (r: seq<sextet>)
    ensures |r| == 4
  {
    [x as int / 4, x as int % 4 * 16 + y as int / 16, y as int % 16 * 4 + z as int / 64, z as int % 64]
  }

  /**
   * The 6-bit groups of `b`, four for every three bytes; a last partial
   * group of one or two bytes, completed with zero bits, gives two or three.
   */
  function ToSextets(b: seq<byte>): (r: seq<sextet>)
    ensures |r| == 4 * (|b| / 3) + (if |b| % 3 == 0 then 0 else |b| % 3 + 1)
    decreases |b|
  {
    if |b| == 0 then []
    else if |b| == 1 then Quad(b[0], 0, 0)[..2]
    else if |b| == 2 then Quad(b[0], b[1], 0)[..3]
    else Quad(b[0], b[1], b[2]) + ToSextets(b[3..])
  }

  /** The three bytes spelled by the four 6-bit values `a`, `b`, `c`, `d`. */
  function Triple(a: sextet, b: sextet, c: sextet, d: sextet): (r: seq<byte>)
    ensures |r| == 3
  {
    [(a * 4 + b / 16) as byte, (b % 16 * 16 + c / 4) as byte, (c % 4 * 64 + d) as byte]
  }

  /** The bytes spelled by a run of 6-bit groups; a last group of one value carries no whole byte. */
  function FromSextets(v: seq<sextet>): (b: seq<byte>)
    ensures |b| <= |v|
    decreases |v|
  {
    if |v| < 2 then []
    else if |v| == 2 then Triple(v[0], v[1], 0, 0)[..1]
    else if |v| == 3 then Triple(v[0], v[1], v[2], 0)[..2]
    else Triple(v[0], v[1], v[2], v[3]) + FromSextets(v[4..])
  }

  function Chars(v: seq<sextet>): (r: string)
    ensures |r| == |v|
    ensures forall i :: 0 <= i < |v| ==> r[i] == StdChar(v[i])
  {
    seq(|v|, i requires 0 <= i < |v| => StdChar(v[i]))
  }

  function Repeat(c: char, n: nat): (r: string)
    ensures |r| == n && forall i :: 0 <= i < n ==> r[i] == c
  {
    seq(n, _ => c)
  }

  /** `Buffer.from(b).toString("base64")`: padded with `=` to a multiple of four characters. */
  function Encode(b: seq<byte>): (r: string)
    ensures |r| % 4 == 0
  {
    var v := ToSextets(b);
    QuartetLength(|b|, |v|);
    Chars(v) + Repeat('=', if |b| % 3 == 0 then 0 else 3 - |b| % 3)
  }

  /** The 6-bit groups of `n` bytes and their `=` padding fill whole quartets. */
  lemma QuartetLength(n: nat, len: nat)
    requires len == 4 * (n / 3) + (if n % 3 == 0 then 0 else n % 3 + 1)
    ensures (len + (if n % 3 == 0 then 0 else 3 - n % 3)) % 4 == 0
  {
    var groups := if n % 3 == 0 then n / 3 else n / 3 + 1;
    assert len + (if n % 3 == 0 then 0 else 3 - n % 3) == 4 * groups;
    MultipleOfFour(groups);
  }

  lemma MultipleOfFour(w: int)
    ensures (4 * w) % 4 == 0
  {
  }

  /** The values of the characters before the first `=`, skipping characters outside the alphabet. */
  function SextetsOf(s: string): (v: seq<sextet>)
    ensures |v| <= |s|
  {
    if s == [] || s[0] == '=' then []
    else match SextetOf(s[0])
      case Some(v) => [v] + SextetsOf(s[1..])
      case None => SextetsOf(s[1..])
  }

  /** `Buffer.from(s, "base64")`: never fails. */
  function Decode(s: string): (b: seq<byte>)
    ensures |b| <= |s|
  {
    FromSextets(SextetsOf(s))
  }

  /** Reading stops at the first `=`: padding appended to `s` adds no 6-bit value. */
  lemma {:induction false} SextetsIgnorePadding(s: string, n: nat)
    ensures SextetsOf(s + Repeat('=', n)) == SextetsOf(s)
  {
    if s == [] {
      assert n == 0 || Repeat('=', n)[0] == '=';
    } else {
      assert (s + Repeat('=', n))[1..] == s[1..] + Repeat('=', n);
      SextetsIgnorePadding(s[1..], n);
    }
  }

  /** Regrouping 6-bit values into bytes recovers the bytes they were cut from. */
  lemma TripleOfQuad(x: byte, y: byte, z: byte)
    ensures var q := Quad(x, y, z); Triple(q[0], q[1], q[2], q[3]) == [x, y, z]
  {
    var xi, yi, zi := x as int, y as int, z as int;
    assert xi / 4 * 4 + (xi % 4 * 16 + yi / 16) / 16 == xi;
    assert (xi % 4 * 16 + yi / 16) % 16 * 16 + (yi % 16 * 4 + zi / 64) / 4 == yi;
    assert (yi % 16 * 4 + zi / 64) % 4 * 64 + zi % 64 == zi;
  }

  lemma {:induction false} FromToSextets(b: seq<byte>)
    ensures FromSextets(ToSextets(b)) == b
    decreases |b|
  {
    if |b| == 1 {
      TripleOfQuad(b[0], 0, 0);
    } else if |b| == 2 {
      TripleOfQuad(b[0], b[1], 0);
    } else if |b| >= 3 {
      var q := Quad(b[0], b[1], b[2]);
      var v := ToSextets(b);
      assert v[..4] == q && v[4..] == ToSextets(b[3..]);
      TripleOfQuad(b[0], b[1], b[2]);
      FromToSextets(b[3..]);
      assert b == [b[0], b[1], b[2]] + b[3..];
    }
  }

  lemma {:induction false} SextetsOfChars(v: seq<sextet>, pad: nat)
    ensures SextetsOf(Chars(v) + Repeat('=', pad)) == v
    decreases |v|
  {
    var s := Chars(v) + Repeat('=', pad);
    if v != [] {
      SextetOfStdChar(v[0]);
      assert s[1..] == Chars(v[1..]) + Repeat('=', pad);
      SextetsOfChars(v[1..], pad);
    }
  }

  /** Base64 round trip: decoding the encoding of some bytes gives the bytes back. */
  lemma Base64RoundTrip(b: seq<byte>)
    ensures Decode(Encode(b)) == b
  {
    SextetsOfChars(ToSextets(b), if |b| % 3 == 0 then 0 else 3 - |b| % 3);
    FromToSextets(b);
  }
}

/** Strict UTF-8 (RFC 3629): the decoding that `String(data:encoding: .utf8)`
    and `String(cString:encoding: .utf8)` perform, failing on malformed input,
    and the encoding that is its inverse. A `char` is a Unicode scalar value. */
module Utf8 {
  import opened Common

  predicate IsContinuation(b: byte) {
    0x80 <= b < 0xC0
  }

  /** The scalar value carried by the `n`-byte sequence at the start of `b`,
      whose lead byte says `n` and whose other bytes are continuations. */
  function Payload(b: seq<byte>, n: nat): (cp: int)
    requires 2 <= n <= 4 && n <= |b| && SequenceLength(b[0]) == n
    requires IsContinuation(b[1])
    requires n >= 3 ==> IsContinuation(b[2])
    requires n == 4 ==> IsContinuation(b[3])
    ensures 0 <= cp
  {
    if n == 2 then (b[0] as int - 0xC0) * 0x40 + (b[1] as int - 0x80)
    else if n == 3 then ((b[0] as int - 0xE0) * 0x40 + (b[1] as int - 0x80)) * 0x40 + (b[2] as int - 0x80)
    else (((b[0] as int - 0xF0) * 0x40 + (b[1] as int - 0x80)) * 0x40 + (b[2] as int - 0x80)) * 0x40 + (b[3] as int - 0x80)
  }

  /** The number of bytes a sequence starting with `b0` occupies, or 0 when
      `b0` cannot start one (a continuation byte, 0xC0, 0xC1, 0xF5..0xFF). */
  function SequenceLength(b0: byte): (n: nat)
    ensures n <= 4
  {
    if b0 < 0x80 then 1
    else if 0xC2 <= b0 < 0xE0 then 2
    else if 0xE0 <= b0 < 0xF0 then 3
    else if 0xF0 <= b0 < 0xF5 then 4
    else 0
  }

  /** The smallest scalar value a sequence of `n` bytes may carry; anything
      smaller is an overlong form. */
  function MinScalar(n: nat): int {
    if n == 2 then 0x80 else if n == 3 then 0x800 else 0x10000
  }

  predicate IsScalar(cp: int) {
    0 <= cp < 0xD800 || 0xE000 <= cp < 0x11_0000
  }

  /** The first character of `b` and the number of bytes it takes. */
  function DecodeFirst(b: seq<byte>): (r: Option<(char, nat)>)
    requires |b| > 0
    ensures r.Some? ==> 1 <= r.value.1 <= |b| && r.value.1 == SequenceLength(b[0])
  {
    var n := SequenceLength(b[0]);
    if n == 0 || |b| < n then None
    else if n == 1 then Some((b[0] as int as char, 1))
    else if !IsContinuation(b[1]) || (n >= 3 && !IsContinuation(b[2])) || (n == 4 && !IsContinuation(b[3])) then None
    else
      var cp := Payload(b, n);
      if cp < MinScalar(n) || !IsScalar(cp) then None
      else Some((cp as char, n))
  }

  /** Decodes the whole of `b`, or fails if any part of it is malformed.
      Decoding succeeds only on the encoding of what it returns. */
  function Decode(b: seq<byte>): (r: Option<string>)
    ensures r.Some? ==> Encode(r.value) == b
    decreases |b|
  {
    if |b| == 0 then Some("")
    else
      match DecodeFirst(b)
      case None => None
      case Some((c, n)) =>
        match Decode(b[n..])
        case None => None
        case Some(rest) =>
          EncodeOfDecodedStep(b, rest);
          Some([c] + rest)
  }

  /** The first character decoded from `b`, followed by text that encodes
      to the rest of `b`, encodes to `b`. */
  lemma EncodeOfDecodedStep(b: seq<byte>, rest: string)
    requires |b| > 0 && DecodeFirst(b).Some?
    requires Encode(rest) == b[DecodeFirst(b).value.1..]
    ensures Encode([DecodeFirst(b).value.0] + rest) == b
  {
    var (c, n) := DecodeFirst(b).value;
    EncodeCharOfDecodeFirst(b);
    assert ([c] + rest)[1..] == rest;
    assert b == b[..n] + b[n..];
  }

  function EncodeChar(c: char): (r: seq<byte>)
    ensures 1 <= |r| <= 4
    ensures 0 in r <==> c == 0 as char
  {
    var cp := c as int;
    if cp < 0x80 then [cp as byte]
    else if cp < 0x800 then
      [(0xC0 + cp / 0x40) as byte, (0x80 + cp % 0x40) as byte]
    else if cp < 0x10000 then
      [(0xE0 + cp / 0x40 / 0x40) as byte, (0x80 + cp / 0x40 % 0x40) as byte, (0x80 + cp % 0x40) as byte]
    else
      [(0xF0 + cp / 0x40 / 0x40 / 0x40) as byte, (0x80 + cp / 0x40 / 0x40 % 0x40) as byte,
       (0x80 + cp / 0x40 % 0x40) as byte, (0x80 + cp % 0x40) as byte]
  }

  function Encode(s: string): seq<byte> {
    if |s| == 0 then [] else EncodeChar(s[0]) + Encode(s[1..])
  }

  /** A character's encoding, followed by anything, decodes back to the
      character and its own length. */
  lemma DecodeFirstOfEncodeChar(c: char, rest: seq<byte>)
    ensures DecodeFirst(EncodeChar(c) + rest) == Some((c, |EncodeChar(c)|))
  {
    var e := EncodeChar(c);
    var b := e + rest;
    var cp := c as int;
    if cp >= 0x80 {
      var q1, r1 := cp / 0x40, cp % 0x40;
      assert cp == q1 * 0x40 + r1;
      var q2, r2 := q1 / 0x40, q1 % 0x40;
      assert q1 == q2 * 0x40 + r2;
      if cp < 0x800 {
        assert Payload(b, 2) == cp;
      } else if cp < 0x10000 {
        assert Payload(b, 3) == cp;
      } else {
        var q3, r3 := q2 / 0x40, q2 % 0x40;
        assert q2 == q3 * 0x40 + r3;
        assert Payload(b, 4) == cp;
      }
    }
  }

  /** Encoding then decoding gives back the text. */
  lemma {:induction false} DecodeEncode(s: string)
    ensures Decode(Encode(s)) == Some(s)
  {
    if |s| > 0 {
      var e := EncodeChar(s[0]);
      DecodeFirstOfEncodeChar(s[0], Encode(s[1..]));
      assert (e + Encode(s[1..]))[|e|..] == Encode(s[1..]);
      DecodeEncode(s[1..]);
      assert s == [s[0]] + s[1..];
    }
  }

  /** The bytes a decoded first character came from are its encoding. */
  lemma EncodeCharOfDecodeFirst(b: seq<byte>)
    requires |b| > 0 && DecodeFirst(b).Some?
    ensures EncodeChar(DecodeFirst(b).value.0) == b[..DecodeFirst(b).value.1]
  {
    var n := DecodeFirst(b).value.1;
    if n == 2 {
      TwoByteDigits(b[0] as int - 0xC0, b[1] as int - 0x80);
    } else if n == 3 {
      ThreeByteDigits(b[0] as int - 0xE0, b[1] as int - 0x80, b[2] as int - 0x80);
    } else if n == 4 {
      FourByteDigits(b[0] as int - 0xF0, b[1] as int - 0x80, b[2] as int - 0x80, b[3] as int - 0x80);
    }
  }

  lemma TwoByteDigits(d0: int, d1: int)
    requires 0 <= d0 && 0 <= d1 < 0x40
    ensures (d0 * 0x40 + d1) / 0x40 == d0 && (d0 * 0x40 + d1) % 0x40 == d1
  {
  }

  lemma ThreeByteDigits(d0: int, d1: int, d2: int)
    requires 0 <= d0 && 0 <= d1 < 0x40 && 0 <= d2 < 0x40
    ensures var cp := (d0 * 0x40 + d1) * 0x40 + d2;
      cp / 0x40 / 0x40 == d0 && cp / 0x40 % 0x40 == d1 && cp % 0x40 == d2
  {
    TwoByteDigits(d0 * 0x40 + d1, d2);
    TwoByteDigits(d0, d1);
  }

  lemma FourByteDigits(d0: int, d1: int, d2: int, d3: int)
    requires 0 <= d0 && 0 <= d1 < 0x40 && 0 <= d2 < 0x40 && 0 <= d3 < 0x40
    ensures var cp := ((d0 * 0x40 + d1) * 0x40 + d2) * 0x40 + d3;
      cp / 0x40 / 0x40 / 0x40 == d0 && cp / 0x40 / 0x40 % 0x40 == d1 &&
      cp / 0x40 % 0x40 == d2 && cp % 0x40 == d3
  {
    ThreeByteDigits(d0 * 0x40 + d1, d2, d3);
    TwoByteDigits(d0, d1);
  }

  /** The encoding of a concatenation is the concatenation of encodings. */
  lemma {:induction false} EncodeAppend(s: string, t: string)
    ensures Encode(s + t) == Encode(s) + Encode(t)
  {
    if |s| > 0 {
      EncodeAppend(s[1..], t);
      assert (s + t)[1..] == s[1..] + t;
    } else {
      assert s + t == t;
    }
  }

  /** A zero byte appears in the encoding exactly where the text has U+0000:
      C strings made from a text end at its first U+0000. */
  lemma {:induction false} EncodeNulFree(s: string)
    ensures 0 in Encode(s) <==> 0 as char in s
  {
    if |s| > 0 {
      EncodeNulFree(s[1..]);
      assert s == [s[0]] + s[1..];
    }
  }
}

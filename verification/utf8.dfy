/**
  UTF-8 as Rust's `String::from_utf8` accepts it: the well-formed byte
  sequences of table 3-7 in chapter 3 of the Unicode Standard (no overlong
  forms, no surrogates, nothing above U+10FFFF). `Decode` is the validating
  decoder, `Encode` its inverse, and the two round-trip lemmas show that they
  are a bijection between strings and well-formed byte sequences.
 */
module Utf8 {
  import opened Wrappers

  type Byte = b: int | 0 <= b < 256
  type Bytes = seq<Byte>

  predicate IsCont(b: Byte) {
    0x80 <= b <= 0xBF
  }

  predicate IsScalar(n: int) {
    (0 <= n < 0xD800) || (0xE000 <= n < 0x11_0000)
  }

  /** The 1-4 byte encoding of one Unicode scalar value */
  function EncodeChar(c: char): (b: Bytes)
    ensures 1 <= |b| <= 4
  {
    var n := c as int;
    if n < 0x80 then [n]
    else if n < 0x800 then [0xC0 + n / 64, 0x80 + n % 64]
    else if n < 0x1_0000 then [0xE0 + n / 4096, 0x80 + (n / 64) % 64, 0x80 + n % 64]
    else [0xF0 + n / 262144, 0x80 + (n / 4096) % 64, 0x80 + (n / 64) % 64, 0x80 + n % 64]
  }

  function Encode(s: string): Bytes {
    if |s| == 0 then [] else EncodeChar(s[0]) + Encode(s[1..])
  }

  /** The scalar value encoded by the well-formed sequence at the front of `b`
      together with its length, or None when `b` does not start with one */
  function DecodeFirst(b: Bytes): (r: Option<(char, nat)>)
    requires |b| > 0
    ensures r.Some? ==> 1 <= r.value.1 <= 4 && r.value.1 <= |b|
  {
    var b0: int := b[0];
    var b1: int := if |b| > 1 then b[1] else 0;
    var b2: int := if |b| > 2 then b[2] else 0;
    var b3: int := if |b| > 3 then b[3] else 0;
    if b0 < 0x80 then Some((b0 as char, 1))
    else if 0xC2 <= b0 <= 0xDF then
      if |b| >= 2 && IsCont(b[1]) then
        Some((((b0 - 0xC0) * 64 + (b1 - 0x80)) as char, 2))
      else None
    else if 0xE0 <= b0 <= 0xEF then
      if |b| >= 3 && IsCont(b[1]) && IsCont(b[2])
         && (b0 != 0xE0 || b[1] >= 0xA0)
         && (b0 != 0xED || b[1] <= 0x9F)
      then
        var n := (b0 - 0xE0) * 4096 + (b1 - 0x80) * 64 + (b2 - 0x80);
        assert IsScalar(n);
        Some((n as char, 3))
      else None
    else if 0xF0 <= b0 <= 0xF4 then
      if |b| >= 4 && IsCont(b[1]) && IsCont(b[2]) && IsCont(b[3])
         && (b0 != 0xF0 || b[1] >= 0x90)
         && (b0 != 0xF4 || b[1] <= 0x8F)
      then
        var n := (b0 - 0xF0) * 262144 + (b1 - 0x80) * 4096 + (b2 - 0x80) * 64 + (b3 - 0x80);
        Some((n as char, 4))
      else None
    else None
  }

  /** Rust's `String::from_utf8`: the decoded text, or None if `b` is not well-formed */
  function Decode(b: Bytes): (r: Option<string>)
    ensures r.Some? ==> |r.value| <= |b| <= 4 * |r.value|
    ensures r == Some("") <==> |b| == 0
    decreases |b|
  {
    if |b| == 0 then Some("")
    else match DecodeFirst(b)
      case None => None
      case Some((c, k)) =>
        match Decode(b[k..])
        case None => None
        case Some(rest) => Some([c] + rest)
  }

  predicate IsValid(b: Bytes) {
    Decode(b).Some?
  }

  /* ---------------------------------------------------------------------
     Decode after Encode
     --------------------------------------------------------------------- */

  /** Quotient and remainder of a number written in base 64 */
  lemma Base64Digits(q: int, r: int)
    requires 0 <= r < 64
    ensures (q * 64 + r) / 64 == q && (q * 64 + r) % 64 == r
  {
  }

  lemma DecodeFirstOfEncodeChar2(c: char, rest: Bytes)
    requires 0x80 <= c as int < 0x800
    ensures DecodeFirst(EncodeChar(c) + rest) == Some((c, 2))
  {
    var n := c as int;
    var b := EncodeChar(c) + rest;
    assert b[0] == 0xC0 + n / 64 && b[1] == 0x80 + n % 64;
  }

  lemma DecodeFirstOfEncodeChar3(c: char, rest: Bytes)
    requires 0x800 <= c as int < 0x1_0000
    ensures DecodeFirst(EncodeChar(c) + rest) == Some((c, 3))
  {
    var n := c as int;
    var b := EncodeChar(c) + rest;
    var q := n / 64;
    assert n / 4096 == q / 64;
    assert b[0] == 0xE0 + q / 64 && b[1] == 0x80 + q % 64 && b[2] == 0x80 + n % 64;
    assert n == (q / 64) * 4096 + (q % 64) * 64 + n % 64;
  }

  lemma DecodeFirstOfEncodeChar4(c: char, rest: Bytes)
    requires 0x1_0000 <= c as int
    ensures DecodeFirst(EncodeChar(c) + rest) == Some((c, 4))
  {
    var n := c as int;
    var b := EncodeChar(c) + rest;
    var q := n / 64;
    var q2 := q / 64;
    assert n / 4096 == q2;
    assert n / 262144 == q2 / 64;
    assert b[0] == 0xF0 + q2 / 64 && b[1] == 0x80 + q2 % 64;
    assert b[2] == 0x80 + q % 64 && b[3] == 0x80 + n % 64;
    assert n == (q2 / 64) * 262144 + (q2 % 64) * 4096 + (q % 64) * 64 + n % 64;
  }

  lemma DecodeFirstOfEncodeChar(c: char, rest: Bytes)
    ensures DecodeFirst(EncodeChar(c) + rest) == Some((c, |EncodeChar(c)|))
  {
    var n := c as int;
    if n < 0x80 {
    } else if n < 0x800 {
      DecodeFirstOfEncodeChar2(c, rest);
    } else if n < 0x1_0000 {
      DecodeFirstOfEncodeChar3(c, rest);
    } else {
      DecodeFirstOfEncodeChar4(c, rest);
    }
  }

  lemma {:induction false} DecodeEncode(s: string)
    ensures Decode(Encode(s)) == Some(s)
  {
    if |s| > 0 {
      var e := EncodeChar(s[0]);
      DecodeFirstOfEncodeChar(s[0], Encode(s[1..]));
      assert (e + Encode(s[1..]))[|e|..] == Encode(s[1..]);
      DecodeEncode(s[1..]);
      assert [s[0]] + s[1..] == s;
    }
  }

  /* ---------------------------------------------------------------------
     Encode after Decode
     --------------------------------------------------------------------- */

  lemma EncodeCharOfDecodeFirst2(b: Bytes)
    requires |b| >= 2 && 0xC2 <= b[0] <= 0xDF && IsCont(b[1])
    ensures DecodeFirst(b).Some? && EncodeChar(DecodeFirst(b).value.0) == b[..2]
  {
    var b0: int := b[0];
    var b1: int := b[1];
    var n := (b0 - 0xC0) * 64 + (b1 - 0x80);
    assert DecodeFirst(b) == Some((n as char, 2));
    Base64Digits(b0 - 0xC0, b1 - 0x80);
  }

  lemma EncodeCharOfDecodeFirst3(b: Bytes)
    requires |b| >= 3 && 0xE0 <= b[0] <= 0xEF && DecodeFirst(b).Some?
    ensures EncodeChar(DecodeFirst(b).value.0) == b[..3]
  {
    var b0: int := b[0];
    var b1: int := b[1];
    var b2: int := b[2];
    var q := (b0 - 0xE0) * 64 + (b1 - 0x80);
    var n := q * 64 + (b2 - 0x80);
    assert DecodeFirst(b) == Some((n as char, 3));
    Base64Digits(q, b2 - 0x80);
    Base64Digits(b0 - 0xE0, b1 - 0x80);
    assert n / 4096 == q / 64;
  }

  lemma EncodeCharOfDecodeFirst4(b: Bytes)
    requires |b| >= 4 && 0xF0 <= b[0] <= 0xF4 && DecodeFirst(b).Some?
    ensures EncodeChar(DecodeFirst(b).value.0) == b[..4]
  {
    var b0: int := b[0];
    var b1: int := b[1];
    var b2: int := b[2];
    var b3: int := b[3];
    var q2 := (b0 - 0xF0) * 64 + (b1 - 0x80);
    var q := q2 * 64 + (b2 - 0x80);
    var n := q * 64 + (b3 - 0x80);
    assert DecodeFirst(b) == Some((n as char, 4));
    Base64Digits(q, b3 - 0x80);
    Base64Digits(q2, b2 - 0x80);
    Base64Digits(b0 - 0xF0, b1 - 0x80);
    assert n / 4096 == q2;
    assert n / 262144 == q2 / 64;
  }

  /** The encoding of the character read from the front of `b` is exactly the
      bytes it was read from */
  lemma EncodeCharOfDecodeFirst(b: Bytes)
    requires |b| > 0 && DecodeFirst(b).Some?
    ensures EncodeChar(DecodeFirst(b).value.0) == b[..DecodeFirst(b).value.1]
  {
    if b[0] < 0x80 {
    } else if b[0] <= 0xDF {
      EncodeCharOfDecodeFirst2(b);
    } else if b[0] <= 0xEF {
      EncodeCharOfDecodeFirst3(b);
    } else {
      EncodeCharOfDecodeFirst4(b);
    }
  }

  lemma EncodeCons(c: char, rest: string)
    ensures Encode([c] + rest) == EncodeChar(c) + Encode(rest)
  {
    assert ([c] + rest)[1..] == rest;
  }

  /** A well-formed sequence is the encoding of one character followed by a
      well-formed rest */
  lemma DecodeCons(b: Bytes) returns (c: char, k: nat)
    requires |b| > 0 && IsValid(b)
    ensures 1 <= k <= |b| && EncodeChar(c) == b[..k]
    ensures IsValid(b[k..]) && Decode(b).value == [c] + Decode(b[k..]).value
  {
    c, k := DecodeFirst(b).value.0, DecodeFirst(b).value.1;
    EncodeCharOfDecodeFirst(b);
  }

  lemma {:induction false} EncodeDecode(b: Bytes)
    requires IsValid(b)
    ensures Encode(Decode(b).value) == b
    decreases |b|
  {
    if |b| > 0 {
      var c, k := DecodeCons(b);
      var rest := Decode(b[k..]).value;
      EncodeDecode(b[k..]);
      EncodeCons(c, rest);
      calc {
        Encode(Decode(b).value);
        Encode([c] + rest);
        EncodeChar(c) + Encode(rest);
        b[..k] + b[k..];
        b;
      }
    }
  }
}

/** Strict UTF-8, as Python's `bytes.decode("utf-8")` applies it to labels,
    file names and format strings read from a record: well-formed sequences
    only (no overlong forms, no surrogates, nothing above U+10FFFF). */
module Utf8 {
  import opened Errors

  predicate IsContinuation(b: int) { 0x80 <= b <= 0xBF }

  /** The character whose code point is `cp`. */
  function ScalarChar(cp: int): (c: char)
    requires 0 <= cp < 0xD800 || 0xE000 <= cp < 0x11_0000
    ensures c as int == cp
  {
    cp as char
  }

  /** The first character of `b` and the number of bytes it takes, or None
      when `b` does not start with a well-formed sequence (Table 3-7 of the
      Unicode Standard, chapter 3). */
  function DecodeFirst(b: Bytes): (r: Option<(char, nat)>)
    requires |b| > 0
    ensures r.Some? ==> 1 <= r.value.1 <= |b| && r.value.1 <= 4
  {
    var b0: int := b[0];
    var b1: int := if |b| > 1 then b[1] else 0;
    var b2: int := if |b| > 2 then b[2] else 0;
    var b3: int := if |b| > 3 then b[3] else 0;
    if b0 < 0x80 then
      Some((ScalarChar(b0), 1))
    else if 0xC2 <= b0 <= 0xDF then
      if |b| >= 2 && IsContinuation(b1)
      then Some((ScalarChar((b0 - 0xC0) * 64 + (b1 - 0x80)), 2))
      else None
    else if 0xE0 <= b0 <= 0xEF then
      if |b| >= 3
         && (if b0 == 0xE0 then 0xA0 <= b1 <= 0xBF
             else if b0 == 0xED then 0x80 <= b1 <= 0x9F
             else IsContinuation(b1))
         && IsContinuation(b2)
      then Some((ScalarChar((b0 - 0xE0) * 4096 + (b1 - 0x80) * 64 + (b2 - 0x80)), 3))
      else None
    else if 0xF0 <= b0 <= 0xF4 then
      if |b| >= 4
         && (if b0 == 0xF0 then 0x90 <= b1 <= 0xBF
             else if b0 == 0xF4 then 0x80 <= b1 <= 0x8F
             else IsContinuation(b1))
         && IsContinuation(b2) && IsContinuation(b3)
      then Some((ScalarChar((b0 - 0xF0) * 262144 + (b1 - 0x80) * 4096
                            + (b2 - 0x80) * 64 + (b3 - 0x80)), 4))
      else None
    else
      None
  }

  /** `bytes.decode("utf-8")`: the decoded text, or None where Python raises
      UnicodeDecodeError. */
  function Decode(b: Bytes): Option<string>
    decreases |b|
  {
    if b == [] then Some([])
    else match DecodeFirst(b)
      case None => None
      case Some((c, n)) =>
        match Decode(b[n..])
        case None => None
        case Some(s) => Some([c] + s)
  }

  /** The UTF-8 encoding of one character. */
  function EncodeChar(c: char): (r: Bytes)
    ensures 1 <= |r| <= 4
  {
    var n := c as int;
    if n < 0x80 then [n]
    else if n < 0x800 then [0xC0 + n / 64, 0x80 + n % 64]
    else if n < 0x1_0000 then [0xE0 + n / 4096, 0x80 + (n / 64) % 64, 0x80 + n % 64]
    else [0xF0 + n / 262144, 0x80 + (n / 4096) % 64, 0x80 + (n / 64) % 64, 0x80 + n % 64]
  }

  /** `str.encode("utf-8")`. */
  function Encode(s: string): Bytes
  {
    if s == [] then [] else EncodeChar(s[0]) + Encode(s[1..])
  }

  /** The three low-order base-64 digits of `n` and the rest. */
  lemma Base64Digits(n: nat)
    ensures n / 4096 == (n / 64) / 64
    ensures n / 262144 == (n / 4096) / 64
    ensures n == (n / 64) * 64 + n % 64
    ensures n / 64 == (n / 4096) * 64 + (n / 64) % 64
    ensures n / 4096 == (n / 262144) * 64 + (n / 4096) % 64
  {
    var q1 := n / 64;
    var q2 := q1 / 64;
    var q3 := q2 / 64;
    assert n == q1 * 64 + n % 64;
    assert q1 == q2 * 64 + q1 % 64;
    assert q2 == q3 * 64 + q2 % 64;
    assert n == q2 * 4096 + (q1 % 64) * 64 + n % 64;
    assert n == q3 * 262144 + (q2 % 64) * 4096 + (q1 % 64) * 64 + n % 64;
  }

  /** Decoding the encoding of `c`, whatever follows it, yields `c` and
      consumes exactly its encoding. */
  lemma DecodeFirstOfEncoding(c: char, rest: Bytes)
    ensures DecodeFirst(EncodeChar(c) + rest) == Some((c, |EncodeChar(c)|))
  {
    var n := c as int;
    if n < 0x80 {
    } else if n < 0x800 {
      DecodeFirstOfTwo(c, rest);
    } else if n < 0x1_0000 {
      DecodeFirstOfThree(c, rest);
    } else {
      DecodeFirstOfFour(c, rest);
    }
  }

  lemma DecodeFirstOfTwo(c: char, rest: Bytes)
    requires 0x80 <= c as int < 0x800
    ensures DecodeFirst(EncodeChar(c) + rest) == Some((c, 2))
  {
    var n := c as int;
    Base64Digits(n);
    var b := EncodeChar(c) + rest;
    assert b[0] == 0xC0 + n / 64 && b[1] == 0x80 + n % 64;
  }

  lemma DecodeFirstOfThree(c: char, rest: Bytes)
    requires 0x800 <= c as int < 0x1_0000
    ensures DecodeFirst(EncodeChar(c) + rest) == Some((c, 3))
  {
    var n := c as int;
    Base64Digits(n);
    var d2, d1, d0 := n / 4096, (n / 64) % 64, n % 64;
    assert n == d2 * 4096 + d1 * 64 + d0;
    var b := EncodeChar(c) + rest;
    assert b[0] == 0xE0 + d2 && b[1] == 0x80 + d1 && b[2] == 0x80 + d0;
  }

  lemma DecodeFirstOfFour(c: char, rest: Bytes)
    requires 0x1_0000 <= c as int
    ensures DecodeFirst(EncodeChar(c) + rest) == Some((c, 4))
  {
    var n := c as int;
    Base64Digits(n);
    var d3, d2, d1, d0 := n / 262144, (n / 4096) % 64, (n / 64) % 64, n % 64;
    assert n == d3 * 262144 + d2 * 4096 + d1 * 64 + d0;
    var b := EncodeChar(c) + rest;
    assert b[0] == 0xF0 + d3 && b[1] == 0x80 + d2 && b[2] == 0x80 + d1 && b[3] == 0x80 + d0;
  }

  /** Decoding inverts encoding: a label stored as the UTF-8 encoding of a
      string is read back as that string. */
  lemma {:induction false} DecodeEncode(s: string)
    ensures Decode(Encode(s)) == Some(s)
  {
    if s != [] {
      var e := EncodeChar(s[0]);
      DecodeFirstOfEncoding(s[0], Encode(s[1..]));
      assert Encode(s) == e + Encode(s[1..]);
      assert Encode(s)[|e|..] == Encode(s[1..]);
      DecodeEncode(s[1..]);
      assert [s[0]] + s[1..] == s;
    }
  }
}

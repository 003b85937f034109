/**
  UTF-8 as used by `Encoding.UTF8.GetBytes` and `Encoding.UTF8.GetString`.

  A Dafny `char` is a Unicode scalar value, so every string has an encoding.
  The decoder is total: an ill-formed sequence is replaced by U+FFFD, one
  replacement character per maximal subpart of a well-formed sequence
  (Unicode Standard, section 3.9, "U+FFFD Substitution of Maximal Subparts").
*/
module Utf8 {

  newtype Byte = b: int | 0 <= b < 256

  const Replacement: char := '\U{FFFD}'

  predicate IsScalar(n: int) {
    0 <= n < 0xD800 || 0xE000 <= n < 0x11_0000
  }

  predicate IsContinuation(b: Byte) {
    0x80 <= b < 0xC0
  }

  predicate IsAscii(b: Byte) {
    b < 0x80
  }

  /** The bytes of one scalar value: one byte for ASCII, two to four otherwise. */
  function EncodeScalar(c: char): (r: seq<Byte>)
    ensures 1 <= |r| <= 4
    ensures |r| == 1 <==> c as int < 0x80
    ensures |r| == 1 ==> r[0] as int == c as int
    ensures forall i :: 0 <= i < |r| && |r| > 1 ==> !IsAscii(r[i])
  {
    var n := c as int;
    if n < 0x80 then
      [n as Byte]
    else if n < 0x800 then
      [(0xC0 + n / 64) as Byte, (0x80 + n % 64) as Byte]
    else if n < 0x1_0000 then
      [(0xE0 + n / 4096) as Byte, (0x80 + n / 64 % 64) as Byte, (0x80 + n % 64) as Byte]
    else
      [(0xF0 + n / 0x4_0000) as Byte, (0x80 + n / 4096 % 64) as Byte,
       (0x80 + n / 64 % 64) as Byte, (0x80 + n % 64) as Byte]
  }

  /** `Encoding.UTF8.GetBytes`: the encodings of the characters, in order. */
  function Encode(s: string): seq<Byte>
  {
    if s == [] then [] else EncodeScalar(s[0]) + Encode(s[1..])
  }

  function Payload(b: Byte): int {
    b as int - 0x80
  }

  /**
    Decodes the first character of `s` and says how many bytes it took.
    Well-formed sequences follow Table 3-7 of the Unicode Standard; otherwise
    the maximal subpart is consumed and U+FFFD produced.
  */
  function DecodeFirst(s: seq<Byte>): (r: (char, nat))
    requires |s| > 0
    ensures 1 <= r.1 <= |s|
    ensures IsAscii(s[0]) ==> r == (s[0] as int as char, 1)
  {
    var b0 := s[0] as int;
    if b0 < 0x80 then
      (b0 as char, 1)
    else if 0xC2 <= b0 <= 0xDF then
      if |s| < 2 || !IsContinuation(s[1]) then (Replacement, 1)
      else (((b0 - 0xC0) * 64 + Payload(s[1])) as char, 2)
    else if 0xE0 <= b0 <= 0xEF then
      var lo := if b0 == 0xE0 then 0xA0 else 0x80;
      var hi := if b0 == 0xED then 0x9F else 0xBF;
      if |s| < 2 || !(lo <= s[1] as int <= hi) then (Replacement, 1)
      else if |s| < 3 || !IsContinuation(s[2]) then (Replacement, 2)
      else (((b0 - 0xE0) * 4096 + Payload(s[1]) * 64 + Payload(s[2])) as char, 3)
    else if 0xF0 <= b0 <= 0xF4 then
      var lo := if b0 == 0xF0 then 0x90 else 0x80;
      var hi := if b0 == 0xF4 then 0x8F else 0xBF;
      if |s| < 2 || !(lo <= s[1] as int <= hi) then (Replacement, 1)
      else if |s| < 3 || !IsContinuation(s[2]) then (Replacement, 2)
      else if |s| < 4 || !IsContinuation(s[3]) then (Replacement, 3)
      else (((b0 - 0xF0) * 0x4_0000 + Payload(s[1]) * 4096 + Payload(s[2]) * 64 + Payload(s[3])) as char, 4)
    else
      (Replacement, 1)
  }

  /** `Encoding.UTF8.GetString`. */
  function Decode(s: seq<Byte>): string
    decreases |s|
  {
    if s == [] then "" else
      var (c, n) := DecodeFirst(s);
      [c] + Decode(s[n..])
  }

  lemma DecodeTwoBytes(c: char, rest: seq<Byte>)
    requires 0x80 <= c as int < 0x800
    ensures DecodeFirst(EncodeScalar(c) + rest) == (c, 2)
  {
    var n := c as int;
    var s := EncodeScalar(c) + rest;
    assert s[0] as int == 0xC0 + n / 64 && s[1] as int == 0x80 + n % 64;
    assert (n / 64) * 64 + n % 64 == n;
  }

  lemma DecodeThreeBytes(c: char, rest: seq<Byte>)
    requires 0x800 <= c as int < 0x1_0000
    ensures DecodeFirst(EncodeScalar(c) + rest) == (c, 3)
  {
    var n := c as int;
    var s := EncodeScalar(c) + rest;
    var q := n / 64;
    assert s[0] as int == 0xE0 + n / 4096 && s[1] as int == 0x80 + q % 64 && s[2] as int == 0x80 + n % 64;
    assert q * 64 + n % 64 == n;
    assert (q / 64) * 64 + q % 64 == q;
    assert n / 4096 == q / 64;
    assert (n / 4096) * 4096 + (q % 64) * 64 + n % 64 == n;
  }

  lemma DecodeFourBytes(c: char, rest: seq<Byte>)
    requires 0x1_0000 <= c as int
    ensures DecodeFirst(EncodeScalar(c) + rest) == (c, 4)
  {
    var n := c as int;
    var s := EncodeScalar(c) + rest;
    var q := n / 64;
    var q2 := q / 64;
    assert q * 64 + n % 64 == n;
    assert q2 * 64 + q % 64 == q;
    assert (q2 / 64) * 64 + q2 % 64 == q2;
    assert n / 4096 == q2;
    assert n / 0x4_0000 == q2 / 64;
    assert s[0] as int == 0xF0 + q2 / 64 && s[1] as int == 0x80 + q2 % 64;
    assert s[2] as int == 0x80 + q % 64 && s[3] as int == 0x80 + n % 64;
    assert (q2 / 64) * 0x4_0000 + (q2 % 64) * 4096 + (q % 64) * 64 + n % 64 == n;
  }

  /** Decoding the encoding of one character gives it back and consumes exactly its bytes. */
  lemma DecodeFirstEncodeScalar(c: char, rest: seq<Byte>)
    ensures DecodeFirst(EncodeScalar(c) + rest) == (c, |EncodeScalar(c)|)
  {
    var n := c as int;
    if n < 0x80 {
    } else if n < 0x800 {
      DecodeTwoBytes(c, rest);
    } else if n < 0x1_0000 {
      DecodeThreeBytes(c, rest);
    } else {
      DecodeFourBytes(c, rest);
    }
  }

  /** At least one and at most four bytes per character. */
  lemma {:induction false} EncodeLength(s: string)
    ensures |s| <= |Encode(s)| <= 4 * |s|
  {
    if s != [] {
      EncodeLength(s[1..]);
    }
  }

  /** At most one character per byte, and none exactly for no bytes. */
  lemma {:induction false} DecodeLength(s: seq<Byte>)
    ensures |Decode(s)| <= |s|
    ensures Decode(s) == [] <==> s == []
    decreases |s|
  {
    if s != [] {
      DecodeLength(s[DecodeFirst(s).1..]);
    }
  }

  /** Encoding distributes over concatenation. */
  lemma {:induction false} EncodeAppend(a: string, b: string)
    ensures Encode(a + b) == Encode(a) + Encode(b)
  {
    if a == [] {
      assert a + b == b;
    } else {
      assert (a + b)[0] == a[0];
      assert (a + b)[1..] == a[1..] + b;
      EncodeAppend(a[1..], b);
    }
  }

  /** Round trip: `GetString(GetBytes(s)) == s` for every string. */
  lemma {:induction false} DecodeEncode(s: string)
    ensures Decode(Encode(s)) == s
  {
    if s != [] {
      var e := EncodeScalar(s[0]);
      DecodeFirstEncodeScalar(s[0], Encode(s[1..]));
      assert (e + Encode(s[1..]))[|e|..] == Encode(s[1..]);
      DecodeEncode(s[1..]);
    }
  }

  /** A prefix of the text encodes to the corresponding prefix of the bytes. */
  lemma EncodePrefix(s: string, k: nat)
    requires k <= |s|
    ensures Encode(s) == Encode(s[..k]) + Encode(s[k..])
  {
    assert s == s[..k] + s[k..];
    EncodeAppend(s[..k], s[k..]);
  }
}

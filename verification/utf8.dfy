/**
 * UTF-8 as Node's `Buffer` applies it: `Buffer.from(s)` encodes each code point in one
 * to four bytes, and `buf.toString()` decodes, replacing every maximal ill-formed
 * subsequence with U+FFFD (the WHATWG UTF-8 decoder).
 */
module Utf8 {
  import opened Bytes

  const Replacement: char := '\U{FFFD}'

  predicate IsContinuation(b: int) {
    0x80 <= b < 0xC0
  }

  /** The bytes of one code point. */
  function EncodeChar(c: char): (r: seq<Byte>)
    ensures 1 <= |r| <= 4
    ensures c as int < 0x80 <==> |r| == 1
    ensures |r| == 1 ==> r[0] == c as int
    ensures forall i :: 1 <= i < |r| ==> IsContinuation(r[i])
  {
    var cp := c as int;
    if cp < 0x80 then [cp]
    else if cp < 0x800 then [0xC0 + cp / 64, 0x80 + cp % 64]
    else if cp < 0x10000 then [0xE0 + cp / 4096, 0x80 + (cp / 64) % 64, 0x80 + cp % 64]
    else [0xF0 + cp / 262144, 0x80 + (cp / 4096) % 64, 0x80 + (cp / 64) % 64, 0x80 + cp % 64]
  }

  /** `Buffer.from(s)` */
  function Encode(s: string): (r: seq<Byte>)
    ensures |r| >= |s|
  {
    if |s| == 0 then [] else EncodeChar(s[0]) + Encode(s[1..])
  }

  /** Continuation bytes the lead byte `b` announces; 0 for a byte that cannot lead. */
  function Needed(b: Byte): (n: nat)
    ensures n <= 3
  {
    if 0xC2 <= b <= 0xDF then 1
    else if 0xE0 <= b <= 0xEF then 2
    else if 0xF0 <= b <= 0xF4 then 3
    else 0
  }

  /** The range the first continuation byte must lie in, excluding overlong forms, surrogates and values past U+10FFFF. */
  function FirstLower(b: Byte): int {
    if b == 0xE0 then 0xA0 else if b == 0xF0 then 0x90 else 0x80
  }

  function FirstUpper(b: Byte): int {
    if b == 0xED then 0x9F else if b == 0xF4 then 0x8F else 0xBF
  }

  /**
   * The character at the front of `bs` and the number of bytes it takes. An ill-formed
   * start gives U+FFFD and consumes the bytes that were still acceptable, at least one.
   */
  function DecodeOne(bs: seq<Byte>): (r: (char, nat))
    requires |bs| > 0
    ensures 1 <= r.1 <= |bs| && r.1 <= 4
    ensures bs[0] < 0x80 ==> r == (bs[0] as char, 1)
  {
    var b0: int := bs[0];
    var b1: int := if |bs| > 1 then bs[1] else 0;
    var b2: int := if |bs| > 2 then bs[2] else 0;
    var b3: int := if |bs| > 3 then bs[3] else 0;
    if b0 < 0x80 then (b0 as char, 1)
    else if Needed(b0) == 0 then (Replacement, 1)
    else if !(|bs| > 1 && FirstLower(b0) <= b1 <= FirstUpper(b0)) then (Replacement, 1)
    else if Needed(b0) == 1 then (((b0 - 0xC0) * 64 + (b1 - 0x80)) as char, 2)
    else if !(|bs| > 2 && IsContinuation(b2)) then (Replacement, 2)
    else if Needed(b0) == 2 then (((b0 - 0xE0) * 4096 + (b1 - 0x80) * 64 + (b2 - 0x80)) as char, 3)
    else if !(|bs| > 3 && IsContinuation(b3)) then (Replacement, 3)
    else (((b0 - 0xF0) * 262144 + (b1 - 0x80) * 4096 + (b2 - 0x80) * 64 + (b3 - 0x80)) as char, 4)
  }

  /** `buf.toString()` */
  function Decode(bs: seq<Byte>): (r: string)
    ensures |r| <= |bs|
    decreases |bs|
  {
    if |bs| == 0 then "" else
      var (c, n) := DecodeOne(bs);
      [c] + Decode(bs[n..])
  }

  /** The bytes of a character are read back as that character, whatever follows them. */
  lemma DecodeOneEncoded(c: char, rest: seq<Byte>)
    ensures DecodeOne(EncodeChar(c) + rest) == (c, |EncodeChar(c)|)
  {
    var cp := c as int;
    if cp < 0x80 {
    } else if cp < 0x800 {
      DecodeTwo(c, rest);
    } else if cp < 0x10000 {
      DecodeThree(c, rest);
    } else {
      DecodeFour(c, rest);
    }
  }

  lemma DecodeTwo(c: char, rest: seq<Byte>)
    requires 0x80 <= c as int < 0x800
    ensures DecodeOne(EncodeChar(c) + rest) == (c, 2)
  {
    var cp := c as int;
    var bs := EncodeChar(c) + rest;
    var hi, lo := cp / 64, cp % 64;
    assert bs[0] == 0xC0 + hi && bs[1] == 0x80 + lo;
    assert Needed(bs[0]) == 1;
    assert hi * 64 + lo == cp;
  }

  lemma DecodeThree(c: char, rest: seq<Byte>)
    requires 0x800 <= c as int < 0x10000
    ensures DecodeOne(EncodeChar(c) + rest) == (c, 3)
  {
    var cp := c as int;
    var bs := EncodeChar(c) + rest;
    var hi, mid, lo := cp / 4096, (cp / 64) % 64, cp % 64;
    assert bs[0] == 0xE0 + hi && bs[1] == 0x80 + mid && bs[2] == 0x80 + lo;
    assert hi * 64 + mid == cp / 64;
    assert (cp / 64) * 64 + lo == cp;
    assert hi * 4096 + mid * 64 + lo == cp;
    assert Needed(bs[0]) == 2;
    assert hi == 0 ==> mid >= 0x20;
    assert hi == 0xD ==> mid < 0x20;
  }

  lemma DecodeFour(c: char, rest: seq<Byte>)
    requires 0x10000 <= c as int
    ensures DecodeOne(EncodeChar(c) + rest) == (c, 4)
  {
    var cp := c as int;
    var bs := EncodeChar(c) + rest;
    var top, hi, mid, lo := cp / 262144, (cp / 4096) % 64, (cp / 64) % 64, cp % 64;
    assert bs[0] == 0xF0 + top && bs[1] == 0x80 + hi && bs[2] == 0x80 + mid && bs[3] == 0x80 + lo;
    assert top * 64 + hi == cp / 4096;
    assert (cp / 4096) * 64 + mid == cp / 64;
    assert (cp / 64) * 64 + lo == cp;
    assert top * 262144 + hi * 4096 + mid * 64 + lo == cp;
    assert Needed(bs[0]) == 3;
    assert top == 0 ==> hi >= 0x10;
    assert top == 4 ==> hi < 0x10;
  }

  /** Decoding what `Buffer.from` encoded gives the string back. */
  lemma {:induction false} DecodeEncode(s: string)
    ensures Decode(Encode(s)) == s
  {
    if |s| > 0 {
      var e := EncodeChar(s[0]);
      DecodeOneEncoded(s[0], Encode(s[1..]));
      assert (e + Encode(s[1..]))[|e|..] == Encode(s[1..]);
      DecodeEncode(s[1..]);
    }
  }

  /** For ASCII text both directions are the identity on character codes. */
  lemma {:induction false} EncodeAscii(s: string)
    requires IsAscii(s)
    ensures Encode(s) == AsciiBytes(s)
  {
    if |s| > 0 {
      EncodeAscii(s[1..]);
    }
  }

  lemma {:induction false} DecodeAscii(s: string)
    requires IsAscii(s)
    ensures Decode(AsciiBytes(s)) == s
  {
    if |s| > 0 {
      var bs := AsciiBytes(s);
      assert bs[1..] == AsciiBytes(s[1..]);
      DecodeAscii(s[1..]);
    }
  }
}

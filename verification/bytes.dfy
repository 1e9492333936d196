/**
 * Octets, and Node's `buf.toString('ascii')`, which keeps the low seven bits of each byte.
 */
module Bytes {
  type Byte = b: int | 0 <= b < 256

  predicate IsAsciiChar(c: char) {
    c as int < 0x80
  }

  predicate IsAscii(s: string) {
    forall i :: 0 <= i < |s| ==> IsAsciiChar(s[i])
  }

  /** `buf.toString('ascii')`: every byte gives one character, its top bit cleared. */
  function AsciiDecode(bs: seq<Byte>): (r: string)
    ensures |r| == |bs| && IsAscii(r)
    ensures forall i :: 0 <= i < |bs| ==> r[i] as int == bs[i] % 0x80
  {
    if |bs| == 0 then "" else [(bs[0] % 0x80) as char] + AsciiDecode(bs[1..])
  }

  /** The byte codes of a string of ASCII characters. */
  function AsciiBytes(s: string): (r: seq<Byte>)
    requires IsAscii(s)
    ensures |r| == |s| && forall i :: 0 <= i < |s| ==> r[i] == s[i] as int
  {
    if |s| == 0 then [] else [s[0] as int] + AsciiBytes(s[1..])
  }

  /** Reading ASCII bytes back as ASCII gives the string they were made from. */
  lemma {:induction false} AsciiRoundTrip(s: string)
    requires IsAscii(s)
    ensures AsciiDecode(AsciiBytes(s)) == s
  {
    if |s| > 0 {
      var bs := AsciiBytes(s);
      assert bs[1..] == AsciiBytes(s[1..]);
      AsciiRoundTrip(s[1..]);
    }
  }
}

/**
 * `encodeURIComponent` and `decodeURIComponent` (ECMA-262, sections 19.2.6.1 to 19.2.6.5):
 * every character outside the unreserved set is written as the percent-escapes of its
 * UTF-8 bytes, and decoding reverses that, throwing `URIError` on a malformed escape or
 * an invalid UTF-8 sequence. Strings here are sequences of code points, so the lone
 * surrogates `encodeURIComponent` rejects cannot occur.
 */
module UriComponent {
  import opened Wrappers
  import opened Bytes
  import Utf8

  /** uriAlpha, DecimalDigit and uriMark: the characters `encodeURIComponent` keeps. */
  predicate IsUnreserved(c: char) {
    ('a' <= c <= 'z') || ('A' <= c <= 'Z') || ('0' <= c <= '9')
    || c == '-' || c == '_' || c == '.' || c == '!' || c == '~' || c == '*' || c == '\'' || c == '(' || c == ')'
  }

  predicate IsHex(c: char) {
    ('0' <= c <= '9') || ('a' <= c <= 'f') || ('A' <= c <= 'F')
  }

  function HexValue(c: char): (v: nat)
    requires IsHex(c)
    ensures v < 16
  {
    if '0' <= c <= '9' then c as int - '0' as int
    else if 'a' <= c <= 'f' then c as int - 'a' as int + 10
    else c as int - 'A' as int + 10
  }

  /** The upper-case hexadecimal digit the encoder writes. */
  function HexDigit(v: nat): (c: char)
    requires v < 16
    ensures IsHex(c) && IsUnreserved(c) && HexValue(c) == v
  {
    if v < 10 then ('0' as int + v) as char else ('A' as int + v - 10) as char
  }

  /** `%XY` for one byte. */
  function Escape(b: Byte): (r: string)
    ensures |r| == 3 && r[0] == '%'
  {
    ['%', HexDigit(b / 16), HexDigit(b % 16)]
  }

  function Escapes(bs: seq<Byte>): (r: string)
    ensures |r| == 3 * |bs|
  {
    if |bs| == 0 then "" else Escape(bs[0]) + Escapes(bs[1..])
  }

  function EncodeChar(c: char): (r: string)
  {
    if IsUnreserved(c) then [c] else Escapes(Utf8.EncodeChar(c))
  }

  /** `encodeURIComponent(s)` */
  function Encode(s: string): (r: string)
    ensures forall i :: 0 <= i < |r| ==> IsUnreserved(r[i]) || r[i] == '%'
  {
    if |s| == 0 then "" else
      var e := EncodeChar(s[0]);
      assert forall i :: 0 <= i < |e| ==> IsUnreserved(e[i]) || e[i] == '%' by {
        if !IsUnreserved(s[0]) { EscapesAlphabet(Utf8.EncodeChar(s[0])); }
      }
      e + Encode(s[1..])
  }

  lemma {:induction false} EscapesAlphabet(bs: seq<Byte>)
    ensures forall i :: 0 <= i < |Escapes(bs)| ==> IsUnreserved(Escapes(bs)[i]) || Escapes(bs)[i] == '%'
  {
    if |bs| > 0 {
      EscapesAlphabet(bs[1..]);
      var e, t := Escape(bs[0]), Escapes(bs[1..]);
      assert Escapes(bs) == e + t;
      forall i | 0 <= i < |e + t| ensures IsUnreserved((e + t)[i]) || (e + t)[i] == '%' {
        if i >= 3 { assert (e + t)[i] == t[i - 3]; }
      }
    }
  }

  /** The number of leading one bits of a byte: the length a UTF-8 lead byte announces. */
  function LeadingOnes(b: Byte): (n: nat)
    ensures n <= 8
  {
    if b < 0x80 then 0 else if b < 0xC0 then 1 else if b < 0xE0 then 2
    else if b < 0xF0 then 3 else if b < 0xF8 then 4 else if b < 0xFC then 5
    else if b < 0xFE then 6 else if b < 0xFF then 7 else 8
  }

  /** The byte of the escape at position `i`, when a well-formed escape stands there. */
  function EscapedByte(s: string, i: nat): (r: Option<Byte>)
  {
    if i + 3 <= |s| && s[i] == '%' && IsHex(s[i + 1]) && IsHex(s[i + 2]) then
      Some(HexValue(s[i + 1]) * 16 + HexValue(s[i + 2]))
    else None
  }

  /** The bytes of `n` consecutive escapes at the start of `s`. */
  function EscapedBytes(s: string, n: nat): (r: Option<seq<Byte>>)
    ensures r.Some? ==> |r.value| == n && 3 * n <= |s|
  {
    if n == 0 then Some([])
    else match EscapedByte(s, 0)
      case None => None
      case Some(b) =>
        match EscapedBytes(s[3..], n - 1)
        case None => None
        case Some(bs) => Some([b] + bs)
  }

  /**
   * The character an escape sequence at the start of `s` stands for, with the number of
   * characters it spans; `None` where `decodeURIComponent` throws.
   */
  function DecodeEscape(s: string): (r: Option<(char, nat)>)
    ensures r.Some? ==> 3 <= r.value.1 <= |s|
  {
    match EscapedByte(s, 0)
    case None => None
    case Some(b) =>
      if b < 0x80 then Some((b as char, 3))
      else
        var n := LeadingOnes(b);
        if n < 2 || n > 4 then None
        else match EscapedBytes(s, n)
          case None => None
          case Some(octets) =>
            var d := Utf8.DecodeOne(octets);
            if d.1 == n then Some((d.0, 3 * n)) else None
  }

  /** `decodeURIComponent(s)`; `Failure` is the `URIError` it throws. */
  function Decode(s: string): (r: Result<string, string>)
    decreases |s|
  {
    if |s| == 0 then Success("")
    else if s[0] != '%' then
      match Decode(s[1..])
      case Success(t) => Success([s[0]] + t)
      case Failure(e) => Failure(e)
    else match DecodeEscape(s)
      case None => Failure("URIError: URI malformed")
      case Some((c, k)) =>
        match Decode(s[k..])
        case Success(t) => Success([c] + t)
        case Failure(e) => Failure(e)
  }

  /** A colon is always escaped, so an encoded component never contains one. */
  lemma NoColon(s: string)
    ensures ':' !in Encode(s)
  {
  }

  /** The encoding is plain ASCII. */
  lemma EncodeIsAscii(s: string)
    ensures IsAscii(Encode(s))
  {
  }

  lemma EscapedByteOf(b: Byte, rest: string)
    ensures EscapedByte(Escape(b) + rest, 0) == Some(b)
  {
    var s := Escape(b) + rest;
    assert s[1] == HexDigit(b / 16) && s[2] == HexDigit(b % 16);
  }

  lemma {:induction false} EscapedBytesOf(bs: seq<Byte>, rest: string)
    ensures EscapedBytes(Escapes(bs) + rest, |bs|) == Some(bs)
  {
    if |bs| > 0 {
      var s := Escapes(bs) + rest;
      assert s == Escape(bs[0]) + (Escapes(bs[1..]) + rest);
      EscapedByteOf(bs[0], Escapes(bs[1..]) + rest);
      assert s[3..] == Escapes(bs[1..]) + rest;
      EscapedBytesOf(bs[1..], rest);
      assert [bs[0]] + bs[1..] == bs;
    }
  }

  /** The escapes of a character's UTF-8 bytes decode to that character. */
  lemma DecodeEscapeOf(c: char, rest: string)
    requires !IsUnreserved(c)
    ensures DecodeEscape(EncodeChar(c) + rest) == Some((c, |EncodeChar(c)|))
  {
    var bs := Utf8.EncodeChar(c);
    var s := Escapes(bs) + rest;
    assert s == Escape(bs[0]) + (Escapes(bs[1..]) + rest);
    EscapedByteOf(bs[0], Escapes(bs[1..]) + rest);
    if bs[0] >= 0x80 {
      EscapedBytesOf(bs, rest);
      Utf8.DecodeOneEncoded(c, []);
      assert bs + [] == bs;
      assert LeadingOnes(bs[0]) == |bs| by { LeadByte(c); }
    }
  }

  lemma LeadByte(c: char)
    requires c as int >= 0x80
    ensures LeadingOnes(Utf8.EncodeChar(c)[0]) == |Utf8.EncodeChar(c)|
  {
  }

  /** `decodeURIComponent(encodeURIComponent(s))` is `s`. */
  lemma {:induction false} DecodeEncode(s: string)
    ensures Decode(Encode(s)) == Success(s)
  {
    if |s| > 0 {
      var e := EncodeChar(s[0]);
      var r := Encode(s);
      assert r == e + Encode(s[1..]);
      DecodeEncode(s[1..]);
      if IsUnreserved(s[0]) {
        assert r[1..] == Encode(s[1..]);
      } else {
        DecodeEscapeOf(s[0], Encode(s[1..]));
        assert |Utf8.EncodeChar(s[0])| > 0;
        assert r[0] == e[0] == '%';
        assert r[|e|..] == Encode(s[1..]);
        assert DecodeEscape(r) == Some((s[0], |e|));
        assert Decode(r) == Success([s[0]] + s[1..]);
      }
      assert [s[0]] + s[1..] == s;
    }
  }
}

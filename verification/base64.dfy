/**
 * Base 64 as Node's `Buffer` writes and reads it: `buf.toString('base64')` is the
 * padded encoding of section 4 of RFC 4648, and `Buffer.from(s, 'base64')` is lenient:
 * characters outside the alphabet are skipped, the URL-safe letters `-` and `_` are
 * accepted for 62 and 63, and reading stops at the first `=`.
 */
module Base64 {
  import opened Wrappers
  import opened Bytes

  type Sextet = v: int | 0 <= v < 64

  /** The character of a 6-bit value in the alphabet of RFC 4648, section 4, Table 1. */
  function Letter(v: Sextet): (c: char)
    ensures c != '='
  {
    if v < 26 then ('A' as int + v) as char
    else if v < 52 then ('a' as int + (v - 26)) as char
    else if v < 62 then ('0' as int + (v - 52)) as char
    else if v == 62 then '+'
    else '/'
  }

  /** The value the decoder gives a character; `None` for a character it skips. */
  function ValueOf(c: char): (r: Option<Sextet>)
    ensures c == '=' ==> r.None?
  {
    if 'A' <= c <= 'Z' then Some(c as int - 'A' as int)
    else if 'a' <= c <= 'z' then Some(c as int - 'a' as int + 26)
    else if '0' <= c <= '9' then Some(c as int - '0' as int + 52)
    else if c == '+' || c == '-' then Some(62)
    else if c == '/' || c == '_' then Some(63)
    else None
  }

  lemma ValueOfLetter(v: Sextet)
    ensures ValueOf(Letter(v)) == Some(v)
  {
  }

  /** Three bytes as four characters. */
  function Quad(a: Byte, b: Byte, c: Byte): (r: string)
    ensures |r| == 4 && '=' !in r
  {
    [Letter(a / 4), Letter((a % 4) * 16 + b / 16), Letter((b % 16) * 4 + c / 64), Letter(c % 64)]
  }

  /** `buf.toString('base64')`: full groups, then a final group padded with `=`. */
  function Encode(bs: seq<Byte>): (r: string)
    ensures |r| == 4 * ((|bs| + 2) / 3)
    ensures forall i :: 0 <= i < |r| && r[i] == '=' ==> i >= |r| - 2 && |bs| % 3 != 0
    decreases |bs|
  {
    if |bs| == 0 then ""
    else if |bs| == 1 then [Letter(bs[0] / 4), Letter((bs[0] % 4) * 16), '=', '=']
    else if |bs| == 2 then [Letter(bs[0] / 4), Letter((bs[0] % 4) * 16 + bs[1] / 16), Letter((bs[1] % 16) * 4), '=']
    else Quad(bs[0], bs[1], bs[2]) + Encode(bs[3..])
  }

  /** The values of the characters the decoder keeps: alphabet letters before the first `=`. */
  function Values(s: string): (r: seq<Sextet>)
    ensures |r| <= |s|
  {
    if |s| == 0 || s[0] == '=' then []
    else match ValueOf(s[0])
      case Some(v) => [v] + Values(s[1..])
      case None => Values(s[1..])
  }

  /** Every four values give three bytes; a final two or three give one or two; a single value gives none. */
  function BytesOf(vs: seq<Sextet>): (r: seq<Byte>)
    ensures |r| == (|vs| / 4) * 3 + (if |vs| % 4 >= 2 then |vs| % 4 - 1 else 0)
  {
    if |vs| < 2 then []
    else
      var v0: int, v1: int := vs[0], vs[1];
      var v2: int := if |vs| > 2 then vs[2] else 0;
      var v3: int := if |vs| > 3 then vs[3] else 0;
      if |vs| == 2 then [v0 * 4 + v1 / 16]
      else if |vs| == 3 then [v0 * 4 + v1 / 16, (v1 % 16) * 16 + v2 / 4]
      else [v0 * 4 + v1 / 16, (v1 % 16) * 16 + v2 / 4, (v2 % 4) * 64 + v3] + BytesOf(vs[4..])
  }

  /** `Buffer.from(s, 'base64')` */
  function Decode(s: string): (r: seq<Byte>)
  {
    BytesOf(Values(s))
  }

  /** Letters of the alphabet are all kept, in order. */
  lemma {:induction false} ValuesOfLetters(t: string, rest: string)
    requires forall i :: 0 <= i < |t| ==> ValueOf(t[i]).Some? && t[i] != '='
    ensures Values(t + rest) == LettersValues(t) + Values(rest)
  {
    if |t| > 0 {
      var tr := t + rest;
      assert tr[0] == t[0] && tr[0] != '=';
      assert tr[1..] == t[1..] + rest;
      ValuesOfLetters(t[1..], rest);
      assert Values(tr) == [ValueOf(t[0]).value] + Values(tr[1..]);
      assert LettersValues(t) == [ValueOf(t[0]).value] + LettersValues(t[1..]);
    } else {
      assert t + rest == rest;
    }
  }

  function LettersValues(t: string): (r: seq<Sextet>)
    requires forall i :: 0 <= i < |t| ==> ValueOf(t[i]).Some?
    ensures |r| == |t| && forall i :: 0 <= i < |t| ==> Some(r[i]) == ValueOf(t[i])
  {
    if |t| == 0 then [] else [ValueOf(t[0]).value] + LettersValues(t[1..])
  }

  /** The values the decoder reads from the encoding: four per full group of bytes. */
  function Sextets(bs: seq<Byte>): (r: seq<Sextet>)
    decreases |bs|
  {
    if |bs| == 0 then []
    else if |bs| == 1 then [bs[0] / 4, (bs[0] % 4) * 16]
    else if |bs| == 2 then [bs[0] / 4, (bs[0] % 4) * 16 + bs[1] / 16, (bs[1] % 16) * 4]
    else [bs[0] / 4, (bs[0] % 4) * 16 + bs[1] / 16, (bs[1] % 16) * 4 + bs[2] / 64, bs[2] % 64] + Sextets(bs[3..])
  }

  lemma {:induction false} ValuesOfEncode(bs: seq<Byte>)
    ensures Values(Encode(bs)) == Sextets(bs)
    decreases |bs|
  {
    if |bs| == 1 {
      ValuesOfOne(bs);
    } else if |bs| == 2 {
      ValuesOfTwo(bs);
    } else if |bs| >= 3 {
      var q := Quad(bs[0], bs[1], bs[2]);
      QuadValues(bs[0], bs[1], bs[2]);
      ValuesOfLetters(q, Encode(bs[3..]));
      ValuesOfEncode(bs[3..]);
    }
  }

  /** The decoder reads back the four values of a group. */
  lemma QuadValues(a: Byte, b: Byte, c: Byte)
    ensures var q := Quad(a, b, c);
      && (forall i :: 0 <= i < |q| ==> ValueOf(q[i]).Some? && q[i] != '=')
      && LettersValues(q) == [a / 4, (a % 4) * 16 + b / 16, (b % 16) * 4 + c / 64, c % 64]
  {
    ValueOfLetter(a / 4);
    ValueOfLetter((a % 4) * 16 + b / 16);
    ValueOfLetter((b % 16) * 4 + c / 64);
    ValueOfLetter(c % 64);
  }

  /** One byte: two letters and two `=`, of which the decoder keeps the letters. */
  lemma ValuesOfOne(bs: seq<Byte>)
    requires |bs| == 1
    ensures Values(Encode(bs)) == Sextets(bs)
  {
    var v0, v1 := bs[0] / 4, (bs[0] % 4) * 16;
    var t := [Letter(v0), Letter(v1)];
    ValueOfLetter(v0);
    ValueOfLetter(v1);
    assert Encode(bs) == t + "==";
    ValuesOfLetters(t, "==");
    assert LettersValues(t) == [v0, v1];
  }

  /** Two bytes: three letters and one `=`, of which the decoder keeps the letters. */
  lemma ValuesOfTwo(bs: seq<Byte>)
    requires |bs| == 2
    ensures Values(Encode(bs)) == Sextets(bs)
  {
    var v0, v1, v2 := bs[0] / 4, (bs[0] % 4) * 16 + bs[1] / 16, (bs[1] % 16) * 4;
    var t := [Letter(v0), Letter(v1), Letter(v2)];
    ValueOfLetter(v0);
    ValueOfLetter(v1);
    ValueOfLetter(v2);
    assert Encode(bs) == t + "=";
    ValuesOfLetters(t, "=");
    assert LettersValues(t) == [v0, v1, v2];
  }

  /** The four values of a group give back its three bytes. */
  lemma GroupBytes(a: Byte, b: Byte, c: Byte)
    ensures var v0, v1, v2, v3 := a / 4, (a % 4) * 16 + b / 16, (b % 16) * 4 + c / 64, c % 64;
      v0 * 4 + v1 / 16 == a && (v1 % 16) * 16 + v2 / 4 == b && (v2 % 4) * 64 + v3 == c
  {
  }

  lemma {:induction false} BytesOfSextets(bs: seq<Byte>)
    ensures BytesOf(Sextets(bs)) == bs
    decreases |bs|
  {
    if |bs| >= 3 {
      GroupBytes(bs[0], bs[1], bs[2]);
      var vs := Sextets(bs);
      assert vs[4..] == Sextets(bs[3..]);
      BytesOfSextets(bs[3..]);
      assert bs == bs[..3] + bs[3..];
    } else if |bs| == 2 {
      GroupBytes(bs[0], bs[1], 0);
    } else if |bs| == 1 {
      GroupBytes(bs[0], 0, 0);
    }
  }

  /** Decoding the encoding of any bytes gives them back. */
  lemma DecodeEncode(bs: seq<Byte>)
    ensures Decode(Encode(bs)) == bs
  {
    ValuesOfEncode(bs);
    BytesOfSextets(bs);
  }

  /** Encodings of whole groups concatenate: the base of chunked encoding. */
  lemma {:induction false} EncodeAppend(a: seq<Byte>, b: seq<Byte>)
    requires |a| % 3 == 0
    ensures Encode(a + b) == Encode(a) + Encode(b)
    decreases |a|
  {
    if |a| > 0 {
      var ab := a + b;
      assert ab[3..] == a[3..] + b;
      assert ab[0] == a[0] && ab[1] == a[1] && ab[2] == a[2];
      EncodeAppend(a[3..], b);
      assert Encode(ab) == Quad(a[0], a[1], a[2]) + Encode(a[3..] + b);
      assert Encode(a) == Quad(a[0], a[1], a[2]) + Encode(a[3..]);
    } else {
      assert a + b == b;
    }
  }
}

/**
 * The stored form of registry credentials: the user name and the password, each
 * percent-encoded, joined by a colon, and written in base 64.
 */
module Credentials {
  import opened Wrappers
  import opened Bytes
  import opened JsString
  import Utf8
  import Base64
  import UriComponent

  datatype Decoded = Decoded(username: string, password: string)

  /** The text that is base-64 encoded: both parts escaped, with one colon between them. */
  function Raw(username: string, password: string): (r: string)
    ensures IsAscii(r)
  {
    UriComponent.EncodeIsAscii(username);
    UriComponent.EncodeIsAscii(password);
    UriComponent.Encode(username) + ":" + UriComponent.Encode(password)
  }

  /** `encodeCredentials(username, password)` */
  function EncodeCredentials(username: string, password: string): (r: string)
    ensures |r| % 4 == 0
  {
    Base64.Encode(Utf8.Encode(Raw(username, password)))
  }

  /** The text `decodeCredentials` splits: the base-64 bytes read as ASCII. */
  function DecodedText(str: string): (r: string)
    ensures IsAscii(r)
  {
    AsciiDecode(Base64.Decode(str))
  }

  /**
   * `decodeCredentials(str)`: the first two colon-separated pieces, unescaped. A missing
   * second piece is `undefined`, which `decodeURIComponent` turns into the text
   * "undefined". `Failure` is the `URIError` of a malformed escape.
   */
  function DecodeCredentials(str: string): (r: Result<Decoded, string>)
    ensures var parts := Split(DecodedText(str), ':');
      r.Success? <==> UriComponent.Decode(parts[0]).Success? && UriComponent.Decode(if |parts| > 1 then parts[1] else "undefined").Success?
  {
    var parts := Split(DecodedText(str), ':');
    var username :- UriComponent.Decode(parts[0]);
    var password :- UriComponent.Decode(if |parts| > 1 then parts[1] else "undefined");
    Success(Decoded(username, password))
  }

  /** The stored text has exactly one colon, between the two escaped parts. */
  lemma RawSplits(username: string, password: string)
    ensures Split(Raw(username, password), ':') == [UriComponent.Encode(username), UriComponent.Encode(password)]
    ensures SplitCount(Raw(username, password), ':') == 2
  {
    var u, p := UriComponent.Encode(username), UriComponent.Encode(password);
    UriComponent.NoColon(username);
    UriComponent.NoColon(password);
    assert Raw(username, password) == u + [':'] + p;
    SplitAt(u, ':', p);
    SplitCountAt(u, ':', p);
  }

  lemma {:induction false} SplitCountAt(a: string, c: char, b: string)
    requires c !in a && c !in b
    ensures SplitCount(a + [c] + b, c) == 2
  {
    if |a| > 0 {
      assert (a + [c] + b)[1..] == a[1..] + [c] + b;
      SplitCountAt(a[1..], c, b);
    } else {
      assert (a + [c] + b)[1..] == b;
      NoSeparator(b, c);
    }
  }

  lemma {:induction false} NoSeparator(s: string, c: char)
    requires c !in s
    ensures SplitCount(s, c) == 1
  {
    if |s| > 0 {
      NoSeparator(s[1..], c);
    }
  }

  /** The stored text comes back out of the base-64 form unchanged. */
  lemma TextOfEncoded(username: string, password: string)
    ensures DecodedText(EncodeCredentials(username, password)) == Raw(username, password)
  {
    var raw := Raw(username, password);
    Utf8.EncodeAscii(raw);
    Base64.DecodeEncode(AsciiBytes(raw));
    AsciiRoundTrip(raw);
  }

  /** Decoding what was encoded gives both parts back, whatever characters they hold. */
  lemma RoundTrip(username: string, password: string)
    ensures DecodeCredentials(EncodeCredentials(username, password)) == Success(Decoded(username, password))
  {
    TextOfEncoded(username, password);
    RawSplits(username, password);
    UriComponent.DecodeEncode(username);
    UriComponent.DecodeEncode(password);
  }

  /** Text without a colon decodes to the password "undefined". */
  lemma NoColonPassword(str: string)
    requires ':' !in DecodedText(str)
    requires UriComponent.Decode(DecodedText(str)).Success?
    ensures DecodeCredentials(str).Success?
    ensures DecodeCredentials(str).value == Decoded(UriComponent.Decode(DecodedText(str)).value, "undefined")
  {
    assert UriComponent.Decode("undefined") == Success("undefined") by {
      PlainDecodes("undefined");
    }
  }

  /** Text without `%` decodes to itself. */
  lemma {:induction false} PlainDecodes(s: string)
    requires '%' !in s
    ensures UriComponent.Decode(s) == Success(s)
  {
    if |s| > 0 {
      PlainDecodes(s[1..]);
      assert [s[0]] + s[1..] == s;
    }
  }

  /** Pieces after the second colon are ignored. */
  lemma ExtraPiecesIgnored(long: string, short: string, a: string, b: string, rest: string)
    requires ':' !in a && ':' !in b
    requires DecodedText(long) == a + ":" + b + ":" + rest
    requires DecodedText(short) == a + ":" + b
    ensures DecodeCredentials(long) == DecodeCredentials(short)
  {
    LongPieces(a, b, rest);
    SplitPair(a, ':', b);
    SameLeadingPieces(long, short);
  }

  lemma LongPieces(a: string, b: string, rest: string)
    requires ':' !in a && ':' !in b
    ensures var parts := Split(a + ":" + b + ":" + rest, ':');
      |parts| > 1 && parts[0] == a && parts[1] == b
  {
    var tail := b + [':'] + rest;
    assert a + ":" + b + ":" + rest == a + [':'] + tail;
    SplitAt(a, ':', tail);
    SplitAt(b, ':', rest);
  }

  /** Only the first two pieces of the decoded text matter. */
  lemma SameLeadingPieces(x: string, y: string)
    requires var px, py := Split(DecodedText(x), ':'), Split(DecodedText(y), ':');
      |px| > 1 && |py| > 1 && px[0] == py[0] && px[1] == py[1]
    ensures DecodeCredentials(x) == DecodeCredentials(y)
  {
  }

  /** The worked example: `foo` and `bar` are stored as `Zm9vOmJhcg==`. */
  lemma FooBar()
    ensures EncodeCredentials("foo", "bar") == "Zm9vOmJhcg=="
    ensures DecodeCredentials("Zm9vOmJhcg==") == Success(Decoded("foo", "bar"))
  {
    FooBarRaw();
    Utf8.EncodeAscii("foo:bar");
    FooBarBase64();
    RoundTrip("foo", "bar");
  }

  lemma FooBarRaw()
    ensures Raw("foo", "bar") == "foo:bar"
  {
    PlainEncodes("foo");
    PlainEncodes("bar");
  }

  /** Text made of unreserved characters is its own encoding. */
  lemma {:induction false} PlainEncodes(s: string)
    requires forall i :: 0 <= i < |s| ==> UriComponent.IsUnreserved(s[i])
    ensures UriComponent.Encode(s) == s
  {
    if |s| > 0 {
      PlainEncodes(s[1..]);
      assert [s[0]] + s[1..] == s;
    }
  }

  lemma FooBarBase64()
    ensures Base64.Encode(AsciiBytes("foo:bar")) == "Zm9vOmJhcg=="
  {
    var bs := AsciiBytes("foo:bar");
    assert bs == [102, 111, 111, 58, 98, 97, 114];
    assert bs[3..][3..] == [114];
    assert Base64.Encode([114]) == "cg==";
    assert Base64.Quad(58, 98, 97) == "OmJh";
    assert Base64.Quad(102, 111, 111) == "Zm9v";
  }
}

/**
 * The `data` field of the publish body: the gzipped tarball arrives in chunks of any
 * size, and each chunk is written in base 64 as soon as it arrives. Only whole groups of
 * three bytes are encoded; the one or two bytes left over are carried into the next
 * chunk, and whatever is left at the end is encoded, with padding, as a last piece.
 */
module PublishStream {
  import opened Bytes
  import Base64

  /** The chunks one after another. */
  function Flatten(chunks: seq<seq<Byte>>): (r: seq<Byte>)
  {
    if |chunks| == 0 then [] else Flatten(chunks[..|chunks| - 1]) + chunks[|chunks| - 1]
  }

  /** The pieces of text one after another. */
  function Concat(pieces: seq<string>): (r: string)
  {
    if |pieces| == 0 then "" else Concat(pieces[..|pieces| - 1]) + pieces[|pieces| - 1]
  }

  /**
   * The base-64 pieces the publish stream yields for the tarball chunks, and the
   * `bufferLength` it reports: the pieces together are the base-64 encoding of the whole
   * tarball, every piece but a final one has no padding, and the length is the length of
   * all the text.
   */
  method EncodeChunks(chunks: seq<seq<Byte>>) returns (pieces: seq<string>, bufferLength: nat)
    ensures Concat(pieces) == Base64.Encode(Flatten(chunks))
    ensures bufferLength == |Concat(pieces)| == 4 * ((|Flatten(chunks)| + 2) / 3)
    ensures |pieces| == |chunks| + (if |Flatten(chunks)| % 3 == 0 then 0 else 1)
    ensures forall k :: 0 <= k < |chunks| ==> Unpadded(pieces[k])
  {
    pieces, bufferLength := [], 0;
    var extraBytes: seq<Byte> := [];
    ghost var emitted: seq<Byte> := [];
    var i := 0;
    while i < |chunks|
      invariant 0 <= i <= |chunks| && |pieces| == i
      invariant |extraBytes| < 3 && |emitted| % 3 == 0
      invariant Flatten(chunks[..i]) == emitted + extraBytes
      invariant Concat(pieces) == Base64.Encode(emitted)
      invariant bufferLength == |Concat(pieces)|
      invariant forall k :: 0 <= k < i ==> Unpadded(pieces[k])
    {
      var (whole, rest) := WholeGroups(extraBytes + chunks[i]);
      Advance(chunks, i, emitted, extraBytes, pieces, whole, rest);
      var base64 := Base64.Encode(whole);
      extraBytes := rest;
      emitted := emitted + whole;
      pieces := pieces + [base64];
      bufferLength := bufferLength + |base64|;
      i := i + 1;
    }
    assert chunks[..i] == chunks;
    Finish(chunks, emitted, extraBytes, pieces);
    if |extraBytes| > 0 {
      var base64 := Base64.Encode(extraBytes);
      pieces := pieces + [base64];
      bufferLength := bufferLength + |base64|;
    }
  }

  /** Whole groups of bytes: no padding, whole groups of characters. */
  predicate Unpadded(piece: string) {
    '=' !in piece && |piece| % 4 == 0
  }

  /** The bytes read so far are the bytes encoded so far and the bytes carried. */
  lemma FlattenAdvance(chunks: seq<seq<Byte>>, i: nat, emitted: seq<Byte>, extra: seq<Byte>, whole: seq<Byte>, rest: seq<Byte>)
    requires i < |chunks|
    requires extra + chunks[i] == whole + rest
    requires Flatten(chunks[..i]) == emitted + extra
    ensures Flatten(chunks[..i + 1]) == (emitted + whole) + rest
  {
    FlattenSnoc(chunks, i);
    calc {
      Flatten(chunks[..i + 1]);
      Flatten(chunks[..i]) + chunks[i];
      (emitted + extra) + chunks[i];
      { assert (emitted + extra) + chunks[i] == emitted + (extra + chunks[i]); }
      emitted + (whole + rest);
      { assert emitted + (whole + rest) == (emitted + whole) + rest; }
      (emitted + whole) + rest;
    }
  }

  /** One chunk handled: the loop's facts hold again with the whole groups emitted. */
  lemma Advance(chunks: seq<seq<Byte>>, i: nat, emitted: seq<Byte>, extra: seq<Byte>, pieces: seq<string>,
                whole: seq<Byte>, rest: seq<Byte>)
    requires i < |chunks|
    requires |emitted| % 3 == 0
    requires Flatten(chunks[..i]) == emitted + extra
    requires Concat(pieces) == Base64.Encode(emitted)
    requires whole + rest == extra + chunks[i] && |whole| % 3 == 0
    ensures |emitted + whole| % 3 == 0
    ensures Flatten(chunks[..i + 1]) == (emitted + whole) + rest
    ensures Concat(pieces + [Base64.Encode(whole)]) == Base64.Encode(emitted + whole)
    ensures Unpadded(Base64.Encode(whole))
    ensures (pieces + [Base64.Encode(whole)])[..|pieces|] == pieces
  {
    FlattenAdvance(chunks, i, emitted, extra, whole, rest);
    SumOfGroups(emitted, whole);
    Base64.EncodeAppend(emitted, whole);
    ConcatSnoc(pieces, Base64.Encode(whole));
    EncodeUnpadded(whole);
  }

  /**
   * The last step: the bytes still carried are encoded, with padding, as one more piece,
   * and there are bytes carried exactly when the tarball is not whole groups of three.
   */
  lemma Finish(chunks: seq<seq<Byte>>, emitted: seq<Byte>, extra: seq<Byte>, pieces: seq<string>)
    requires |extra| < 3 && |emitted| % 3 == 0
    requires Flatten(chunks) == emitted + extra
    requires Concat(pieces) == Base64.Encode(emitted)
    ensures var last := if |extra| > 0 then pieces + [Base64.Encode(extra)] else pieces;
      && Concat(last) == Base64.Encode(Flatten(chunks))
      && |Concat(last)| == |Concat(pieces)| + (if |extra| > 0 then |Base64.Encode(extra)| else 0)
      && |last| == |pieces| + (if |Flatten(chunks)| % 3 == 0 then 0 else 1)
      && last[..|pieces|] == pieces
  {
    var m := |emitted| / 3;
    assert |Flatten(chunks)| == 3 * m + |extra|;
    if |extra| > 0 {
      Base64.EncodeAppend(emitted, extra);
      ConcatSnoc(pieces, Base64.Encode(extra));
    } else {
      assert emitted + extra == emitted;
    }
  }

  /** The encoding of whole groups has no padding. */
  lemma EncodeUnpadded(whole: seq<Byte>)
    requires |whole| % 3 == 0
    ensures Unpadded(Base64.Encode(whole))
  {
    var r := Base64.Encode(whole);
    var q := (|whole| + 2) / 3;
    assert |r| == 4 * q;
    MultipleOfFour(q);
    assert '=' !in r;
  }

  /** The bytes of `chunk` split into the whole groups of three and the one or two left over. */
  function WholeGroups(chunk: seq<Byte>): (r: (seq<Byte>, seq<Byte>))
    ensures r.0 + r.1 == chunk
    ensures |r.0| % 3 == 0 && |r.1| < 3
  {
    var cut := |chunk| - |chunk| % 3;
    assert cut % 3 == 0 by {
      RemainderRemoved(|chunk|);
    }
    assert chunk[..cut] + chunk[cut..] == chunk;
    (chunk[..cut], chunk[cut..])
  }

  lemma RemainderRemoved(k: nat)
    ensures (k - k % 3) % 3 == 0
  {
  }

  lemma SumOfGroups(a: seq<Byte>, b: seq<Byte>)
    requires |a| % 3 == 0 && |b| % 3 == 0
    ensures |a + b| % 3 == 0
  {
    var m, n := |a| / 3, |b| / 3;
    assert |a + b| == 3 * (m + n);
  }

  lemma MultipleOfFour(q: int)
    ensures (4 * q) % 4 == 0
  {
  }

  lemma FlattenSnoc(chunks: seq<seq<Byte>>, i: nat)
    requires i < |chunks|
    ensures Flatten(chunks[..i + 1]) == Flatten(chunks[..i]) + chunks[i]
  {
    assert chunks[..i + 1][..i] == chunks[..i];
  }

  lemma ConcatSnoc(pieces: seq<string>, piece: string)
    ensures Concat(pieces + [piece]) == Concat(pieces) + piece
    ensures (pieces + [piece])[..|pieces|] == pieces
  {
    assert (pieces + [piece])[..|pieces|] == pieces;
  }
}

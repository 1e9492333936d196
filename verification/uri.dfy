/**
 * Reference resolution of a relative path against a base path, as section 5.2 of
 * RFC 3986 defines it: merging (section 5.2.3) and dot-segment removal (section 5.2.4).
 * The package converter resolves `./x` and `../x` requires this way.
 */
module Uri {
  import opened JsString

  /** Section 5.2.3: the reference appended to everything up to the base's last "/". */
  function Merge(basePath: string, refPath: string): (r: string)
    ensures EndsWith(r, refPath)
    ensures StartsWith(basePath, "/") ==> StartsWith(r, "/")
  {
    var i := LastIndexOf(basePath, '/');
    assert StartsWith(basePath, "/") ==> basePath[0] == '/' && i >= 0;
    basePath[..i + 1] + refPath
  }

  /** No "/" after the first character. */
  predicate NoInnerSlash(c: string) {
    forall m :: 1 <= m < |c| ==> c[m] != '/'
  }

  /** The first index from `k` on that holds a "/", or the length when there is none. */
  function SegmentEnd(s: string, k: nat): (e: nat)
    requires k <= |s|
    ensures k <= e <= |s|
    ensures forall m :: k <= m < e ==> s[m] != '/'
    ensures e < |s| ==> s[e] == '/'
    decreases |s| - k
  {
    if k == |s| || s[k] == '/' then k else SegmentEnd(s, k + 1)
  }

  /**
   * The first path segment of the input buffer, with its leading "/" if any, up to but
   * not including the next "/" (step 2E of section 5.2.4).
   */
  function FirstSegment(input: string): (seg: string)
    requires |input| > 0
    ensures 0 < |seg| <= |input| && StartsWith(input, seg)
    ensures NoInnerSlash(seg)
    ensures |seg| < |input| ==> input[|seg|] == '/'
  {
    input[..SegmentEnd(input, 1)]
  }

  /** The first segment is the one prefix with no inner "/" that ends where a "/" or the input ends. */
  lemma FirstSegmentIs(input: string, p: string)
    requires |p| > 0 && NoInnerSlash(p) && StartsWith(input, p)
    requires |p| < |input| ==> input[|p|] == '/'
    ensures FirstSegment(input) == p
  {
    assert forall m :: 0 <= m < |p| ==> input[m] == p[m];
  }

  /** A segment the algorithm must never emit. */
  predicate IsDotSegment(c: string) {
    c == "." || c == ".." || c == "/." || c == "/.."
  }

  /** One of the rewriting steps 2A-2D of section 5.2.4 applies to the input buffer. */
  predicate DotRuleApplies(input: string) {
    || StartsWith(input, "../") || StartsWith(input, "./") || StartsWith(input, "/./")
    || input == "/." || StartsWith(input, "/../") || input == "/.." || input == "." || input == ".."
  }

  /** Steps 2A-2D apply exactly when step 2E would move a dot segment. */
  lemma DotRuleIffDotSegment(input: string)
    requires |input| > 0
    ensures DotRuleApplies(input) <==> IsDotSegment(FirstSegment(input))
  {
    var seg := FirstSegment(input);
    if StartsWith(input, "../") { FirstSegmentIs(input, ".."); }
    else if StartsWith(input, "./") { FirstSegmentIs(input, "."); }
    else if StartsWith(input, "/./") { FirstSegmentIs(input, "/."); }
    else if StartsWith(input, "/../") { FirstSegmentIs(input, "/.."); }
    else if input == "/." || input == "/.." || input == "." || input == ".." { FirstSegmentIs(input, input); }
    else {
      assert |seg| < |input| ==> input[..|seg| + 1] == seg + "/";
    }
  }

  /** The output buffer with its last segment (and that segment's "/") removed. */
  function DropLast(out: seq<string>): (r: seq<string>)
    ensures |r| == if |out| == 0 then 0 else |out| - 1
    ensures forall i :: 0 <= i < |r| ==> r[i] == out[i]
  {
    if |out| == 0 then [] else out[..|out| - 1]
  }

  /** Output segments never include a dot segment. */
  predicate NoDots(out: seq<string>) {
    forall i :: 0 <= i < |out| ==> !IsDotSegment(out[i])
  }

  datatype Buffers = Buffers(input: string, out: seq<string>)

  /**
   * One pass of the loop of section 5.2.4. The output buffer is kept as the list of
   * segments moved to it by step 2E, so "remove the last segment" is `DropLast`.
   */
  function Step(input: string, out: seq<string>): (b: Buffers)
    requires |input| > 0 && NoDots(out)
    ensures |b.input| < |input| && NoDots(b.out)
  {
    if StartsWith(input, "../") then Buffers(input[3..], out)
    else if StartsWith(input, "./") then Buffers(input[2..], out)
    else if StartsWith(input, "/./") then Buffers(input[2..], out)
    else if input == "/." then Buffers("/", out)
    else if StartsWith(input, "/../") then Buffers(input[3..], DropLast(out))
    else if input == "/.." then Buffers("/", DropLast(out))
    else if input == "." || input == ".." then Buffers("", out)
    else
      var seg := FirstSegment(input);
      assert !IsDotSegment(seg) by { DotRuleIffDotSegment(input); }
      Buffers(input[|seg|..], out + [seg])
  }

  /** Step 2C: "/../" at the front removes the last output segment. */
  lemma StepParent(input: string, out: seq<string>)
    requires NoDots(out) && StartsWith(input, "/../")
    ensures Step(input, out) == Buffers(input[3..], DropLast(out))
  {
    assert input[0] == '/' && input[1] == '.' && input[2] == '.';
  }

  /** The loop of section 5.2.4, run until the input buffer is empty. */
  function RemoveDots(input: string, out: seq<string>): (r: seq<string>)
    requires NoDots(out)
    ensures NoDots(r)
    decreases |input|
  {
    if input == "" then out
    else
      var b := Step(input, out);
      RemoveDots(b.input, b.out)
  }

  function Concat(chunks: seq<string>): string {
    if |chunks| == 0 then "" else chunks[0] + Concat(chunks[1..])
  }

  /** remove_dot_segments (section 5.2.4): the output buffer as one string. */
  function RemoveDotSegments(path: string): string {
    Concat(RemoveDots(path, []))
  }

  /** The segments of a path, each with its leading "/" (the first one may have none). */
  function Segments(path: string): (r: seq<string>)
    ensures Concat(r) == path
    decreases |path|
  {
    if path == "" then []
    else
      var seg := FirstSegment(path);
      assert path == seg + path[|seg|..];
      [seg] + Segments(path[|seg|..])
  }

  /** Step 2E: with no dot segment in front, the first segment moves to the output. */
  lemma MoveStep(input: string, out: seq<string>)
    requires NoDots(out)
    requires |input| > 0 && !IsDotSegment(FirstSegment(input))
    ensures var seg := FirstSegment(input);
      Step(input, out) == Buffers(input[|seg|..], out + [seg])
  {
    DotRuleIffDotSegment(input);
  }

  /** The segments after the first are those of the rest of the path. */
  lemma SegmentsTail(input: string)
    requires |input| > 0
    ensures var seg := FirstSegment(input);
      Segments(input) == [seg] + Segments(input[|seg|..])
  {
  }

  lemma NoDotsTail(segs: seq<string>)
    requires |segs| > 0 && NoDots(segs)
    ensures !IsDotSegment(segs[0]) && NoDots(segs[1..])
  {
    assert forall i :: 0 <= i < |segs| - 1 ==> segs[1..][i] == segs[i + 1];
  }

  lemma SeqAssoc<T>(a: seq<T>, b: seq<T>, c: seq<T>)
    ensures a + b + c == a + (b + c)
  {
  }

  /** One step over a path without dot segments: its first segment moves to the output. */
  lemma CleanStep(input: string, out: seq<string>)
    requires |input| > 0 && NoDots(out) && NoDots(Segments(input))
    ensures var seg := FirstSegment(input);
      var rest := input[|seg|..];
      && NoDots(out + [seg]) && NoDots(Segments(rest))
      && Segments(input) == [seg] + Segments(rest)
      && RemoveDots(input, out) == RemoveDots(rest, out + [seg])
  {
    SegmentsTail(input);
    NoDotsTail(Segments(input));
    MoveStep(input, out);
  }

  /** Dot-segment removal moves the segments of a path without dot segments unchanged. */
  lemma {:induction false} RemoveDotsOfClean(input: string, out: seq<string>)
    requires NoDots(out) && NoDots(Segments(input))
    ensures RemoveDots(input, out) == out + Segments(input)
    decreases |input|
  {
    if input != "" {
      var seg := FirstSegment(input);
      var rest := input[|seg|..];
      CleanStep(input, out);
      RemoveDotsOfClean(rest, out + [seg]);
      var t := Segments(rest);
      SeqAssoc(out, [seg], t);
    }
  }

  /** The output segments of step 2E: only the first may lack a leading "/". */
  predicate WellFormed(chunks: seq<string>) {
    forall i :: 0 <= i < |chunks| ==>
      |chunks[i]| > 0 && NoInnerSlash(chunks[i]) && (i > 0 ==> chunks[i][0] == '/')
  }

  lemma FirstSegmentOfJoin(c: string, rest: string)
    requires |c| > 0 && NoInnerSlash(c)
    requires |rest| > 0 ==> rest[0] == '/'
    ensures FirstSegment(c + rest) == c
  {
    var p := c + rest;
    assert p[..|c|] == c;
    assert |c| < |p| ==> p[|c|] == rest[0];
    FirstSegmentIs(p, c);
  }

  /** Splitting the concatenation of well-formed segments gives the segments back. */
  lemma {:induction false} SegmentsOfConcat(chunks: seq<string>)
    requires WellFormed(chunks)
    ensures Segments(Concat(chunks)) == chunks
  {
    if |chunks| > 0 {
      var c, tail := chunks[0], chunks[1..];
      WellFormedTail(chunks);
      SegmentsOfConcat(tail);
      SegmentsOfCons(c, tail);
      assert chunks == [c] + tail;
    }
  }

  lemma WellFormedTail(chunks: seq<string>)
    requires |chunks| > 0 && WellFormed(chunks)
    ensures WellFormed(chunks[1..])
    ensures |chunks| > 1 ==> chunks[1][0] == '/'
    ensures |chunks[0]| > 0 && NoInnerSlash(chunks[0])
  {
    var tail := chunks[1..];
    forall i | 0 <= i < |tail|
      ensures |tail[i]| > 0 && NoInnerSlash(tail[i]) && (i > 0 ==> tail[i][0] == '/')
    {
      assert tail[i] == chunks[i + 1];
    }
  }

  /** A first segment in front of well-formed segments stays a segment of its own. */
  lemma SegmentsOfCons(c: string, tail: seq<string>)
    requires |c| > 0 && NoInnerSlash(c)
    requires |tail| > 0 ==> |tail[0]| > 0 && tail[0][0] == '/'
    requires Segments(Concat(tail)) == tail
    ensures Segments(c + Concat(tail)) == [c] + tail
  {
    var rest := Concat(tail);
    assert |tail| > 0 ==> rest == tail[0] + Concat(tail[1..]);
    FirstSegmentOfJoin(c, rest);
    var p := c + rest;
    assert p[|c|..] == rest;
  }

  /** Every step keeps the output well formed and the input starting with "/" after output. */
  lemma StepWellFormed(input: string, out: seq<string>)
    requires |input| > 0 && NoDots(out) && WellFormed(out)
    requires |out| > 0 ==> input[0] == '/'
    ensures var b := Step(input, out);
      WellFormed(b.out) && (|b.out| > 0 && |b.input| > 0 ==> b.input[0] == '/')
  {
    DotRuleIffDotSegment(input);
    if !DotRuleApplies(input) {
      var seg := FirstSegment(input);
      MoveStep(input, out);
      var out' := out + [seg];
      assert WellFormed(out') by {
        forall i | 0 <= i < |out'|
          ensures |out'[i]| > 0 && NoInnerSlash(out'[i]) && (i > 0 ==> out'[i][0] == '/')
        {
          if i < |out| { assert out'[i] == out[i]; }
        }
      }
    }
  }

  lemma {:induction false} RemoveDotsWellFormed(input: string, out: seq<string>)
    requires NoDots(out) && WellFormed(out)
    requires |out| > 0 && |input| > 0 ==> input[0] == '/'
    ensures WellFormed(RemoveDots(input, out))
    decreases |input|
  {
    if input != "" {
      StepWellFormed(input, out);
      var b := Step(input, out);
      RemoveDotsWellFormed(b.input, b.out);
    }
  }

  /** Removing dot segments twice is the same as removing them once. */
  lemma RemoveDotSegmentsIdempotent(path: string)
    ensures RemoveDotSegments(RemoveDotSegments(path)) == RemoveDotSegments(path)
  {
    var chunks := RemoveDots(path, []);
    RemoveDotsWellFormed(path, []);
    SegmentsOfConcat(chunks);
    RemoveDotsOfClean(Concat(chunks), []);
    assert [] + chunks == chunks;
  }

  /** Every chunk begins with "/". */
  predicate AllAbsolute(chunks: seq<string>) {
    forall i :: 0 <= i < |chunks| ==> |chunks[i]| > 0 && chunks[i][0] == '/'
  }

  lemma StepAbsolute(input: string, out: seq<string>)
    requires NoDots(out) && AllAbsolute(out) && StartsWith(input, "/")
    ensures var b := Step(input, out);
      AllAbsolute(b.out) && (StartsWith(b.input, "/") || (b.input == "" && |b.out| > 0))
  {
    DotRuleIffDotSegment(input);
    if !DotRuleApplies(input) {
      var seg := FirstSegment(input);
      MoveStep(input, out);
      var out' := out + [seg];
      assert AllAbsolute(out') by {
        forall i | 0 <= i < |out'| ensures |out'[i]| > 0 && out'[i][0] == '/' {
          if i < |out| { assert out'[i] == out[i]; }
        }
      }
      assert |seg| < |input| ==> input[|seg|..][0] == '/';
    }
  }

  lemma {:induction false} RemoveDotsAbsolute(input: string, out: seq<string>)
    requires NoDots(out) && AllAbsolute(out)
    requires StartsWith(input, "/") || (input == "" && |out| > 0)
    ensures AllAbsolute(RemoveDots(input, out)) && |RemoveDots(input, out)| > 0
    decreases |input|
  {
    if input != "" {
      StepAbsolute(input, out);
      var b := Step(input, out);
      RemoveDotsAbsolute(b.input, b.out);
    }
  }

  /** An absolute path stays absolute: the result begins with "/". */
  lemma RemoveDotSegmentsAbsolute(path: string)
    requires StartsWith(path, "/")
    ensures StartsWith(RemoveDotSegments(path), "/")
  {
    RemoveDotsAbsolute(path, []);
    var chunks := RemoveDots(path, []);
    assert Concat(chunks) == chunks[0] + Concat(chunks[1..]);
  }
}

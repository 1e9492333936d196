/**
 * The ECMAScript string built-ins the package converter and the registry client call,
 * with their exact edge-case behaviour (negative `substr` starts, `undefined` for an
 * index past the end, `-1` from `indexOf`).
 */
module JsString {
  import opened Wrappers

  function Min(a: int, b: int): int { if a < b then a else b }
  function Max(a: int, b: int): int { if a < b then b else a }

  /**
   * `s.substr(start, length)` as in ECMAScript Annex B: a negative `start` counts back
   * from the end (clamped at 0), a start past the end gives "", a negative `length`
   * gives "".
   */
  function Substr(s: string, start: int, length: int): (r: string)
    ensures |r| <= |s| && |r| <= Max(length, 0)
  {
    var b := if start < 0 then Max(|s| + start, 0) else Min(start, |s|);
    var e := Min(b + Max(length, 0), |s|);
    s[b..e]
  }

  /** `s.substr(start)`: everything from `start` to the end. */
  function SubstrFrom(s: string, start: int): (r: string)
    ensures |r| <= |s|
  {
    Substr(s, start, |s|)
  }

  predicate StartsWith(s: string, p: string) {
    |p| <= |s| && s[..|p|] == p
  }

  predicate EndsWith(s: string, p: string) {
    |p| <= |s| && s[|s| - |p|..] == p
  }

  /** The source's `s.substr(0, p.length) == p` is exactly a prefix test. */
  lemma SubstrPrefix(s: string, p: string)
    ensures Substr(s, 0, |p|) == p <==> StartsWith(s, p)
  {
  }

  /**
   * The source's `s.substr(s.length - t.length, t.length) == t` is exactly a suffix test,
   * also when `s` is shorter than `t` (the start is then negative and the result too short).
   */
  lemma SubstrSuffix(s: string, t: string)
    ensures Substr(s, |s| - |t|, |t|) == t <==> EndsWith(s, t)
  {
    if |t| > |s| {
      assert |Substr(s, |s| - |t|, |t|)| <= |s| < |t|;
    }
  }

  /** `s[i]`: the character at `i`, or `undefined` outside the string. */
  function CharAt(s: string, i: int): (r: Option<char>)
    ensures r.Some? <==> 0 <= i < |s|
    ensures r.Some? ==> r.value == s[i]
  {
    if 0 <= i < |s| then Some(s[i]) else None
  }

  /** `s.indexOf(c)` for a one-character search string. */
  function IndexOf(s: string, c: char): (i: int)
    ensures -1 <= i < |s|
    ensures i == -1 <==> c !in s
    ensures 0 <= i ==> s[i] == c && c !in s[..i]
  {
    if |s| == 0 then -1
    else if s[0] == c then 0
    else
      var j := IndexOf(s[1..], c);
      if j == -1 then -1 else assert s[1..][..j] == s[1..j + 1]; j + 1
  }

  /** `s.lastIndexOf(c)` for a one-character search string. */
  function LastIndexOf(s: string, c: char): (i: int)
    ensures -1 <= i < |s|
    ensures i == -1 <==> c !in s
    ensures 0 <= i ==> s[i] == c && c !in s[i + 1..]
  {
    if |s| == 0 then -1
    else if s[|s| - 1] == c then |s| - 1
    else
      var j := LastIndexOf(s[..|s| - 1], c);
      assert s[..|s| - 1] + [s[|s| - 1]] == s;
      if j == -1 then -1 else assert s[j + 1..] == s[..|s| - 1][j + 1..] + [s[|s| - 1]]; j
  }

  /** True when `sub` occurs in `s` at position `i`. */
  predicate OccursAt(s: string, sub: string, i: int) {
    0 <= i && i + |sub| <= |s| && s[i..i + |sub|] == sub
  }

  /** `s.indexOf(sub)` for a search string of any length, searching from `from`. */
  function IndexOfFrom(s: string, sub: string, from: nat): (i: int)
    ensures i == -1 || (from <= i && OccursAt(s, sub, i))
    ensures i == -1 ==> forall j :: from <= j ==> !OccursAt(s, sub, j)
    ensures i != -1 ==> forall j :: from <= j < i ==> !OccursAt(s, sub, j)
    decreases |s| - from
  {
    if from + |sub| > |s| then -1
    else if s[from..from + |sub|] == sub then from
    else IndexOfFrom(s, sub, from + 1)
  }

  /** `s.indexOf(sub)`. */
  function IndexOfSub(s: string, sub: string): (i: int)
    ensures i == -1 <==> forall j :: !OccursAt(s, sub, j)
    ensures i != -1 ==> OccursAt(s, sub, i) && forall j :: 0 <= j < i ==> !OccursAt(s, sub, j)
  {
    IndexOfFrom(s, sub, 0)
  }

  /** `s.split(c).length`: one more than the number of occurrences of `c`. */
  function SplitCount(s: string, c: char): (n: nat)
    ensures n >= 1
    ensures c !in s ==> n == 1
  {
    if |s| == 0 then 1
    else (if s[0] == c then 1 else 0) + SplitCount(s[1..], c)
  }

  /** A sequence of `n` copies of `c`. */
  function Repeat(c: char, n: nat): (r: string)
    ensures |r| == n && forall i :: 0 <= i < n ==> r[i] == c
  {
    if n == 0 then "" else [c] + Repeat(c, n - 1)
  }

  /** `s.padStart(len, c)` with a one-character filler. */
  function PadStart(s: string, len: int, c: char): (r: string)
    ensures |r| == Max(len, |s|)
    ensures EndsWith(r, s)
    ensures forall i :: 0 <= i < |r| - |s| ==> r[i] == c
  {
    if |s| >= len then s else Repeat(c, len - |s|) + s
  }

  /** `s.split(c)` for a one-character separator: the pieces between the separators. */
  function Split(s: string, c: char): (r: seq<string>)
    ensures |r| >= 1
    ensures forall i :: 0 <= i < |r| ==> c !in r[i]
    ensures c !in s ==> r == [s]
    decreases |s|
  {
    var i := IndexOf(s, c);
    if i == -1 then [s] else [s[..i]] + Split(s[i + 1..], c)
  }

  /** `parts.join(c)` */
  function Join(parts: seq<string>, c: char): (r: string)
  {
    if |parts| == 0 then "" else if |parts| == 1 then parts[0] else parts[0] + [c] + Join(parts[1..], c)
  }

  /** A piece without the separator, then the separator, starts the split. */
  lemma SplitAt(a: string, c: char, b: string)
    requires c !in a
    ensures Split(a + [c] + b, c) == [a] + Split(b, c)
  {
    var s := a + [c] + b;
    assert s[..|a|] == a && s[|a|] == c;
    assert s[|a| + 1..] == b;
  }

  /** Two pieces without the separator, joined by it, split back into the two. */
  lemma SplitPair(a: string, c: char, b: string)
    requires c !in a && c !in b
    ensures Split(a + [c] + b, c) == [a, b]
  {
    SplitAt(a, c, b);
  }

  /** Joining the pieces gives the string back. */
  lemma {:induction false} JoinSplit(s: string, c: char)
    ensures Join(Split(s, c), c) == s
    decreases |s|
  {
    var i := IndexOf(s, c);
    if i != -1 {
      var a, t := s[..i], s[i + 1..];
      assert s == a + [c] + t;
      JoinSplit(t, c);
      JoinSplitAt(a, c, t);
    }
  }

  /** Split at the first separator, then joined: the first piece, the separator, the rest rejoined. */
  lemma JoinSplitAt(a: string, c: char, t: string)
    requires c !in a
    ensures Join(Split(a + [c] + t, c), c) == a + [c] + Join(Split(t, c), c)
  {
    SplitAt(a, c, t);
    assert ([a] + Split(t, c))[1..] == Split(t, c);
  }
}

/**
 * The older `.npmrc` reader: it finds a setting by searching the whole file for the
 * pattern `key ?= ?(.+)`, and it keeps the file in an object whose getters read a
 * different field from the one `init` writes.
 */
module LegacyNpmrc {
  import opened Wrappers

  /** The characters `.` does not match in a JavaScript regular expression. */
  predicate LineTerminator(c: char) {
    c == '\n' || c == '\r' || c == '\U{2028}' || c == '\U{2029}'
  }

  /** The characters a key is made of: it is written into the pattern as it is. */
  predicate PlainKey(key: string) {
    |key| > 0 && forall i :: 0 <= i < |key| ==> key[i] == '_' || 'a' <= key[i] <= 'z' || 'A' <= key[i] <= 'Z' || '0' <= key[i] <= '9'
  }

  /** Where the line that position `i` is on ends: the first line terminator, or the end. */
  function LineEnd(c: string, i: nat): (r: nat)
    requires i <= |c|
    ensures i <= r <= |c|
    decreases |c| - i
  {
    if i == |c| || LineTerminator(c[i]) then i else LineEnd(c, i + 1)
  }

  /** What `.+` takes greedily from position `i`: the rest of the line. */
  function LineRest(c: string, i: nat): (r: string)
    requires i <= |c|
  {
    c[i..LineEnd(c, i)]
  }

  /** The rest of the line holds no line terminator, and a line terminator or the end follows it. */
  lemma {:induction false} LineRestSpec(c: string, i: nat)
    requires i <= |c|
    ensures forall k :: i <= k < LineEnd(c, i) ==> !LineTerminator(c[k])
    ensures LineEnd(c, i) == |c| || LineTerminator(c[LineEnd(c, i)])
    decreases |c| - i
  {
    if i < |c| && !LineTerminator(c[i]) {
      LineRestSpec(c, i + 1);
    }
  }

  /** Where `=` must be: after the key, and after the space that follows it, if any. */
  function EqualsAt(c: string, j: nat): (r: nat)
    requires j <= |c|
    ensures j <= r <= j + 1 && r <= |c|
  {
    if j < |c| && c[j] == ' ' then j + 1 else j
  }

  /** Where the capture starts: after `=` and a space, unless the space is all the line has left. */
  function ValueAt(c: string, f: nat): (r: nat)
    requires f <= |c|
    ensures f <= r <= f + 1 && r <= |c|
  {
    if f < |c| && c[f] == ' ' && LineEnd(c, f + 1) > f + 1 then f + 1 else f
  }

  /**
   * The capture of `key ?= ?(.+)` tried at position `i`. The optional spaces are greedy:
   * a space after the key must be taken, since `=` cannot match it, and a space after
   * `=` is given back to `(.+)` when nothing else is left on the line.
   */
  function MatchAt(c: string, key: string, i: nat): (r: Option<string>)
    requires i <= |c|
    ensures r.Some? ==> r.value != ""
  {
    if !(i + |key| <= |c| && c[i..i + |key|] == key) then None
    else
      var e := EqualsAt(c, i + |key|);
      if !(e < |c| && c[e] == '=') then None
      else
        var n := ValueAt(c, e + 1);
        if LineEnd(c, n) > n then Some(LineRest(c, n)) else None
  }

  /**
   * `contents.match(regex)` as the engine runs it: the first position, from `from` on,
   * where the pattern matches.
   */
  function Search(c: string, key: string, from: nat): (r: Option<string>)
    requires from <= |c| + 1
    decreases |c| + 1 - from
  {
    if from > |c| then None
    else if MatchAt(c, key, from).Some? then MatchAt(c, key, from)
    else Search(c, key, from + 1)
  }

  /**
   * The search finds nothing exactly when no position matches, and otherwise the capture
   * at the leftmost position that does.
   */
  lemma {:induction false} SearchSpec(c: string, key: string, from: nat)
    requires from <= |c| + 1
    ensures Search(c, key, from).None? <==> forall j :: from <= j <= |c| ==> MatchAt(c, key, j).None?
    ensures Search(c, key, from).Some? ==>
      exists j :: from <= j <= |c| && MatchAt(c, key, j) == Search(c, key, from)
        && forall m :: from <= m < j ==> MatchAt(c, key, m).None?
    decreases |c| + 1 - from
  {
    if from <= |c| && MatchAt(c, key, from).None? {
      SearchSpec(c, key, from + 1);
      SearchStep(c, key, from);
    }
  }

  /** Moving past a position that does not match. */
  lemma SearchStep(c: string, key: string, from: nat)
    requires from <= |c| && MatchAt(c, key, from).None?
    requires Search(c, key, from + 1).None? <==> forall j :: from + 1 <= j <= |c| ==> MatchAt(c, key, j).None?
    requires Search(c, key, from + 1).Some? ==>
      exists j :: from + 1 <= j <= |c| && MatchAt(c, key, j) == Search(c, key, from + 1)
        && forall m :: from + 1 <= m < j ==> MatchAt(c, key, m).None?
    ensures Search(c, key, from).None? <==> forall j :: from <= j <= |c| ==> MatchAt(c, key, j).None?
    ensures Search(c, key, from).Some? ==>
      exists j :: from <= j <= |c| && MatchAt(c, key, j) == Search(c, key, from)
        && forall m :: from <= m < j ==> MatchAt(c, key, m).None?
  {
    assert Search(c, key, from) == Search(c, key, from + 1);
    if Search(c, key, from).Some? {
      var j :| from + 1 <= j <= |c| && MatchAt(c, key, j) == Search(c, key, from + 1)
        && forall m :: from + 1 <= m < j ==> MatchAt(c, key, m).None?;
      assert forall m :: from <= m < j ==> MatchAt(c, key, m).None?;
    }
  }

  /** What `getOption` returns: `undefined`, `null`, or the text captured. */
  datatype Answer = Undefined | Null | Text(s: string)

  /**
   * `getOption(contents, key)`: `undefined` for missing or empty contents, `null` when
   * the pattern matches nowhere, and otherwise the capture at the leftmost match.
   */
  function GetOption(contents: Option<string>, key: string): (r: Answer)
    requires PlainKey(key)
    ensures contents.None? || contents == Some("") ==> r == Undefined
    ensures contents.Some? && contents.value != "" ==>
      (r == Null <==> forall j :: 0 <= j <= |contents.value| ==> MatchAt(contents.value, key, j).None?)
    ensures r.Text? ==>
      && r.s != "" && contents.Some?
      && (exists j :: 0 <= j <= |contents.value| && MatchAt(contents.value, key, j) == Some(r.s)
           && forall m :: 0 <= m < j ==> MatchAt(contents.value, key, m).None?)
  {
    if contents.None? || contents.value == "" then Undefined
    else
      SearchSpec(contents.value, key, 0);
      var m := Search(contents.value, key, 0);
      if m.Some? then Text(m.value) else Null
  }

  /** The four ways the key and its value can be separated: `=`, ` =`, `= `, ` = `. */
  predicate Separator(t: string) {
    t == "=" || t == " =" || t == "= " || t == " = "
  }

  /**
   * A match at `i` is the key, a separator, and then everything up to the end of the line,
   * which is not empty.
   */
  lemma MatchShape(c: string, key: string, i: nat)
    requires i <= |c| && MatchAt(c, key, i).Some?
    ensures i + |key| <= |c| && c[i..i + |key|] == key
    ensures exists n :: i + |key| < n <= |c| && Separator(c[i + |key|..n]) && MatchAt(c, key, i) == Some(LineRest(c, n))
  {
    var j := i + |key|;
    var e := EqualsAt(c, j);
    assert c[i..j] == key && e < |c| && c[e] == '=';
    var n := ValueAt(c, e + 1);
    SeparatorShape(c, j, e, n);
    assert MatchAt(c, key, i) == Some(LineRest(c, n));
  }

  lemma SeparatorShape(c: string, j: nat, e: nat, n: nat)
    requires j <= |c| && e == EqualsAt(c, j) && e < |c| && c[e] == '='
    requires n == ValueAt(c, e + 1)
    ensures Separator(c[j..n])
  {
    if e == j + 1 {
      if n == e + 2 {
        assert c[j..n] == [c[j], c[j + 1], c[j + 2]];
      } else {
        assert c[j..n] == [c[j], c[j + 1]];
      }
    } else {
      if n == e + 2 {
        assert c[j..n] == [c[j], c[j + 1]];
      } else {
        assert c[j..n] == [c[j]];
      }
    }
  }

  /** The rest of the line at `i` is `v` when `v` holds no line terminator and a line ends after it. */
  lemma {:induction false} LineRestIs(c: string, i: nat, v: string)
    requires i + |v| <= |c| && c[i..i + |v|] == v
    requires forall k :: 0 <= k < |v| ==> !LineTerminator(v[k])
    requires i + |v| == |c| || LineTerminator(c[i + |v|])
    ensures LineEnd(c, i) == i + |v| && LineRest(c, i) == v
    decreases |v|
  {
    if |v| > 0 {
      assert c[i] == v[0];
      assert c[i + 1..i + 1 + |v[1..]|] == v[1..];
      LineRestIs(c, i + 1, v[1..]);
    }
  }

  /**
   * A setting written `key = value` is read back, even when it is not at the start of its
   * line, as long as nothing before it could start the key.
   */
  lemma WrittenSettingRead(before: string, key: string, v: string, after: string)
    requires PlainKey(key) && key[0] !in before
    requires v != "" && forall k :: 0 <= k < |v| ==> !LineTerminator(v[k])
    requires after == "" || LineTerminator(after[0])
    ensures GetOption(Some(before + key + " = " + v + after), key) == Text(v)
  {
    var c := before + key + " = " + v + after;
    MatchAfter(before, key, v, after);
    NoMatchBefore(before, key, c);
    SearchFinds(c, key, 0, |before|);
  }

  lemma MatchAfter(before: string, key: string, v: string, after: string)
    requires v != "" && forall k :: 0 <= k < |v| ==> !LineTerminator(v[k])
    requires after == "" || LineTerminator(after[0])
    ensures MatchAt(before + key + " = " + v + after, key, |before|) == Some(v)
  {
    var head := before + key + " = ";
    var c := head + v + after;
    KeyLaidOut(before, key);
    Slices(head, v, after);
    MatchLaidOut(c, key, |before|, v);
  }

  /** The key and ` = ` at their places in the text before the value. */
  lemma KeyLaidOut(before: string, key: string)
    ensures var head := before + key + " = ";
      var j := |before| + |key|;
      |head| == j + 3 && head[|before|..j] == key && head[j] == ' ' && head[j + 1] == '=' && head[j + 2] == ' '
  {
  }

  /** The parts of `head + v + after` at their places. */
  lemma Slices(head: string, v: string, after: string)
    ensures var c := head + v + after;
      && c[..|head|] == head && c[|head|..|head| + |v|] == v
      && (after != "" ==> c[|head| + |v|] == after[0])
      && |c| == |head| + |v| + |after|
  {
  }

  /** A match laid out as the key, ` = `, and a non-empty line. */
  lemma MatchLaidOut(c: string, key: string, i: nat, v: string)
    requires i + |key| + 3 + |v| <= |c| && c[i..i + |key|] == key
    requires c[i + |key|] == ' ' && c[i + |key| + 1] == '=' && c[i + |key| + 2] == ' '
    requires v != "" && c[i + |key| + 3..i + |key| + 3 + |v|] == v
    requires forall k :: 0 <= k < |v| ==> !LineTerminator(v[k])
    requires i + |key| + 3 + |v| == |c| || LineTerminator(c[i + |key| + 3 + |v|])
    ensures MatchAt(c, key, i) == Some(v)
  {
    var j := i + |key|;
    assert EqualsAt(c, j) == j + 1;
    LineRestIs(c, j + 3, v);
    assert ValueAt(c, j + 2) == j + 3;
  }

  /** The key cannot match where its first character does not occur. */
  lemma NoMatchBefore(before: string, key: string, c: string)
    requires |key| > 0 && key[0] !in before
    requires |before| <= |c| && c[..|before|] == before
    ensures forall m :: 0 <= m < |before| ==> MatchAt(c, key, m).None?
  {
    forall m | 0 <= m < |before| ensures MatchAt(c, key, m).None? {
      assert c[m] == before[m];
      if m + |key| <= |c| {
        assert c[m..m + |key|][0] == before[m];
      }
    }
  }

  /** The search stops at the first position where the pattern matches. */
  lemma {:induction false} SearchFinds(c: string, key: string, from: nat, i: nat)
    requires from <= i <= |c| && MatchAt(c, key, i).Some?
    requires forall m :: from <= m < i ==> MatchAt(c, key, m).None?
    ensures Search(c, key, from) == MatchAt(c, key, i)
    decreases i - from
  {
    if from < i {
      SearchFinds(c, key, from + 1, i);
    }
  }

  /**
   * The pattern is not tied to the start of a line: the credentials of one registry,
   * written `//host/:_auth = …`, are read as the global `_auth`.
   */
  lemma ScopedAuthReadAsGlobal(token: string)
    requires token != "" && forall k :: 0 <= k < |token| ==> !LineTerminator(token[k])
    ensures GetOption(Some("//registry.example.com/:_auth = " + token), "_auth") == Text(token)
  {
    var before := "//registry.example.com/:";
    assert before + "_auth" + " = " + token + "" == "//registry.example.com/:_auth = " + token;
    WrittenSettingRead(before, "_auth", token, "");
  }

  /**
   * An `Npmrc` object. `init` writes the file into `content`, while the getters read
   * `contents`, which nothing ever writes.
   */
  datatype Npmrc = Npmrc(initialized: bool, content: Option<string>, contents: Option<string>)

  /** `new Npmrc()`: no field is set. */
  const Created := Npmrc(false, None, None)

  /** `init()`: `file` is the home `.npmrc` at the time, `None` when it does not exist. */
  function Init(n: Npmrc, file: Option<string>): (r: Npmrc)
    ensures r.initialized && r.content == file
    ensures r.contents == n.contents
  {
    n.(initialized := true, content := file)
  }

  /** `getAuth()`: `init` first if it has not run, then `_auth` when it is found and non-empty. */
  function GetAuth(n: Npmrc, file: Option<string>): (r: (Npmrc, Option<string>))
    ensures n.initialized ==> r.0 == n
    ensures !n.initialized ==> r.0 == Init(n, file)
    ensures r.1.Some? <==> GetOption(n.contents, "_auth").Text?
    ensures r.1.Some? ==> r.1.value == GetOption(n.contents, "_auth").s
  {
    var m := if n.initialized then n else Init(n, file);
    var auth := GetOption(m.contents, "_auth");
    (m, if auth.Text? && auth.s != "" then Some(auth.s) else None)
  }

  /** `getRegistry()`: `init` first if it has not run, then the `registry` setting. */
  function GetRegistry(n: Npmrc, file: Option<string>): (r: (Npmrc, Answer))
    ensures n.initialized ==> r.0 == n
    ensures !n.initialized ==> r.0 == Init(n, file)
    ensures r.1 == GetOption(n.contents, "registry")
  {
    var m := if n.initialized then n else Init(n, file);
    (m, GetOption(m.contents, "registry"))
  }

  /** A call on an `Npmrc`, with what the home `.npmrc` holds when it is made. */
  datatype Call = InitCall(file: Option<string>) | AuthCall(file: Option<string>) | RegistryCall(file: Option<string>)

  /** One call: its new object and its answer, `undefined` for `init`. */
  function Step(n: Npmrc, call: Call): (r: (Npmrc, Answer))
  {
    match call
    case InitCall(file) => (Init(n, file), Undefined)
    case AuthCall(file) =>
      var (m, auth) := GetAuth(n, file);
      (m, if auth.Some? then Text(auth.value) else Undefined)
    case RegistryCall(file) => GetRegistry(n, file)
  }

  /** The calls in turn: the last object and every answer. */
  function Run(n: Npmrc, calls: seq<Call>): (r: (Npmrc, seq<Answer>))
    ensures |r.1| == |calls|
    decreases |calls|
  {
    if |calls| == 0 then (n, [])
    else
      var (m, answer) := Step(n, calls[0]);
      var (last, answers) := Run(m, calls[1..]);
      (last, [answer] + answers)
  }

  /**
   * Whatever the file says and whatever is called, `getAuth` and `getRegistry` answer
   * `undefined`: the field they read is never written.
   */
  lemma {:induction false} NothingIsFound(n: Npmrc, calls: seq<Call>)
    requires n.contents.None?
    ensures Run(n, calls).0.contents.None?
    ensures forall k :: 0 <= k < |calls| ==> Run(n, calls).1[k] == Undefined
    decreases |calls|
  {
    if |calls| > 0 {
      var (m, answer) := Step(n, calls[0]);
      assert answer == Undefined && m.contents.None?;
      NothingIsFound(m, calls[1..]);
    }
  }

  predicate Getter(call: Call) {
    call.AuthCall? || call.RegistryCall?
  }

  /** Once initialized, the getters leave the object alone: `init` does not run again. */
  lemma {:induction false} GettersKeepObject(n: Npmrc, calls: seq<Call>)
    requires n.initialized
    requires forall k :: 0 <= k < |calls| ==> Getter(calls[k])
    ensures Run(n, calls).0 == n
    decreases |calls|
  {
    if |calls| > 0 {
      GettersKeepObject(n, calls[1..]);
    }
  }

  /**
   * Through the getters alone, `init` runs once, on the first call: the object keeps the
   * file as it was then, however it changes later.
   */
  lemma FirstReadKept(calls: seq<Call>)
    requires |calls| > 0 && forall k :: 0 <= k < |calls| ==> Getter(calls[k])
    ensures Run(Created, calls).0 == Npmrc(true, calls[0].file, None)
  {
    var first := Step(Created, calls[0]).0;
    assert first == Npmrc(true, calls[0].file, None);
    GettersKeepObject(first, calls[1..]);
  }
}

/**
 * The browser entries of an inferred `map`: the browser main, and the per-path
 * replacements of an object-valued `browser` field of the package descriptor.
 */
module BrowserMap {
  import opened Wrappers
  import opened JsString
  import opened JsObject
  import opened Json
  import opened PackageMeta
  import NodeResolve

  /** A string property of the descriptor; `""` when missing or not a string. */
  function StringProp(j: Json, k: string): (r: string)
    ensures (Get(j, k).Some? && Get(j, k).value.JStr?) ==> r == Get(j, k).value.s
    ensures !(Get(j, k).Some? && Get(j, k).value.JStr?) ==> r == ""
  {
    match Get(j, k)
    case Some(JStr(s)) => s
    case _ => ""
  }

  /** `'' + main`, where a main that did not resolve is `undefined`. */
  function MainText(main: Option<string>): (r: string)
    ensures main.Some? ==> r == main.value
    ensures main.None? ==> r == "undefined"
  {
    if main.Some? then main.value else "undefined"
  }

  /** `!!map[k]`: an alias to the empty string is the one falsy entry. */
  predicate TruthyTarget(t: MapTarget) {
    t.Browser? || t.target != ""
  }

  /** The browser main named by the descriptor: `browser`, then `browserify`, then the main. */
  function BrowserMainName(pjson: Json, main: Option<string>): (r: Option<string>)
    ensures StringProp(pjson, "browser") != "" ==> r == Some(StringProp(pjson, "browser"))
    ensures StringProp(pjson, "browser") == "" && StringProp(pjson, "browserify") != "" ==> r == Some(StringProp(pjson, "browserify"))
    ensures StringProp(pjson, "browser") == "" && StringProp(pjson, "browserify") == "" ==> r == main
  {
    if StringProp(pjson, "browser") != "" then Some(StringProp(pjson, "browser"))
    else if StringProp(pjson, "browserify") != "" then Some(StringProp(pjson, "browserify"))
    else main
  }

  /**
   * The browser entries added to the empty inferred map. Failure when neither the
   * descriptor nor the package names a main (the resolver is given `undefined`).
   */
  function AddBrowserMaps(pjson: Json, main: Option<string>, tree: seq<string>): (r: Result<OrdMap<MapTarget>, string>)
    ensures r.Failure? <==> BrowserMainName(pjson, main).None?
    ensures r.Success? ==> r.value.Valid()
    ensures r.Success? ==> forall k :: k in r.value.vals ==> r.value.vals[k].Browser?
    ensures r.Success? ==> (forall k :: k in r.value.vals && k != "./" + MainText(main) ==>
      k in ForInKeys(Prop(pjson, "browser")) && IsObjectType(Prop(pjson, "browser")))
    ensures r.Success? ==> var x := NodeResolve.Resolve(BrowserMainName(pjson, main).value, "", tree, false);
      (x.Some? && x.value != "" && x != main) ==>
        "./" + MainText(main) in r.value.vals && r.value.vals["./" + MainText(main)] == Browser("./" + x.value)
  {
    match BrowserMainName(pjson, main)
    case None => Failure("TypeError: Cannot read property '0' of undefined")
    case Some(bm) =>
      var browserMain := NodeResolve.Resolve(bm, "", tree, false);
      var m :=
        if browserMain.Some? && browserMain.value != "" && browserMain != main then
          Empty<MapTarget>().Put("./" + MainText(main), Browser("./" + browserMain.value))
        else Empty<MapTarget>();
      var browser := Prop(pjson, "browser");
      if IsObjectType(browser) then Success(BrowserEntries(browser, ForInKeys(browser), tree, m, None))
      else Success(m)
  }

  /**
   * The `for (b in browser)` loop. `mapResolve` is declared once for the whole loop, so a
   * value that is neither `false` nor a string keeps the previous iteration's resolution.
   */
  function BrowserEntries(browser: Json, ks: seq<string>, tree: seq<string>, m: OrdMap<MapTarget>, mapResolve: Option<string>): (r: OrdMap<MapTarget>)
    requires m.Valid()
    ensures r.Valid() && Extends(m, r, ks)
    decreases |ks|
  {
    if |ks| == 0 then m
    else
      var b := ks[0];
      if b in m.vals && TruthyTarget(m.vals[b]) then
        var r := BrowserEntries(browser, ks[1..], tree, m, mapResolve);
        ExtendsTail(m, r, ks);
        r
      else
        var mr := Replacement(Prop(browser, b), tree, mapResolve);
        var r := BrowserEntries(browser, ks[1..], tree, AddReplacement(m, b, mr), mr);
        ExtendsStep(m, b, mr, r, ks);
        r
  }

  /**
   * `r` is `m` with entries for some of the paths `ks` added: every entry of `m` stays, a
   * truthy one unchanged, and what is new or changed is a browser replacement of a path
   * in `ks` where the path or the replacement is package-relative.
   */
  predicate Extends(m: OrdMap<MapTarget>, r: OrdMap<MapTarget>, ks: seq<string>) {
    && (forall k :: k in m.vals ==> k in r.vals)
    && (forall k :: k in m.vals && TruthyTarget(m.vals[k]) ==> r.vals[k] == m.vals[k])
    && (forall k :: k in r.vals && (k !in m.vals || r.vals[k] != m.vals[k]) ==>
      (k in ks && r.vals[k].Browser? && (StartsWith(k, "./") || StartsWith(r.vals[k].browser, "./"))))
  }

  /** The loop reaches the path `b` with no truthy entry for it yet. */
  predicate Open(m: OrdMap<MapTarget>, b: string) {
    !(b in m.vals && TruthyTarget(m.vals[b]))
  }

  /** A resolution `mr` of the path `b` that `map[b]` is set to; other resolutions are dropped. */
  predicate Kept(b: string, mr: Option<string>) {
    mr.Some? && mr.value != "" && (StartsWith(b, "./") || StartsWith(mr.value, "./"))
  }

  /** `r` has the entry `m` has for `k`, or none when `m` has none. */
  predicate Same(m: OrdMap<MapTarget>, r: OrdMap<MapTarget>, k: string) {
    (k in r.vals <==> k in m.vals) && (k in m.vals ==> r.vals[k] == m.vals[k])
  }

  /**
   * The value `mapResolve` holds at each path of the loop, computed from the entries
   * present before it: a path already mapped is skipped and leaves it as it was.
   */
  function Resolutions(browser: Json, ks: seq<string>, tree: seq<string>, m: OrdMap<MapTarget>,
                       previous: Option<string>): (r: seq<Option<string>>)
    ensures |r| == |ks|
    ensures |ks| > 0 && !Open(m, ks[0]) ==> r[0] == previous
    decreases |ks|
  {
    if |ks| == 0 then []
    else
      var mr := if Open(m, ks[0]) then Replacement(Prop(browser, ks[0]), tree, previous) else previous;
      [mr] + Resolutions(browser, ks[1..], tree, m, mr)
  }

  /**
   * What the loop over `ks` leaves: a path reached with no truthy entry is mapped to the
   * resolution the loop holds there when that resolution is kept; every other path,
   * listed or not, keeps what it had.
   */
  ghost predicate Exact(ks: seq<string>, m: OrdMap<MapTarget>, r: OrdMap<MapTarget>, rs: seq<Option<string>>)
    requires |rs| == |ks|
  {
    && (forall i :: 0 <= i < |ks| && Open(m, ks[i]) && Kept(ks[i], rs[i]) ==>
      ks[i] in r.vals && r.vals[ks[i]] == Browser(rs[i].value))
    && (forall i :: 0 <= i < |ks| && !(Open(m, ks[i]) && Kept(ks[i], rs[i])) ==> Same(m, r, ks[i]))
    && (forall k :: k !in ks ==> Same(m, r, k))
  }

  predicate DistinctPaths(ks: seq<string>) {
    forall i, j :: 0 <= i < j < |ks| ==> ks[i] != ks[j]
  }

  /** The loop over distinct paths, entry by entry, against the reference resolutions. */
  lemma {:induction false} BrowserEntriesExact(browser: Json, ks: seq<string>, tree: seq<string>,
                                                m: OrdMap<MapTarget>, mapResolve: Option<string>)
    requires m.Valid() && DistinctPaths(ks)
    ensures Exact(ks, m, BrowserEntries(browser, ks, tree, m, mapResolve), Resolutions(browser, ks, tree, m, mapResolve))
    decreases |ks|
  {
    if |ks| > 0 {
      var b, tail := ks[0], ks[1..];
      DistinctTail(ks);
      if !Open(m, b) {
        BrowserEntriesExact(browser, tail, tree, m, mapResolve);
        ExactSkip(ks, m, BrowserEntries(browser, tail, tree, m, mapResolve), mapResolve,
          Resolutions(browser, tail, tree, m, mapResolve));
      } else {
        var mr := Replacement(Prop(browser, b), tree, mapResolve);
        var m' := AddReplacement(m, b, mr);
        BrowserEntriesExact(browser, tail, tree, m', mr);
        forall i | 0 <= i < |tail| ensures Open(m, tail[i]) == Open(m', tail[i]) {
          assert tail[i] == ks[i + 1];
        }
        ResolutionsFrame(browser, tail, tree, m, m', mr);
        ExactStep(ks, m, BrowserEntries(browser, tail, tree, m', mr), mr, Resolutions(browser, tail, tree, m, mr));
      }
    }
  }

  lemma DistinctTail(ks: seq<string>)
    requires |ks| > 0 && DistinctPaths(ks)
    ensures DistinctPaths(ks[1..]) && ks[0] !in ks[1..]
  {
    var tail := ks[1..];
    forall i, j | 0 <= i < j < |tail| ensures tail[i] != tail[j] {
      assert tail[i] == ks[i + 1] && tail[j] == ks[j + 1];
    }
    forall j | 0 <= j < |tail| ensures tail[j] != ks[0] {
      assert tail[j] == ks[j + 1];
    }
  }

  /** A path that already has a truthy entry is skipped. */
  lemma ExactSkip(ks: seq<string>, m: OrdMap<MapTarget>, r: OrdMap<MapTarget>, previous: Option<string>,
                  rs: seq<Option<string>>)
    requires |ks| > 0 && !Open(m, ks[0]) && ks[0] !in ks[1..]
    requires |rs| == |ks| - 1 && Exact(ks[1..], m, r, rs)
    ensures Exact(ks, m, r, [previous] + rs)
  {
    var rs' := [previous] + rs;
    forall i | 1 <= i < |ks| ensures ks[i] == ks[1..][i - 1] && rs'[i] == rs[i - 1] {
    }
  }

  /** A path reached with no truthy entry is mapped, or not, before the rest follow. */
  lemma ExactStep(ks: seq<string>, m: OrdMap<MapTarget>, r: OrdMap<MapTarget>, mr: Option<string>,
                  rs: seq<Option<string>>)
    requires m.Valid() && |ks| > 0 && Open(m, ks[0]) && ks[0] !in ks[1..]
    requires |rs| == |ks| - 1 && Exact(ks[1..], AddReplacement(m, ks[0], mr), r, rs)
    ensures Exact(ks, m, r, [mr] + rs)
  {
    var b, m', rs' := ks[0], AddReplacement(m, ks[0], mr), [mr] + rs;
    forall k | k != b ensures Same(m, m', k) && Open(m, k) == Open(m', k) {
    }
    forall i | 1 <= i < |ks| ensures ks[i] == ks[1..][i - 1] && rs'[i] == rs[i - 1] && ks[i] != b {
    }
    forall k | k !in ks ensures Same(m, r, k) {
      assert k != b && k !in ks[1..];
      assert Same(m', r, k);
    }
    assert Same(m', r, b);
    assert Kept(b, mr) ==> m'.vals[b] == Browser(mr.value);
    assert !Kept(b, mr) ==> m' == m;
  }

  /** The resolutions depend on the entries present only through which paths are skipped. */
  lemma {:induction false} ResolutionsFrame(browser: Json, ks: seq<string>, tree: seq<string>,
                                            m: OrdMap<MapTarget>, m': OrdMap<MapTarget>, previous: Option<string>)
    requires forall i :: 0 <= i < |ks| ==> Open(m, ks[i]) == Open(m', ks[i])
    ensures Resolutions(browser, ks, tree, m, previous) == Resolutions(browser, ks, tree, m', previous)
    decreases |ks|
  {
    if |ks| > 0 {
      var mr := if Open(m, ks[0]) then Replacement(Prop(browser, ks[0]), tree, previous) else previous;
      assert forall i :: 0 <= i < |ks[1..]| ==> ks[1..][i] == ks[i + 1];
      ResolutionsFrame(browser, ks[1..], tree, m, m', mr);
    }
  }

  lemma ExtendsTail(m: OrdMap<MapTarget>, r: OrdMap<MapTarget>, ks: seq<string>)
    requires |ks| > 0 && Extends(m, r, ks[1..])
    ensures Extends(m, r, ks)
  {
    assert forall k :: k in ks[1..] ==> k in ks;
  }

  lemma ExtendsStep(m: OrdMap<MapTarget>, b: string, mr: Option<string>, r: OrdMap<MapTarget>, ks: seq<string>)
    requires m.Valid() && |ks| > 0 && b == ks[0]
    requires !(b in m.vals && TruthyTarget(m.vals[b]))
    requires Extends(AddReplacement(m, b, mr), r, ks[1..])
    ensures Extends(m, r, ks)
  {
    assert forall k :: k in ks[1..] ==> k in ks;
  }

  /** The resolution of one replacement value; any other value leaves `previous` in place. */
  function Replacement(mapping: Json, tree: seq<string>, previous: Option<string>): (r: Option<string>)
    ensures mapping == JBool(false) ==> r == Some("@empty")
    ensures mapping.JStr? ==> r == NodeResolve.Resolve(mapping.s, "", tree, true)
    ensures mapping != JBool(false) && !mapping.JStr? ==> r == previous
  {
    if mapping == JBool(false) then Some("@empty")
    else if mapping.JStr? then NodeResolve.Resolve(mapping.s, "", tree, true)
    else previous
  }

  /**
   * `map[b] = { browser: mr }` when the resolution is truthy and the path or the
   * resolution is package-relative; external conditional mappings are skipped.
   */
  function AddReplacement(m: OrdMap<MapTarget>, b: string, mr: Option<string>): (r: OrdMap<MapTarget>)
    requires m.Valid()
    ensures r.Valid()
    ensures (mr.Some? && mr.value != "" && (StartsWith(b, "./") || StartsWith(mr.value, "./"))) ==>
      r.vals == m.vals[b := Browser(mr.value)]
    ensures !(mr.Some? && mr.value != "" && (StartsWith(b, "./") || StartsWith(mr.value, "./"))) ==> r == m
  {
    SubstrPrefix(b, "./");
    if mr.Some? then SubstrPrefix(mr.value, "./"); AddReplacementTo(m, b, mr) else m
  }

  function AddReplacementTo(m: OrdMap<MapTarget>, b: string, mr: Option<string>): (r: OrdMap<MapTarget>)
    requires m.Valid() && mr.Some?
    ensures r.Valid()
    ensures (mr.value != "" && !(Substr(b, 0, 2) != "./" && Substr(mr.value, 0, 2) != "./")) ==>
      r.vals == m.vals[b := Browser(mr.value)]
    ensures !(mr.value != "" && !(Substr(b, 0, 2) != "./" && Substr(mr.value, 0, 2) != "./")) ==> r == m
  {
    if mr.value != "" && !(Substr(b, 0, 2) != "./" && Substr(mr.value, 0, 2) != "./") then m.Put(b, Browser(mr.value))
    else m
  }

  /** A path replaced by `false` is mapped to the empty module. */
  lemma FalseIsEmpty(b: string, tree: seq<string>, m: OrdMap<MapTarget>)
    requires m.Valid() && b !in m.vals && StartsWith(b, "./")
    ensures var browser := JObj([b], map[b := JBool(false)]);
      BrowserEntries(browser, [b], tree, m, None).vals == m.vals[b := Browser("@empty")]
  {
    var browser := JObj([b], map[b := JBool(false)]);
    assert Prop(browser, b) == JBool(false);
    SubstrPrefix(b, "./");
    assert [b][1..] == [];
  }

  /**
   * A replacement that is neither `false` nor a string repeats the replacement of the
   * entry before it.
   */
  lemma StaleReplacement(a: string, b: string, target: string, tree: seq<string>)
    requires a != b && StartsWith(a, "./") && StartsWith(b, "./")
    ensures var browser := JObj([a, b], map[a := JBool(false), b := JNum(1)]);
      BrowserEntries(browser, [a, b], tree, Empty(), None).vals == map[a := Browser("@empty"), b := Browser("@empty")]
  {
    var browser := JObj([a, b], map[a := JBool(false), b := JNum(1)]);
    assert Prop(browser, a) == JBool(false);
    assert Prop(browser, b) == JNum(1);
    var m1 := Empty<MapTarget>().Put(a, Browser("@empty"));
    FirstEntry(browser, a, [b], tree, Empty(), None, "@empty");
    assert [a] + [b] == [a, b];
    LastEntry(browser, b, tree, m1, Some("@empty"), "@empty");
  }

  /** A path not mapped yet whose replacement resolves to `x` is mapped to it, then the rest follow. */
  lemma FirstEntry(browser: Json, b: string, rest: seq<string>, tree: seq<string>, m: OrdMap<MapTarget>,
                   mapResolve: Option<string>, x: string)
    requires m.Valid() && b !in m.vals && StartsWith(b, "./") && x != ""
    requires Replacement(Prop(browser, b), tree, mapResolve) == Some(x)
    ensures BrowserEntries(browser, [b] + rest, tree, m, mapResolve) ==
      BrowserEntries(browser, rest, tree, m.Put(b, Browser(x)), Some(x))
  {
    SubstrPrefix(b, "./");
    assert ([b] + rest)[1..] == rest;
  }

  /** The same for a last path. */
  lemma LastEntry(browser: Json, b: string, tree: seq<string>, m: OrdMap<MapTarget>, mapResolve: Option<string>, x: string)
    requires m.Valid() && b !in m.vals && StartsWith(b, "./") && x != ""
    requires Replacement(Prop(browser, b), tree, mapResolve) == Some(x)
    ensures BrowserEntries(browser, [b], tree, m, mapResolve).vals == m.vals[b := Browser(x)]
  {
    FirstEntry(browser, b, [], tree, m, mapResolve, x);
    assert [b] + [] == [b];
  }
}

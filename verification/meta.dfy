/**
 * Reading the metadata that a package's own `meta` configuration gives one file: every
 * wildcard pattern the path matches contributes, deeper patterns taking precedence.
 */
module Meta {
  import opened Wrappers
  import opened JsString
  import opened Json

  /** A value `extend` and `extendMeta` keep as it is: not an array, not of type 'object'. */
  predicate Scalar(j: Json) {
    !IsObjectType(j)
  }

  /**
   * `extend(a, b, prepend)` over the property names `ks` of `b`: each is copied into `a`,
   * except that with `prepend` a name `a` already has is left alone.
   */
  function ExtendKeys(a: Json, b: Json, ks: seq<string>, prepend: bool): (r: Json)
    requires a.JObj?
    ensures r.JObj?
    ensures forall p :: p in r.props <==> p in a.props || p in ks
    ensures forall p :: p in ks && (!prepend || p !in a.props) ==> r.props[p] == Prop(b, p)
    ensures forall p :: p in a.props && (p !in ks || prepend) ==> r.props[p] == a.props[p]
    decreases |ks|
  {
    if |ks| == 0 then a
    else
      var p := ks[0];
      var next := if !prepend || p !in a.props then Put(a, p, Prop(b, p)) else a;
      var r := ExtendKeys(next, b, ks[1..], prepend);
      assert forall x :: x in ks <==> x == p || x in ks[1..] by {
        assert ks == [p] + ks[1..];
      }
      r
  }

  /** `extend(a, b, prepend)`: copies every enumerable property of `b` into the object `a`. */
  function Extend(a: Json, b: Json, prepend: bool): (r: Json)
    requires a.JObj?
    ensures r.JObj?
    ensures forall p :: p in r.props <==> p in a.props || p in ForInKeys(b)
    ensures forall p :: p in ForInKeys(b) && (!prepend || p !in a.props) ==> r.props[p] == Prop(b, p)
    ensures forall p :: p in a.props && (p !in ForInKeys(b) || prepend) ==> r.props[p] == a.props[p]
  {
    ExtendKeys(a, b, ForInKeys(b), prepend)
  }

  /**
   * One property of `extendMeta`: a new name is set; two arrays are concatenated (the new
   * one first when prepending); two values of type 'object' are merged by `extend`;
   * otherwise the new value replaces the prev one unless prepending.
   */
  function MergeValue(prev: Json, val: Json, prepend: bool): (r: Json)
    ensures Scalar(val) && !prepend ==> r == val
    ensures prepend && Scalar(prev) ==> r == prev
    ensures prev.JArr? && val.JArr? ==> r == JArr(if prepend then val.items + prev.items else prev.items + val.items)
  {
    if val.JArr? && prev.JArr? then
      JArr(if prepend then val.items + prev.items else prev.items + val.items)
    else if IsObjectType(val) && IsObjectType(prev) then
      Extend(Extend(EmptyObject(), prev, false), val, prepend)
    else if !prepend then val
    else prev
  }

  /** `extendMeta(a, b, prepend)` over the property names `ks` of `b`. */
  function ExtendMetaKeys(a: Json, b: Json, ks: seq<string>, prepend: bool): (r: Json)
    requires a.JObj?
    ensures r.JObj?
    ensures forall p :: p in r.props <==> p in a.props || p in ks
    ensures forall p :: p in a.props && p !in ks ==> r.props[p] == a.props[p]
    ensures forall p :: p in ks && p !in a.props && Scalar(Prop(b, p)) ==> r.props[p] == Prop(b, p)
    ensures forall p :: p in ks && Scalar(Prop(b, p)) && !prepend ==> r.props[p] == Prop(b, p)
    ensures forall p :: p in a.props && Scalar(a.props[p]) && prepend ==> r.props[p] == a.props[p]
    decreases |ks|
  {
    if |ks| == 0 then a
    else
      var p := ks[0];
      var val := Prop(b, p);
      var next := if p !in a.props then Put(a, p, val) else Put(a, p, MergeValue(a.props[p], val, prepend));
      var r := ExtendMetaKeys(next, b, ks[1..], prepend);
      assert forall x :: x in ks <==> x == p || x in ks[1..] by {
        assert ks == [p] + ks[1..];
      }
      r
  }

  /**
   * `extendMeta(a, b, prepend)`: merges the metadata `b` into the object `a`. When
   * prepending, what `a` already holds as a plain value wins; otherwise `b`'s plain
   * values win.
   */
  function ExtendMeta(a: Json, b: Json, prepend: bool): (r: Json)
    requires a.JObj?
    ensures r.JObj?
    ensures forall p :: p in r.props <==> p in a.props || p in ForInKeys(b)
    ensures forall p :: p in a.props && p !in ForInKeys(b) ==> r.props[p] == a.props[p]
    ensures forall p :: p in ForInKeys(b) && p !in a.props && Scalar(Prop(b, p)) ==> r.props[p] == Prop(b, p)
    ensures forall p :: p in ForInKeys(b) && Scalar(Prop(b, p)) && !prepend ==> r.props[p] == Prop(b, p)
    ensures forall p :: p in a.props && Scalar(a.props[p]) && prepend ==> r.props[p] == a.props[p]
  {
    ExtendMetaKeys(a, b, ForInKeys(b), prepend)
  }

  /**
   * The wildcard test of `readMeta` as written: the part of `pattern` before its first
   * "*" must be a prefix of the path and the part after it the same length of the path's
   * end, both compared with `substr`.
   */
  predicate WildcardMatches(pattern: string, path: string, star: nat)
    requires star < |pattern|
  {
    && Substr(pattern, 0, star) == Substr(path, 0, star)
    && SubstrFrom(pattern, star + 1) == SubstrFrom(path, |path| - |pattern| + star + 1)
  }

  /** The wildcard test is a prefix test and a suffix test; the two parts may overlap. */
  lemma WildcardMatchesIff(pattern: string, path: string, star: nat)
    requires star < |pattern|
    ensures WildcardMatches(pattern, path, star) <==>
      StartsWith(path, pattern[..star]) && EndsWith(path, pattern[star + 1..])
  {
    var suffix := pattern[star + 1..];
    assert SubstrFrom(pattern, star + 1) == suffix;
    var start := |path| - |pattern| + star + 1;
    assert start == |path| - |suffix|;
    if start >= 0 {
      assert SubstrFrom(path, start) == path[start..];
    } else {
      assert |SubstrFrom(path, start)| < |suffix|;
    }
    if star <= |path| {
      assert Substr(path, 0, star) == path[..star];
    } else {
      assert |Substr(path, 0, star)| < star;
    }
  }

  /** The state of the `readMeta` loop: the metadata so far and the deepest match depth. */
  datatype Reading = Reading(meta: Json, bestDepth: nat)

  /** The `readMeta` loop over the pattern names `ks` of `pkgMeta`. */
  function ApplyWildcards(path: string, pkgMeta: Json, ks: seq<string>, st: Reading): (r: Reading)
    requires st.meta.JObj?
    ensures r.meta.JObj?
    ensures r.bestDepth >= st.bestDepth
    ensures (forall i :: 0 <= i < |ks| ==> '*' !in ks[i]) ==> r == st
    decreases |ks|
  {
    if |ks| == 0 then st
    else
      var pattern := ks[0];
      var star := IndexOf(pattern, '*');
      var next :=
        if star == -1 || !WildcardMatches(pattern, path, star) then st
        else
          var depth := SplitCount(pattern, '/');
          var best := if depth > st.bestDepth then depth else st.bestDepth;
          Reading(ExtendMeta(st.meta, Prop(pkgMeta, pattern), best != depth), best);
      ApplyWildcards(path, pkgMeta, ks[1..], next)
  }

  /**
   * `readMeta(pkgPath, pkgMeta)`: the metadata of the matching wildcard patterns. Exact
   * (wildcard-free) entries are not applied: when the merged metadata has a truthy
   * property named by the path itself, the source refers to an undefined variable and
   * fails.
   */
  function ReadMeta(path: string, pkgMeta: Json): (r: Result<Json, string>)
    ensures r.Success? ==> r.value.JObj? && !TruthyOpt(Get(r.value, path))
    ensures r.Failure? <==> TruthyOpt(Get(ApplyWildcards(path, pkgMeta, ForInKeys(pkgMeta), Reading(EmptyObject(), 0)).meta, path))
  {
    var st := ApplyWildcards(path, pkgMeta, ForInKeys(pkgMeta), Reading(EmptyObject(), 0));
    if TruthyOpt(Get(st.meta, path)) then Failure("ReferenceError: load is not defined")
    else Success(st.meta)
  }

  /** A configuration with no wildcard patterns gives every file empty metadata. */
  lemma ExactEntriesIgnored(path: string, pkgMeta: Json)
    requires forall i :: 0 <= i < |ForInKeys(pkgMeta)| ==> '*' !in ForInKeys(pkgMeta)[i]
    ensures ReadMeta(path, pkgMeta) == Success(EmptyObject())
  {
  }

  /**
   * With a single pattern "*" (which every path matches) the file's metadata is the
   * pattern's plain properties.
   */
  lemma StarAppliesEverywhere(path: string, value: Json, p: string)
    requires p in ForInKeys(value) && Scalar(Prop(value, p)) && path !in ForInKeys(value)
    ensures var pkgMeta := JObj(["*"], map["*" := value]);
      ReadMeta(path, pkgMeta).Success? && Get(ReadMeta(path, pkgMeta).value, p) == Some(Prop(value, p))
  {
    var pkgMeta := JObj(["*"], map["*" := value]);
    assert ForInKeys(pkgMeta) == ["*"];
    assert Prop(pkgMeta, "*") == value;
    var st0 := Reading(EmptyObject(), 0);
    var st := ApplyWildcards(path, pkgMeta, ["*"], st0);
    StarStep(path, pkgMeta, st0);
    assert st.meta == ExtendMeta(EmptyObject(), value, false);
    assert st.meta.props[p] == Prop(value, p);
    assert path !in st.meta.props;
    assert ReadMeta(path, pkgMeta) == Success(st.meta);
  }

  /** The single step of `StarAppliesEverywhere`: "*" matches at depth 1. */
  lemma StarStep(path: string, pkgMeta: Json, st: Reading)
    requires st == Reading(EmptyObject(), 0)
    ensures ApplyWildcards(path, pkgMeta, ["*"], st) == Reading(ExtendMeta(EmptyObject(), Prop(pkgMeta, "*"), false), 1)
  {
    WildcardMatchesIff("*", path, 0);
    assert "*"[..0] == "" && "*"[1..] == "";
    assert IndexOf("*", '*') == 0;
    assert SplitCount("*", '/') == 1 by {
      assert "*"[1..] == "";
    }
    assert ["*"][1..] == [];
  }

  /** One matching pattern applied to the `readMeta` state. */
  lemma ApplyOne(path: string, pkgMeta: Json, pattern: string, st: Reading)
    requires st.meta.JObj? && '*' in pattern
    requires WildcardMatches(pattern, path, IndexOf(pattern, '*'))
    ensures var depth := SplitCount(pattern, '/');
      var best := if depth > st.bestDepth then depth else st.bestDepth;
      ApplyWildcards(path, pkgMeta, [pattern], st) ==
        Reading(ExtendMeta(st.meta, Prop(pkgMeta, pattern), best != depth), best)
  {
    assert [pattern][1..] == [];
  }

  /**
   * Of two matching patterns, the one with more path segments decides the plain values
   * it sets, whichever of the two is listed first.
   */
  lemma DeeperPatternWins(path: string, pkgMeta: Json, shallow: string, deep: string, p: string)
    requires ForInKeys(pkgMeta) == [shallow, deep] || ForInKeys(pkgMeta) == [deep, shallow]
    requires '*' in shallow && '*' in deep
    requires WildcardMatches(shallow, path, IndexOf(shallow, '*'))
    requires WildcardMatches(deep, path, IndexOf(deep, '*'))
    requires SplitCount(shallow, '/') < SplitCount(deep, '/')
    requires p in ForInKeys(Prop(pkgMeta, deep)) && Scalar(Prop(Prop(pkgMeta, deep), p))
    ensures var st := ApplyWildcards(path, pkgMeta, ForInKeys(pkgMeta), Reading(EmptyObject(), 0));
      p in st.meta.props && st.meta.props[p] == Prop(Prop(pkgMeta, deep), p)
  {
    if ForInKeys(pkgMeta) == [shallow, deep] {
      DeepSecond(path, pkgMeta, shallow, deep, p);
    } else {
      DeepFirst(path, pkgMeta, shallow, deep, p);
    }
  }

  /** Both patterns applied in turn, from the empty metadata. */
  lemma ApplyTwo(path: string, pkgMeta: Json, first: string, second: string)
    requires '*' in first && '*' in second
    requires WildcardMatches(first, path, IndexOf(first, '*'))
    requires WildcardMatches(second, path, IndexOf(second, '*'))
    ensures var st1 := Reading(ExtendMeta(EmptyObject(), Prop(pkgMeta, first), false), SplitCount(first, '/'));
      ApplyWildcards(path, pkgMeta, [first, second], Reading(EmptyObject(), 0)) ==
        ApplyWildcards(path, pkgMeta, [second], st1)
  {
    var st0 := Reading(EmptyObject(), 0);
    ApplyOne(path, pkgMeta, first, st0);
    assert [first, second][1..] == [second];
  }

  /** The deeper pattern listed second overrides the plain values of the first. */
  lemma DeepSecond(path: string, pkgMeta: Json, shallow: string, deep: string, p: string)
    requires '*' in shallow && '*' in deep
    requires WildcardMatches(shallow, path, IndexOf(shallow, '*'))
    requires WildcardMatches(deep, path, IndexOf(deep, '*'))
    requires SplitCount(shallow, '/') < SplitCount(deep, '/')
    requires p in ForInKeys(Prop(pkgMeta, deep)) && Scalar(Prop(Prop(pkgMeta, deep), p))
    ensures var st := ApplyWildcards(path, pkgMeta, [shallow, deep], Reading(EmptyObject(), 0));
      p in st.meta.props && st.meta.props[p] == Prop(Prop(pkgMeta, deep), p)
  {
    ApplyTwo(path, pkgMeta, shallow, deep);
    var st1 := Reading(ExtendMeta(EmptyObject(), Prop(pkgMeta, shallow), false), SplitCount(shallow, '/'));
    ApplyOne(path, pkgMeta, deep, st1);
  }

  /** The deeper pattern listed first keeps its plain values against the second. */
  lemma DeepFirst(path: string, pkgMeta: Json, shallow: string, deep: string, p: string)
    requires '*' in shallow && '*' in deep
    requires WildcardMatches(shallow, path, IndexOf(shallow, '*'))
    requires WildcardMatches(deep, path, IndexOf(deep, '*'))
    requires SplitCount(shallow, '/') < SplitCount(deep, '/')
    requires p in ForInKeys(Prop(pkgMeta, deep)) && Scalar(Prop(Prop(pkgMeta, deep), p))
    ensures var st := ApplyWildcards(path, pkgMeta, [deep, shallow], Reading(EmptyObject(), 0));
      p in st.meta.props && st.meta.props[p] == Prop(Prop(pkgMeta, deep), p)
  {
    ApplyTwo(path, pkgMeta, deep, shallow);
    var st1 := Reading(ExtendMeta(EmptyObject(), Prop(pkgMeta, deep), false), SplitCount(deep, '/'));
    assert st1.meta.props[p] == Prop(Prop(pkgMeta, deep), p);
    ApplyOne(path, pkgMeta, shallow, st1);
  }

  /** `hasProperties(obj)`: the value has an enumerable property. */
  predicate HasProperties(j: Json) {
    |ForInKeys(j)| > 0
  }
}

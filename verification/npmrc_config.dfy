/**
 * The npm configuration the registry reads: the `.npmrc` in the home directory and the
 * one next to the project, decoded and merged key by key with the deep merge `dextend`,
 * the project file winning. The decoded files are inputs here; the module-level
 * configuration the source keeps between calls is explicit state.
 */
module NpmrcConfig {
  import opened Wrappers
  import opened JsNumber
  import opened Json

  /** Why a merge stops. */
  datatype MergeError =
    | TypeError        // a property of `null` is read or written
    | Unrepresentable  // an array is given a property that is neither an element nor the next one

  /**
   * `a[p] = v` has a value in this model: every object takes any property, and an array
   * takes an existing element or the one after its last.
   */
  predicate Writable(a: Json, p: string) {
    a.JObj? || (a.JArr? && ArrayIndex(p).Some? && ArrayIndex(p).value <= |a.items|)
  }

  /** `a[p] = v` */
  function Write(a: Json, p: string, v: Json): (r: Json)
    requires Writable(a, p)
    ensures a.JObj? ==> r == Put(a, p, v)
    ensures a.JArr? ==> r.JArr? && Get(r, p) == Some(v)
    ensures a.JArr? ==> |r.items| == if ArrayIndex(p).value < |a.items| then |a.items| else |a.items| + 1
    ensures a.JArr? ==> forall i :: 0 <= i < |a.items| && i != ArrayIndex(p).value ==> r.items[i] == a.items[i]
  {
    if a.JObj? then Put(a, p, v)
    else
      var k := ArrayIndex(p).value;
      var items := if k < |a.items| then a.items[k := v] else a.items + [v];
      GetIndex(items, k);
      JArr(items)
  }

  /** `typeof a[p] === 'object' ? a[p] : {}`: the value the merge descends into. */
  function Target(a: Json, p: string): (r: Json)
    ensures IsObjectType(r)
    ensures Get(a, p).Some? && IsObjectType(Get(a, p).value) ==> r == Get(a, p).value
    ensures !(Get(a, p).Some? && IsObjectType(Get(a, p).value)) ==> r == EmptyObject()
  {
    var current := Get(a, p);
    if current.Some? && IsObjectType(current.value) then current.value else EmptyObject()
  }

  /**
   * `dextend(a, b)`: every own property of `b` is copied onto `a`; a value of type
   * `object` (an object, an array or `null`) is merged into what `a` already holds there
   * when that is of type `object` too, and into a new `{}` otherwise. `b` is of type
   * `object`, as every caller passes, and so is `a`; a `null` `b` has no properties.
   */
  function Dextend(a: Json, b: Json): (r: Result<Json, MergeError>)
    requires IsObjectType(a) && IsObjectType(b) && WellFormed(b)
    ensures r.Success? ==> SameKind(a, r.value)
    ensures a.JNull? ==> (r.Success? <==> ForInKeys(b) == [])
    ensures a.JNull? && r.Success? ==> r.value == a
    decreases b, 2
  {
    match b
    case JObj(keys, _) => MergeProps(a, b, keys)
    case JArr(_) => MergeItems(a, b, 0)
    case _ => Success(a)
  }

  /** `r` is of the same kind of `object` as `a`: object, array or `null`. */
  predicate SameKind(a: Json, r: Json) {
    IsObjectType(r) && (a.JObj? <==> r.JObj?) && (a.JArr? <==> r.JArr?) && (a.JNull? <==> r.JNull?)
  }

  /** The loop over the property names `ks` of an object `b`. */
  function MergeProps(a: Json, b: Json, ks: seq<string>): (r: Result<Json, MergeError>)
    requires IsObjectType(a) && b.JObj? && WellFormed(b)
    requires forall k :: k in ks ==> k in b.props
    ensures r.Success? ==> SameKind(a, r.value)
    ensures a.JNull? ==> (r.Success? <==> ks == [])
    ensures a.JNull? && r.Success? ==> r.value == a
    decreases b, 1, |ks|
  {
    if |ks| == 0 then Success(a)
    else
      var next :- Assign(a, ks[0], b.props[ks[0]]);
      MergeProps(next, b, ks[1..])
  }

  /** The loop over the elements of an array `b`, from index `i` on. */
  function MergeItems(a: Json, b: Json, i: nat): (r: Result<Json, MergeError>)
    requires IsObjectType(a) && b.JArr? && WellFormed(b) && i <= |b.items|
    ensures r.Success? ==> SameKind(a, r.value)
    ensures a.JNull? ==> (r.Success? <==> i == |b.items|)
    ensures a.JNull? && r.Success? ==> r.value == a
    decreases b, 1, |b.items| - i
  {
    if i == |b.items| then Success(a)
    else
      var next :- Assign(a, Decimal(i), b.items[i]);
      MergeItems(next, b, i + 1)
  }

  /** One iteration: the property `p` of `a` receives `val`, merged or copied. */
  function Assign(a: Json, p: string, val: Json): (r: Result<Json, MergeError>)
    requires IsObjectType(a) && WellFormed(val)
    ensures r.Success? ==> SameKind(a, r.value)
    ensures a.JNull? ==> r == Failure(TypeError)
    ensures a.JObj? ==> (r.Success? <==> Merged(a, p, val).Success?)
    ensures a.JObj? && r.Success? ==> r.value == Put(a, p, Merged(a, p, val).value)
    decreases val, 4
  {
    if a.JNull? then Failure(TypeError)
    else if !Writable(a, p) then Failure(Unrepresentable)
    else
      var v :- Merged(a, p, val);
      Success(Write(a, p, v))
  }

  /** The value `a[p]` holds after the iteration for `p`. */
  function Merged(a: Json, p: string, val: Json): (r: Result<Json, MergeError>)
    requires WellFormed(val)
    ensures !IsObjectType(val) ==> r == Success(val)
    ensures r.Success? ==> IsObjectType(val) == IsObjectType(r.value)
    decreases val, 3
  {
    if IsObjectType(val) then Dextend(Target(a, p), val) else Success(val)
  }

  /** The enumeration order after the names `ks` are assigned in turn: new names go last. */
  function Appended(keys: seq<string>, ks: seq<string>): (r: seq<string>)
    ensures forall x :: x in r <==> x in keys || x in ks
    ensures |r| >= |keys| && r[..|keys|] == keys
    decreases |ks|
  {
    if |ks| == 0 then keys
    else
      var next := if ks[0] in keys then keys else keys + [ks[0]];
      var r := Appended(next, ks[1..]);
      assert r[..|keys|] == r[..|next|][..|keys|];
      r
  }

  predicate Distinct(ks: seq<string>) {
    forall i, j :: 0 <= i < j < |ks| ==> ks[i] != ks[j]
  }

  /**
   * Merging into an object, name by name: the merge succeeds exactly when every value of
   * `b` can be merged; then the names of `a` keep their order with the new ones after
   * them, a name only `a` has keeps its value, and a name of `b` holds its merged value.
   */
  lemma {:induction false} MergePropsSpec(a: Json, b: Json, ks: seq<string>)
    requires a.JObj? && b.JObj? && WellFormed(b) && Distinct(ks)
    requires forall k :: k in ks ==> k in b.props
    ensures MergeProps(a, b, ks).Success? <==> forall k :: k in ks ==> Merged(a, k, b.props[k]).Success?
    ensures MergeProps(a, b, ks).Success? ==>
      var r := MergeProps(a, b, ks).value;
      && r.keys == Appended(a.keys, ks)
      && (forall k :: k in r.props <==> k in a.props || k in ks)
      && (forall k :: k in a.props && k !in ks ==> r.props[k] == a.props[k])
      && (forall k :: k in ks ==> r.props[k] == Merged(a, k, b.props[k]).value)
    decreases |ks|
  {
    if |ks| > 0 {
      var k0, rest := ks[0], ks[1..];
      var m := Merged(a, k0, b.props[k0]);
      if m.Success? {
        var next := Put(a, k0, m.value);
        assert Assign(a, k0, b.props[k0]) == Success(next);
        assert MergeProps(a, b, ks) == MergeProps(next, b, rest);
        DistinctTail(ks);
        forall k | k in rest ensures Merged(next, k, b.props[k]) == Merged(a, k, b.props[k]) {
          MergedElsewhere(a, k0, m.value, k, b.props[k]);
        }
        MergePropsSpec(next, b, rest);
        assert Appended(a.keys, ks) == Appended(next.keys, rest);
      }
    }
  }

  lemma DistinctTail(ks: seq<string>)
    requires |ks| > 0 && Distinct(ks)
    ensures Distinct(ks[1..]) && ks[0] !in ks[1..]
  {
    forall i, j | 0 <= i < j < |ks[1..]| ensures ks[1..][i] != ks[1..][j] {
      assert ks[1..][i] == ks[i + 1] && ks[1..][j] == ks[j + 1];
    }
  }

  /** Setting one name leaves the merge of every other name as it was. */
  lemma MergedElsewhere(a: Json, p: string, v: Json, k: string, val: Json)
    requires a.JObj? && k != p && WellFormed(val)
    ensures Merged(Put(a, p, v), k, val) == Merged(a, k, val)
  {
    assert Get(Put(a, p, v), k) == Get(a, k);
  }

  /**
   * `dextend` of two objects: it fails exactly when some value of `b` cannot be merged;
   * otherwise a name only `a` has is untouched, a value of `b` that is not of type
   * `object` is copied, a value that is one is merged into `a`'s value there when that is
   * of type `object` and into `{}` otherwise, and new names follow `a`'s in `b`'s order.
   */
  lemma DextendObjects(a: Json, b: Json)
    requires a.JObj? && b.JObj? && WellFormed(b)
    ensures Dextend(a, b).Success? <==> forall k :: k in b.props ==> Merged(a, k, b.props[k]).Success?
    ensures Dextend(a, b).Success? ==>
      var r := Dextend(a, b).value;
      && r.keys == Appended(a.keys, b.keys)
      && (forall k :: k in r.props <==> k in a.props || k in b.props)
      && (forall k :: k in a.props && k !in b.props ==> r.props[k] == a.props[k])
      && (forall k :: k in b.props && !IsObjectType(b.props[k]) ==> r.props[k] == b.props[k])
      && (forall k :: k in b.props && IsObjectType(b.props[k]) ==> Success(r.props[k]) == Dextend(Target(a, k), b.props[k]))
  {
    MergePropsSpec(a, b, b.keys);
  }

  /** Merging a value into itself changes nothing, at any depth. */
  lemma {:induction false} SelfMerge(x: Json)
    requires IsObjectType(x) && WellFormed(x)
    ensures Dextend(x, x) == Success(x)
    decreases x, 2
  {
    match x
    case JObj(keys, _) => SelfMergeProps(x, keys);
    case JArr(_) => SelfMergeItems(x, 0);
    case JNull =>
  }

  lemma {:induction false} SelfMergeProps(x: Json, ks: seq<string>)
    requires x.JObj? && WellFormed(x)
    requires forall k :: k in ks ==> k in x.props
    ensures MergeProps(x, x, ks) == Success(x)
    decreases x, 1, |ks|
  {
    if |ks| > 0 {
      SelfAssign(x, ks[0], x.props[ks[0]]);
      SelfMergeProps(x, ks[1..]);
    }
  }

  lemma {:induction false} SelfMergeItems(x: Json, i: nat)
    requires x.JArr? && WellFormed(x) && i <= |x.items|
    ensures MergeItems(x, x, i) == Success(x)
    decreases x, 1, |x.items| - i
  {
    if i < |x.items| {
      GetIndex(x.items, i);
      ArrayIndexOfDecimal(i);
      SelfAssign(x, Decimal(i), x.items[i]);
      SelfMergeItems(x, i + 1);
    }
  }

  lemma {:induction false} SelfAssign(x: Json, p: string, v: Json)
    requires (x.JObj? && WellFormed(x)) || x.JArr?
    requires Writable(x, p) && Get(x, p) == Some(v) && WellFormed(v)
    ensures Assign(x, p, v) == Success(x)
    decreases v, 4
  {
    if IsObjectType(v) {
      SelfMerge(v);
    }
    assert Merged(x, p, v) == Success(v);
    if x.JObj? {
      assert x.props[p := v] == x.props;
    } else {
      var k := ArrayIndex(p).value;
      assert k < |x.items| && x.items[k] == v;
      assert x.items[k := v] == x.items;
    }
  }

  /**
   * An array in the project file, under a name the home file has no `object` for, is
   * merged into `{}` and so turns into an object keyed `"0"`, `"1"`, ….
   */
  lemma ProjectArrayBecomesObject(a: Json, k: string, s: string)
    requires a.JObj? && k !in a.props
    ensures var b := JObj([k], map[k := JArr([JStr(s)])]);
      && Dextend(a, b).Success?
      && Get(Dextend(a, b).value, k) == Some(JObj(["0"], map["0" := JStr(s)]))
  {
    var b := JObj([k], map[k := JArr([JStr(s)])]);
    ArrayIntoEmpty(s);
    DextendObjects(a, b);
    assert Target(a, k) == EmptyObject();
  }

  /** A one-item array merged into `{}` is the object keyed `"0"`. */
  lemma ArrayIntoEmpty(s: string)
    ensures Dextend(EmptyObject(), JArr([JStr(s)])) == Success(JObj(["0"], map["0" := JStr(s)]))
  {
    var item := JObj(["0"], map["0" := JStr(s)]);
    assert Decimal(0) == "0";
    assert Put(EmptyObject(), "0", JStr(s)) == item;
    assert Merged(EmptyObject(), "0", JStr(s)) == Success(JStr(s));
    assert Assign(EmptyObject(), "0", JStr(s)) == Success(item);
    assert MergeItems(EmptyObject(), JArr([JStr(s)]), 0) == MergeItems(item, JArr([JStr(s)]), 1);
  }

  /**
   * A `null` in the home file under a name whose project value is a non-empty object or
   * array stops the merge: `dextend` reads a property of `null`.
   */
  lemma NullBlocksMerge(a: Json, b: Json, k: string)
    requires a.JObj? && b.JObj? && WellFormed(b)
    requires k in a.props && a.props[k] == JNull
    requires k in b.props && IsObjectType(b.props[k]) && ForInKeys(b.props[k]) != []
    ensures Dextend(a, b).Failure?
  {
    DextendObjects(a, b);
    assert Target(a, k) == JNull;
  }

  /**
   * A decoded `.npmrc`: `ini.decode` gives an object, and this model takes it well formed.
   * `None` stands for a file that is missing or empty, which is not decoded at all.
   */
  ghost predicate Decoded(file: Option<Json>) {
    file.Some? ==> file.value.JObj? && WellFormed(file.value)
  }

  /** The module-level `npmrc`: `undefined`, or an object. */
  predicate Stored(npmrc: Option<Json>) {
    npmrc.Some? ==> npmrc.value.JObj?
  }

  /**
   * What `readNpmrcFiles` leaves behind: the module-level `npmrc` it assigns, and the
   * configuration, or the error `dextend` throws.
   */
  datatype Reading = Reading(npmrc: Option<Json>, config: Result<Json, MergeError>)

  /**
   * `readNpmrcFiles()` with the module-level `npmrc` of earlier calls. The home file, when
   * present, replaces it; the project file is then used alone when there is nothing else
   * and merged over it otherwise; with neither, an earlier configuration stays and a first
   * call gets `{}`.
   */
  function ReadNpmrcFiles(npmrc: Option<Json>, home: Option<Json>, project: Option<Json>): (r: Reading)
    requires Stored(npmrc) && Decoded(home) && Decoded(project)
    ensures Stored(r.npmrc) && r.npmrc.Some?
    ensures r.config.Success? ==> r.npmrc == Some(r.config.value)
    ensures r.config.Failure? ==> home.Some? || npmrc.Some?
    ensures r.config.Failure? ==> r.npmrc == if home.Some? then home else npmrc
    ensures project.None? ==> r.config.Success?
  {
    var current := if home.Some? then home else npmrc;
    if project.Some? then
      if current.None? then Reading(project, Success(project.value))
      else
        var merged := Dextend(current.value, project.value);
        if merged.Success? then Reading(Some(merged.value), merged)
        else Reading(current, merged)
    else if current.None? then Reading(Some(EmptyObject()), Success(EmptyObject()))
    else Reading(current, Success(current.value))
  }

  /**
   * `get(name)`: the files are read again on every call, since `initializedNpmrc` is never
   * set, and the named setting of the result is returned.
   */
  function ConfigGet(npmrc: Option<Json>, home: Option<Json>, project: Option<Json>, name: string): (r: (Option<Json>, Result<Option<Json>, MergeError>))
    requires Stored(npmrc) && Decoded(home) && Decoded(project)
    ensures var reading := ReadNpmrcFiles(npmrc, home, project);
      && r.0 == reading.npmrc
      && (r.1.Success? <==> reading.config.Success?)
      && (r.1.Success? ==> r.1.value == Get(reading.config.value, name))
  {
    var reading := ReadNpmrcFiles(npmrc, home, project);
    (reading.npmrc, if reading.config.Success? then Success(Get(reading.config.value, name)) else Failure(reading.config.error))
  }

  /** `json()`: the whole configuration, read again on every call. */
  function ConfigJson(npmrc: Option<Json>, home: Option<Json>, project: Option<Json>): (r: (Option<Json>, Result<Json, MergeError>))
    requires Stored(npmrc) && Decoded(home) && Decoded(project)
    ensures r.1.Success? ==> r.0 == Some(r.1.value) && r.1.value.JObj?
    ensures project.None? ==> r.1.Success?
  {
    var reading := ReadNpmrcFiles(npmrc, home, project);
    (reading.npmrc, reading.config)
  }

  /** The home file alone is the configuration, whatever an earlier call left. */
  lemma HomeAlone(npmrc: Option<Json>, home: Json)
    requires Stored(npmrc) && Decoded(Some(home))
    ensures ReadNpmrcFiles(npmrc, Some(home), None) == Reading(Some(home), Success(home))
  {
  }

  /** On a first call the project file alone is the configuration, and no file gives `{}`. */
  lemma FirstCallOneFile(project: Json)
    requires Decoded(Some(project))
    ensures ReadNpmrcFiles(None, None, Some(project)).config == Success(project)
    ensures ReadNpmrcFiles(None, None, None).config == Success(EmptyObject())
  {
  }

  /**
   * With both files the project file wins name by name: its values that are not of type
   * `object` replace the home file's, and a name only the home file has keeps its value.
   */
  lemma ProjectOverridesHome(npmrc: Option<Json>, home: Json, project: Json)
    requires Stored(npmrc) && Decoded(Some(home)) && Decoded(Some(project))
    ensures var config := ReadNpmrcFiles(npmrc, Some(home), Some(project)).config;
      && (config.Success? <==> forall k :: k in project.props ==> Merged(home, k, project.props[k]).Success?)
      && (config.Success? ==>
        && (forall k :: k in project.props && !IsObjectType(project.props[k]) ==> Get(config.value, k) == Some(project.props[k]))
        && (forall k :: k in home.props && k !in project.props ==> Get(config.value, k) == Some(home.props[k]))
        && (forall k :: k in home.props || k in project.props <==> Get(config.value, k).Some?))
  {
    DextendObjects(home, project);
  }

  /**
   * Every call reads the files again: when the home file is there, nothing an earlier call
   * left behind makes a difference.
   */
  lemma EveryCallRereads(earlier: Option<Json>, later: Option<Json>, home: Json, project: Option<Json>)
    requires Stored(earlier) && Stored(later) && Decoded(Some(home)) && Decoded(project)
    ensures ReadNpmrcFiles(earlier, Some(home), project) == ReadNpmrcFiles(later, Some(home), project)
  {
  }

  /**
   * Without a home file, what an earlier call left behind is still used: a home file that
   * has gone away keeps its settings, where a first call would get `{}`.
   */
  lemma RemovedHomeStillSeen(home: Json)
    requires Decoded(Some(home))
    ensures var first := ReadNpmrcFiles(None, Some(home), None);
      ReadNpmrcFiles(first.npmrc, None, None).config == Success(home)
  {
  }

  /**
   * From a first call on, reading the same files again gives the same configuration: in
   * particular the project file alone, once stored, is merged into itself.
   */
  lemma RereadStable(home: Option<Json>, project: Option<Json>)
    requires Decoded(home) && Decoded(project)
    ensures var first := ReadNpmrcFiles(None, home, project);
      first.config.Success? ==> ReadNpmrcFiles(first.npmrc, home, project) == first
  {
    if home.None? && project.Some? {
      SelfMerge(project.value);
    }
  }
}

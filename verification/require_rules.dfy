/**
 * What the conversion infers from one file once it is analysed: the directory-index
 * alias, and for each module the file loads, the self-reference, core-module, JSON and
 * extension rules.
 */
module RequireRules {
  import opened Wrappers
  import opened JsString
  import opened JsObject
  import opened Json
  import opened PackageMeta
  import CoreModules
  import NodeResolve
  import Uri

  /**
   * The tables being inferred: `meta` and `paths` (the package's `map`) are `None` when
   * the package configures them itself, `common` holds the common metadata of every folder prefix, `coreDeps` the
   * core modules that need a peer dependency.
   */
  datatype State = State(
    meta: Option<OrdMap<MetaEntry>>,
    paths: Option<OrdMap<MapTarget>>,
    common: OrdMap<MetaConfig>,
    coreDeps: seq<string>)

  /**
   * Each table lists each of its keys once; no core dependency is listed twice, and each
   * is a core module served by an npm package.
   */
  ghost predicate Valid(st: State) {
    && (st.meta.Some? ==> st.meta.value.Valid())
    && (st.paths.Some? ==> st.paths.value.Valid())
    && st.common.Valid()
    && (forall i, j :: 0 <= i < j < |st.coreDeps| ==> st.coreDeps[i] != st.coreDeps[j])
    && (forall d :: d in st.coreDeps ==> Served(d))
  }

  /** A core module whose browser version is an npm package rather than a shim. */
  predicate Served(d: string) {
    CoreModules.Lookup(d).Some? && !CoreModules.IsShim(CoreModules.Lookup(d).value)
  }

  /** Inference only adds: no table appears or disappears, and no key or dependency is lost. */
  ghost predicate Grows(st: State, r: State) {
    && (st.meta.Some? <==> r.meta.Some?)
    && (st.meta.Some? ==> st.meta.value.vals.Keys <= r.meta.value.vals.Keys)
    && (st.paths.Some? <==> r.paths.Some?)
    && (st.paths.Some? ==> st.paths.value.vals.Keys <= r.paths.value.vals.Keys)
    && (forall d :: d in st.coreDeps ==> d in r.coreDeps)
  }

  /** `if (map) map[k] = v` */
  function SetMap(st: State, k: string, v: MapTarget): (r: State)
    requires Valid(st)
    ensures Valid(r) && Grows(st, r)
    ensures r.meta == st.meta && r.common == st.common && r.coreDeps == st.coreDeps
    ensures r.paths.Some? <==> st.paths.Some?
    ensures r.paths.Some? ==> r.paths.value.vals == st.paths.value.vals[k := v]
  {
    if st.paths.Some? then st.(paths := Some(st.paths.value.Put(k, v))) else st
  }

  /** `if (coreDeps.indexOf(d) == -1) coreDeps.push(d)` */
  function AddCoreDep(st: State, d: string): (r: State)
    requires Valid(st) && Served(d)
    ensures Valid(r) && Grows(st, r)
    ensures r.meta == st.meta && r.paths == st.paths && r.common == st.common
    ensures d in r.coreDeps && forall x :: x in r.coreDeps <==> x in st.coreDeps || x == d
  {
    if d in st.coreDeps then st else st.(coreDeps := st.coreDeps + [d])
  }

  /** `meta[p] = meta[p] || true`: an existing entry is kept, otherwise `true` is recorded. */
  function MarkMeta(st: State, p: string): (r: State)
    requires Valid(st) && st.meta.Some?
    ensures Valid(r) && Grows(st, r)
    ensures r.paths == st.paths && r.common == st.common && r.coreDeps == st.coreDeps
    ensures r.meta.Some? && p in r.meta.value.vals
    ensures p in st.meta.value.vals ==> r.meta == st.meta
    ensures p !in st.meta.value.vals ==> r.meta.value.vals == st.meta.value.vals[p := Flag]
  {
    if p in st.meta.value.vals then st else st.(meta := Some(st.meta.value.Put(p, Flag)))
  }

  /**
   * A CommonJS `D/index.js` whose sibling `D.js` is not in the tree gets the alias
   * `./D.js` to `./D/index.js`, since the loader would not look inside the folder.
   */
  function IndexAlias(st: State, file: string, fileFormat: string, tree: seq<string>): (r: State)
    requires Valid(st)
    ensures Valid(r) && Grows(st, r)
    ensures r.meta == st.meta && r.common == st.common && r.coreDeps == st.coreDeps
    ensures (fileFormat == "cjs" && EndsWith(file, "/index.js") && file[..|file| - 9] + ".js" !in tree) ==>
      r == SetMap(st, "./" + file[..|file| - 9] + ".js", Alias("./" + file))
    ensures !(fileFormat == "cjs" && EndsWith(file, "/index.js") && file[..|file| - 9] + ".js" !in tree) ==> r == st
  {
    SubstrSuffix(file, "/index.js");
    if fileFormat == "cjs" && Substr(file, |file| - 9, 9) == "/index.js" && Substr(file, 0, |file| - 9) + ".js" !in tree then
      assert Substr(file, 0, |file| - 9) == file[..|file| - 9];
      SetMap(st, "./" + Substr(file, 0, |file| - 9) + ".js", Alias("./" + file))
    else
      assert EndsWith(file, "/index.js") ==> Substr(file, 0, |file| - 9) == file[..|file| - 9];
      st
  }

  /**
   * The self-reference test as written: the request starts with the package name and a
   * "/", or merely has the same length as the name (`&&` binds tighter than `||`).
   */
  predicate IsSelfReference(req: string, name: string) {
    (Substr(req, 0, |name|) == name && CharAt(req, |name|) == Some('/')) || |req| == |name|
  }

  /** The test accepts `name/…`, and also every request exactly as long as the name. */
  lemma SelfReferenceIff(req: string, name: string)
    ensures IsSelfReference(req, name) <==> StartsWith(req, name + "/") || |req| == |name|
  {
    SubstrPrefix(req, name);
    if StartsWith(req, name + "/") {
      assert req[..|name|] == name;
    }
    if StartsWith(req, name) && CharAt(req, |name|) == Some('/') {
      assert req[..|name| + 1] == name + "/";
    }
  }

  /** A resolved path that the loader would not find by adding ".js" itself. */
  predicate NeedsExtensionMeta(res: string) {
    || Substr(res, |res| - 3, 3) != ".js"
    || Substr(res, |res| - 6, 6) == ".js.js"
    || Substr(res, |res| - 8, 8) == ".json.js"
  }

  /**
   * One module loaded by `file`. Failure when the module is not a string or the package
   * has no name (both throw a TypeError in the source).
   */
  function ApplyRequire(st: State, req: Json, file: string, fileFormat: string, name: Option<string>, tree: seq<string>): (r: Result<State, string>)
    requires Valid(st)
    ensures r.Success? ==> Valid(r.value) && Grows(st, r.value)
    ensures r.Failure? <==> !req.JStr? || name.None?
    ensures r.Success? ==> r.value.common == st.common
    ensures r.Success? && IsSelfReference(req.s, name.value) ==> r.value == SetMap(st, name.value, Alias("."))
    ensures r.Success? && !IsSelfReference(req.s, name.value) && CharAt(req.s, 0) != Some('.') ==>
      r.value.meta == st.meta
    ensures r.Success? && !IsSelfReference(req.s, name.value) && CharAt(req.s, 0) == Some('.') && fileFormat != "cjs" ==>
      r.value == st
    ensures r.Success? && !IsSelfReference(req.s, name.value) && CharAt(req.s, 0) == Some('.') ==>
      forall x :: x in r.value.coreDeps <==> x in st.coreDeps
  {
    if !req.JStr? then Failure("TypeError: req.substr is not a function")
    else if name.None? then Failure("TypeError: Cannot read property 'length' of undefined")
    else
      var rq := req.s;
      var n := name.value;
      if IsSelfReference(rq, n) then Success(SetMap(st, n, Alias(".")))
      else if CharAt(rq, 0) != Some('.') then Success(CoreRequire(st, rq))
      else if fileFormat != "cjs" then Success(st)
      else Success(RelativeRequire(st, rq, file, tree))
  }

  /**
   * A bare module name: a core module with a shim is mapped to it, one served by an npm
   * package becomes a core dependency, any other name is left to the package manager.
   */
  function CoreRequire(st: State, req: string): (r: State)
    requires Valid(st)
    ensures Valid(r) && Grows(st, r)
    ensures r.meta == st.meta && r.common == st.common
    ensures CoreModules.Lookup(req).None? ==> r == st
    ensures CoreModules.Lookup(req).Some? && CoreModules.IsShim(CoreModules.Lookup(req).value) ==>
      r == SetMap(st, req, Alias(CoreModules.Lookup(req).value))
    ensures CoreModules.Lookup(req).Some? && !CoreModules.IsShim(CoreModules.Lookup(req).value) ==>
      r == AddCoreDep(st, req)
  {
    match CoreModules.Lookup(req)
    case None => st
    case Some(target) =>
      if IndexOf(target, ':') == -1 then SetMap(st, req, Alias(target))
      else AddCoreDep(st, req)
  }

  /** A resolution to a ".json" file that the request named without the extension. */
  predicate AddedJsonExtension(res: string, req: string) {
    Substr(res, |res| - 5, 5) == ".json" && Substr(req, |req| - 5, 5) != ".json"
  }

  lemma AddedJsonExtensionIff(res: string, req: string)
    ensures AddedJsonExtension(res, req) <==> EndsWith(res, ".json") && !EndsWith(req, ".json")
    ensures AddedJsonExtension(res, req) ==> Substr(res, 0, |res| - 5) == res[..|res| - 5]
  {
    SubstrSuffix(res, ".json");
    SubstrSuffix(req, ".json");
  }

  /**
   * A relative module of a CommonJS file, resolved against the tree: a resolution to a
   * ".json" file the request did not name gets an alias from the extension-less path;
   * otherwise a resolution the loader would not reproduce is marked in `meta`.
   */
  function RelativeRequire(st: State, req: string, file: string, tree: seq<string>): (r: State)
    requires Valid(st)
    ensures Valid(r) && Grows(st, r)
    ensures r.common == st.common && r.coreDeps == st.coreDeps
    ensures var res := NodeResolve.Resolve(req, file, tree, false);
      && (res.None? || res.value == "" ==> r == st)
      && (res.Some? && res.value != "" && AddedJsonExtension(res.value, req) ==>
            r == SetMap(st, "./" + Substr(res.value, 0, |res.value| - 5), Alias("./" + res.value)))
      && (res.Some? && res.value != "" && !AddedJsonExtension(res.value, req) ==>
            r == ResolvedRequire(st, res.value))
  {
    var res := NodeResolve.Resolve(req, file, tree, false);
    if res.None? || res.value == "" then st
    else if AddedJsonExtension(res.value, req) then
      SetMap(st, "./" + Substr(res.value, 0, |res.value| - 5), Alias("./" + res.value))
    else ResolvedRequire(st, res.value)
  }

  /** A resolution the loader would not reproduce is marked in `meta`, when it is inferred. */
  function ResolvedRequire(st: State, res: string): (r: State)
    requires Valid(st)
    ensures Valid(r) && Grows(st, r)
    ensures r.paths == st.paths && r.common == st.common && r.coreDeps == st.coreDeps
    ensures st.meta.Some? && NeedsExtensionMeta(res) ==> r == MarkMeta(st, res)
    ensures !(st.meta.Some? && NeedsExtensionMeta(res)) ==> r == st
  {
    if st.meta.Some? && NeedsExtensionMeta(res) then MarkMeta(st, res) else st
  }

  /** Every module of a file in turn; the first failure stops the file. */
  function ApplyRequires(st: State, reqs: seq<Json>, file: string, fileFormat: string, name: Option<string>, tree: seq<string>): (r: Result<State, string>)
    requires Valid(st)
    ensures r.Success? ==> Valid(r.value) && Grows(st, r.value) && r.value.common == st.common
    ensures r.Failure? <==> |reqs| > 0 && (name.None? || exists i :: 0 <= i < |reqs| && !reqs[i].JStr?)
    ensures |reqs| == 0 ==> r == Success(st)
    decreases |reqs|
  {
    if |reqs| == 0 then Success(st)
    else
      assert forall i :: 1 <= i < |reqs| ==> reqs[i] == reqs[1..][i - 1];
      match ApplyRequire(st, reqs[0], file, fileFormat, name, tree)
      case Failure(e) => Failure(e)
      case Success(next) => ApplyRequires(next, reqs[1..], file, fileFormat, name, tree)
  }

  /** A "./" prefix does not create a suffix that starts with "." and has no "/". */
  lemma DotSlashKeepsSuffix(p: string, t: string)
    requires |t| > 0 && t[0] == '.' && '/' !in t
    ensures EndsWith("./" + p, t) <==> EndsWith(p, t)
  {
    var req := "./" + p;
    if |p| >= |t| {
      assert req[|req| - |t|..] == p[|p| - |t|..];
    }
  }

  /**
   * A CommonJS request for a file that exists only with a ".json" extension gets an alias
   * from the extension-less path to the JSON file.
   */
  lemma JsonRequireAlias(st: State, p: string, file: string, name: string, tree: seq<string>)
    requires Valid(st)
    requires '/' !in file && Uri.RemoveDotSegments("/" + p) == "/" + p
    requires p !in tree && p + ".js" !in tree && p + ".json" in tree && !EndsWith(p, ".json")
    requires !IsSelfReference("./" + p, name)
    ensures ApplyRequire(st, JStr("./" + p), file, "cjs", Some(name), tree)
         == Success(SetMap(st, "./" + p, Alias("./" + p + ".json")))
  {
    var req := "./" + p;
    ResolvesFromRootFile(p, file, tree);
    JsonAliasOf(st, p, file, tree);
    assert CharAt(req, 0) == Some('.');
    assert ApplyRequire(st, JStr(req), file, "cjs", Some(name), tree) == Success(RelativeRequire(st, req, file, tree));
  }

  lemma ResolvesFromRootFile(p: string, file: string, tree: seq<string>)
    requires '/' !in file && Uri.RemoveDotSegments("/" + p) == "/" + p
    ensures NodeResolve.Resolve("./" + p, file, tree, false) == NodeResolve.Probe(p, tree)
  {
    var req := "./" + p;
    NodeResolve.ResolveFromRootFile(p, file);
    assert NodeResolve.IsRelative(req, file) by {
      assert req[..2] == "./";
    }
    var hit := NodeResolve.Probe(p, tree);
    assert hit.Some? ==> "" + hit.value == hit.value;
  }

  lemma JsonAliasOf(st: State, p: string, file: string, tree: seq<string>)
    requires Valid(st) && !EndsWith(p, ".json")
    requires NodeResolve.Resolve("./" + p, file, tree, false) == Some(p + ".json")
    ensures RelativeRequire(st, "./" + p, file, tree) == SetMap(st, "./" + p, Alias("./" + p + ".json"))
  {
    JsonExtensionAdded(p);
    assert "./" + (p + ".json") == "./" + p + ".json";
  }

  /** The request `./p` for the file `p.json`: the extension was added, and dropping it gives `p`. */
  lemma JsonExtensionAdded(p: string)
    requires !EndsWith(p, ".json")
    ensures AddedJsonExtension(p + ".json", "./" + p)
    ensures Substr(p + ".json", 0, |p + ".json"| - 5) == p
  {
    var req := "./" + p;
    DotSlashKeepsSuffix(p, ".json");
    var res := p + ".json";
    assert res[|res| - 5..] == ".json" && res[..|res| - 5] == p;
    AddedJsonExtensionIff(res, req);
  }

  /**
   * A CommonJS request for an existing file whose name does not end in ".js" marks the
   * file in `meta`, since the loader would otherwise add the extension.
   */
  lemma ExtensionlessFileMarked(st: State, p: string, file: string, name: string, tree: seq<string>)
    requires Valid(st) && st.meta.Some?
    requires '/' !in file && Uri.RemoveDotSegments("/" + p) == "/" + p
    requires p in tree && p != "" && !EndsWith(p, ".js") && !EndsWith(p, ".json")
    requires !IsSelfReference("./" + p, name)
    ensures ApplyRequire(st, JStr("./" + p), file, "cjs", Some(name), tree) == Success(MarkMeta(st, p))
  {
    var req := "./" + p;
    ResolvesFromRootFile(p, file, tree);
    AddedJsonExtensionIff(p, req);
    SubstrSuffix(p, ".js");
  }

  /** A core module with a shim is mapped to the shim, from any file and in any format. */
  /** The inferred `map`, when there is one, maps `d` to its shim. */
  ghost predicate MapsToShim(st: State, d: string) {
    st.paths.Some? ==> d in st.paths.value.vals && st.paths.value.vals[d] == Alias("nodelibs/" + d)
  }

  /** `map` entries the conversion writes under a "./" path leave a core module's entry alone. */
  lemma SetRelativeKeepsShim(st: State, k: string, v: MapTarget, d: string)
    requires Valid(st) && d in CoreModules.Shims && MapsToShim(st, d) && StartsWith(k, "./")
    ensures MapsToShim(SetMap(st, k, v), d)
  {
    CoreModules.NamesAreBare(d);
    assert k[0] == '.';
  }

  /**
   * No require other than a self-reference overwrites the shim entry of a core module:
   * a bare name writes its own entry, and every other key written starts with "./".
   */
  lemma ApplyRequireKeepsShim(st: State, req: Json, file: string, fileFormat: string, name: string, tree: seq<string>, d: string)
    requires Valid(st) && d in CoreModules.Shims && !IsSelfReference(d, name) && MapsToShim(st, d)
    requires ApplyRequire(st, req, file, fileFormat, Some(name), tree).Success?
    ensures MapsToShim(ApplyRequire(st, req, file, fileFormat, Some(name), tree).value, d)
  {
    var rq := req.s;
    if IsSelfReference(rq, name) {
      assert name != d;
    } else if CharAt(rq, 0) != Some('.') {
      CoreRequireKeepsShim(st, rq, d);
    } else if fileFormat == "cjs" {
      RelativeRequireKeepsShim(st, rq, file, tree, d);
    }
  }

  /** A bare name writes its own entry only, and a shim's entry is always the same. */
  lemma CoreRequireKeepsShim(st: State, rq: string, d: string)
    requires Valid(st) && d in CoreModules.Shims && MapsToShim(st, d)
    ensures MapsToShim(CoreRequire(st, rq), d)
  {
  }

  /** A relative require writes "./" paths only. */
  lemma RelativeRequireKeepsShim(st: State, rq: string, file: string, tree: seq<string>, d: string)
    requires Valid(st) && d in CoreModules.Shims && MapsToShim(st, d)
    ensures MapsToShim(RelativeRequire(st, rq, file, tree), d)
  {
    var res := NodeResolve.Resolve(rq, file, tree, false);
    if res.Some? && res.value != "" && AddedJsonExtension(res.value, rq) {
      SetRelativeKeepsShim(st, "./" + Substr(res.value, 0, |res.value| - 5), Alias("./" + res.value), d);
    }
  }

  /**
   * Through a file's whole list of requires: a shim core module among them, or one the
   * map already sends to its shim, is sent to its shim afterwards.
   */
  lemma {:induction false} RequiredShimMapped(st: State, reqs: seq<Json>, file: string, fileFormat: string,
                                              name: string, tree: seq<string>, d: string)
    requires Valid(st) && ApplyRequires(st, reqs, file, fileFormat, Some(name), tree).Success?
    requires d in CoreModules.Shims && !IsSelfReference(d, name)
    requires MapsToShim(st, d) || JStr(d) in reqs
    ensures MapsToShim(ApplyRequires(st, reqs, file, fileFormat, Some(name), tree).value, d)
    decreases |reqs|
  {
    if |reqs| > 0 {
      ApplyRequiresStep(st, reqs, file, fileFormat, name, tree);
      var next := ApplyRequire(st, reqs[0], file, fileFormat, Some(name), tree).value;
      if reqs[0] == JStr(d) {
        ShimRequire(st, d, file, fileFormat, name, tree);
      } else {
        InTail(reqs, JStr(d));
        if MapsToShim(st, d) {
          ApplyRequireKeepsShim(st, reqs[0], file, fileFormat, name, tree, d);
        }
      }
      RequiredShimMapped(next, reqs[1..], file, fileFormat, name, tree, d);
    }
  }

  /** A run over the requires that succeeds applies the first, then the rest. */
  lemma ApplyRequiresStep(st: State, reqs: seq<Json>, file: string, fileFormat: string, name: string, tree: seq<string>)
    requires Valid(st) && |reqs| > 0 && ApplyRequires(st, reqs, file, fileFormat, Some(name), tree).Success?
    ensures var next := ApplyRequire(st, reqs[0], file, fileFormat, Some(name), tree);
      && next.Success?
      && ApplyRequires(st, reqs, file, fileFormat, Some(name), tree) ==
         ApplyRequires(next.value, reqs[1..], file, fileFormat, Some(name), tree)
  {
  }

  /** A value of a list that is not its first is in the rest. */
  lemma InTail(s: seq<Json>, v: Json)
    requires |s| > 0 && s[0] != v
    ensures v in s <==> v in s[1..]
  {
    assert s == [s[0]] + s[1..];
  }

  /** A core module served by an npm package, required by name, becomes a core dependency. */
  lemma ServedRequire(st: State, d: string, file: string, fileFormat: string, name: string, tree: seq<string>)
    requires Valid(st) && Served(d) && !IsSelfReference(d, name)
    ensures ApplyRequire(st, JStr(d), file, fileFormat, Some(name), tree) == Success(AddCoreDep(st, d))
  {
    CoreModules.NamesAreBare(d);
  }

  /**
   * Through a file's whole list of requires: a served core module among them that is no
   * self-reference ends up a core dependency, whatever the requires after it do.
   */
  lemma {:induction false} RequiredServedIsDependency(st: State, reqs: seq<Json>, file: string, fileFormat: string,
                                                      name: string, tree: seq<string>, d: string)
    requires Valid(st) && ApplyRequires(st, reqs, file, fileFormat, Some(name), tree).Success?
    requires JStr(d) in reqs && Served(d) && !IsSelfReference(d, name)
    ensures d in ApplyRequires(st, reqs, file, fileFormat, Some(name), tree).value.coreDeps
    decreases |reqs|
  {
    ApplyRequiresStep(st, reqs, file, fileFormat, name, tree);
    var next := ApplyRequire(st, reqs[0], file, fileFormat, Some(name), tree).value;
    if reqs[0] == JStr(d) {
      ServedRequire(st, d, file, fileFormat, name, tree);
    } else {
      InTail(reqs, JStr(d));
      RequiredServedIsDependency(next, reqs[1..], file, fileFormat, name, tree, d);
    }
  }

  lemma ShimRequire(st: State, d: string, file: string, fileFormat: string, name: string, tree: seq<string>)
    requires Valid(st) && d in CoreModules.Shims && !IsSelfReference(d, name)
    ensures ApplyRequire(st, JStr(d), file, fileFormat, Some(name), tree)
         == Success(SetMap(st, d, Alias("nodelibs/" + d)))
  {
    var i :| 0 <= i < |CoreModules.Shims| && CoreModules.Shims[i] == d;
    assert d[0] != '.';
    CoreModules.ShimIffListed(d);
  }
}

/**
 * `convertPackage`: the package configuration inferred from a package descriptor and the
 * package's file tree, so that the package loads with Node resolution semantics.
 */
module Conversion {
  import opened Wrappers
  import opened JsString
  import opened JsObject
  import opened Json
  import opened PackageMeta
  import opened RequireRules
  import opened BrowserMap
  import CollapseMeta
  import Sorting
  import CoreModules
  import NodeResolve
  import Meta
  import Pragma
  import Transformer

  /** A configuration table: inferred (entries in key order) or the descriptor's own. */
  datatype Section<T> = Inferred(entries: seq<(string, T)>) | Given(value: Json)

  /** The converted configuration. Nothing ever adds to `dependencies`. */
  datatype PackageConfig = PackageConfig(
    main: Option<string>,
    format: string,
    meta: Option<Section<MetaEntry>>,
    paths: Option<Section<MapTarget>>,
    dependencies: seq<(string, string)>,
    peerDependencies: seq<(string, string)>)

  /** `pjson.systemjs || pjson` */
  function SystemConfig(pjson: Json): (r: Json)
    ensures Truthy(Prop(pjson, "systemjs")) ==> r == Prop(pjson, "systemjs")
    ensures !Truthy(Prop(pjson, "systemjs")) ==> r == pjson
  {
    if Truthy(Prop(pjson, "systemjs")) then Prop(pjson, "systemjs") else pjson
  }

  /** The package format: the configured format, CommonJS by default. */
  function PackageFormat(sc: Json): (r: string)
    ensures r != ""
    ensures StringProp(sc, "format") != "" ==> r == StringProp(sc, "format")
    ensures StringProp(sc, "format") == "" ==> r == "cjs"
  {
    if StringProp(sc, "format") != "" then StringProp(sc, "format") else "cjs"
  }

  /** The configured main (`index.js` by default) resolved against the tree. */
  function PackageMain(sc: Json, tree: seq<string>): (r: Option<string>)
    ensures var name := if StringProp(sc, "main") != "" then StringProp(sc, "main") else "index.js";
      && (r.None? <==> NodeResolve.Resolve(name, "", tree, false).None?)
      && (CharAt(name, 0) != Some('/') && !NodeResolve.IsRelative(name, "") ==> r == Some(name))
    ensures StringProp(sc, "main") == "" ==> r == Some("index.js")
  {
    var name := if StringProp(sc, "main") != "" then StringProp(sc, "main") else "index.js";
    NodeResolve.Resolve(name, "", tree, false)
  }

  /** The files of the tree: the listed paths that do not end in "/", in listing order. */
  function Files(tree: seq<string>): (r: seq<string>)
    ensures forall f :: f in r <==> f in tree && CharAt(f, |f| - 1) != Some('/')
    ensures |r| <= |tree|
  {
    if |tree| == 0 then []
    else
      var rest := Files(tree[1..]);
      assert forall f :: f in tree <==> f == tree[0] || f in tree[1..] by {
        assert tree == [tree[0]] + tree[1..];
      }
      if CharAt(tree[0], |tree[0]| - 1) != Some('/') then [tree[0]] + rest else rest
  }

  /**
   * The format a file is known to have before its analysis: the format of the configured
   * metadata that applies to it, else the configured package format ("" when neither).
   */
  function ExistingFormat(sc: Json, file: string): (r: Result<string, string>)
    ensures !Truthy(Prop(sc, "meta")) ==> r == Success(StringProp(sc, "format"))
    ensures Truthy(Prop(sc, "meta")) ==> (r.Failure? <==> Meta.ReadMeta(file, Prop(sc, "meta")).Failure?)
    ensures Truthy(Prop(sc, "meta")) && r.Success? ==>
      var m := Meta.ReadMeta(file, Prop(sc, "meta")).value;
      r.value == if StringProp(m, "format") != "" then StringProp(m, "format") else StringProp(sc, "format")
  {
    if !Truthy(Prop(sc, "meta")) then Success(StringProp(sc, "format"))
    else
      match Meta.ReadMeta(file, Prop(sc, "meta"))
      case Failure(e) => Failure(e)
      case Success(m) =>
        Success(if StringProp(m, "format") != "" then StringProp(m, "format") else StringProp(sc, "format"))
  }

  /** The known format of every file, computed for all files before any is analysed. */
  function ExistingFormats(sc: Json, files: seq<string>): (r: Result<seq<string>, string>)
    ensures r.Success? ==> |r.value| == |files|
    ensures r.Success? ==> forall i :: 0 <= i < |files| ==> ExistingFormat(sc, files[i]) == Success(r.value[i])
    ensures r.Failure? <==> exists i :: 0 <= i < |files| && ExistingFormat(sc, files[i]).Failure?
    decreases |files|
  {
    if |files| == 0 then Success([])
    else
      match ExistingFormat(sc, files[0])
      case Failure(e) => Failure(e)
      case Success(f) =>
        match ExistingFormats(sc, files[1..])
        case Failure(e) =>
          FailureInTail(sc, files);
          Failure(e)
        case Success(fs) =>
          FormatsCons(sc, files, f, fs);
          Success([f] + fs)
  }

  /** A file of the rest whose format cannot be read is a file of the whole list. */
  lemma FailureInTail(sc: Json, files: seq<string>)
    requires |files| > 0
    requires exists i :: 0 <= i < |files[1..]| && ExistingFormat(sc, files[1..][i]).Failure?
    ensures exists i :: 0 <= i < |files| && ExistingFormat(sc, files[i]).Failure?
  {
    var i :| 0 <= i < |files[1..]| && ExistingFormat(sc, files[1..][i]).Failure?;
    assert files[1..][i] == files[i + 1];
  }

  /** The format of the first file, then those of the rest. */
  lemma FormatsCons(sc: Json, files: seq<string>, f: string, fs: seq<string>)
    requires |files| > 0 && ExistingFormat(sc, files[0]) == Success(f) && |fs| == |files| - 1
    requires forall i :: 0 <= i < |files[1..]| ==> ExistingFormat(sc, files[1..][i]) == Success(fs[i])
    ensures forall i :: 0 <= i < |files| ==> ExistingFormat(sc, files[i]) == Success(([f] + fs)[i])
    ensures !exists i :: 0 <= i < |files| && ExistingFormat(sc, files[i]).Failure?
  {
    var rs := seq(|files|, i requires 0 <= i < |files| => ExistingFormat(sc, files[i]));
    ConsAll(files, rs, f, fs);
  }

  /** The same for any results `rs` of the files, one per file. */
  lemma ConsAll(files: seq<string>, rs: seq<Result<string, string>>, f: string, fs: seq<string>)
    requires |rs| == |files| > 0 && rs[0] == Success(f) && |fs| == |files| - 1
    requires forall i :: 0 <= i < |fs| ==> rs[i + 1] == Success(fs[i])
    ensures forall i :: 0 <= i < |files| ==> rs[i] == Success(([f] + fs)[i])
  {
  }

  /** The analysis of one file; a listed file that cannot be read fails the conversion. */
  function Analyse(sources: map<string, Pragma.FileSource>, file: string, format: string): (r: Result<Transformer.Analysis, string>)
    ensures r.Failure? <==> file !in sources
    ensures r.Success? ==> r.value == Pragma.ParseModule(sources[file], format)
  {
    if file in sources then Success(Pragma.ParseModule(sources[file], format))
    else Failure("ENOENT: " + file)
  }

  /**
   * The metadata a file leaves when `meta` is inferred: its own entry (which replaces a
   * `true` mark), the common metadata of its folders, and the `buffer` dependency of a
   * CommonJS file that uses `Buffer`.
   */
  function UpdateMeta(st: State, file: string, a: Transformer.Analysis, packageFormat: string): (r: State)
    requires Valid(st) && st.meta.Some?
    ensures Valid(r) && Grows(st, r) && r.paths == st.paths
    ensures var c := FileConfig(Recorded(st.meta.value, file), a.format, packageFormat, a.usesBuffer);
      && (c.Some? ==> r.meta.value.vals == st.meta.value.vals[file := Config(c.value)])
      && (c.None? ==> r.meta == st.meta)
      && r.common == AddCommon(st.common, Prefixes(file), c, a.format)
    ensures a.usesBuffer && a.format == "cjs" ==> "buffer" in r.coreDeps
    ensures !(a.usesBuffer && a.format == "cjs") ==> r.coreDeps == st.coreDeps
    ensures FoldersFirst(st.common) ==> FoldersFirst(r.common)
  {
    var meta := st.meta.value;
    var c := FileConfig(Recorded(meta, file), a.format, packageFormat, a.usesBuffer);
    var withDeps :=
      if a.usesBuffer && a.format == "cjs" then
        CoreModules.BufferIsDependency();
        AddCoreDep(st, "buffer")
      else st;
    PrefixesListed(file, st.common);
    assert FoldersFirst(st.common) ==> FoldersFirst(AddCommon(st.common, Prefixes(file), c, a.format)) by {
      if FoldersFirst(st.common) { AddCommonFoldersFirst(st.common, Prefixes(file), c, a.format); }
    }
    var common := AddCommon(st.common, Prefixes(file), c, a.format);
    var meta' := if c.Some? then meta.Put(file, Config(c.value)) else meta;
    withDeps.(meta := Some(meta'), common := common)
  }

  /** One analysed file: its metadata, the directory-index alias, then its requires. */
  function ProcessFile(st: State, file: string, a: Transformer.Analysis, packageFormat: string, name: Option<string>, tree: seq<string>): (r: Result<State, string>)
    requires Valid(st)
    ensures r.Success? ==> Valid(r.value) && Grows(st, r.value)
    ensures r.Failure? <==> |a.required| > 0 && (name.None? || exists i :: 0 <= i < |a.required| && !a.required[i].JStr?)
    ensures r.Success? && st.meta.None? ==> r.value.common == st.common
    ensures r.Success? && FoldersFirst(st.common) ==> FoldersFirst(r.value.common)
  {
    var st1 := if st.meta.Some? then UpdateMeta(st, file, a, packageFormat) else st;
    var st2 := IndexAlias(st1, file, a.format, tree);
    ApplyRequires(st2, a.required, file, a.format, name, tree)
  }

  /** The files in turn, each analysed with its known format. */
  function ProcessFiles(st: State, files: seq<string>, formats: seq<string>, sources: map<string, Pragma.FileSource>,
                        packageFormat: string, name: Option<string>, tree: seq<string>): (r: Result<State, string>)
    requires Valid(st) && |formats| == |files|
    ensures r.Success? ==> Valid(r.value) && Grows(st, r.value)
    ensures r.Success? ==> forall f :: f in files ==> f in sources
    ensures r.Success? && st.meta.None? ==> r.value.common == st.common
    ensures r.Success? && FoldersFirst(st.common) ==> FoldersFirst(r.value.common)
    ensures (exists i :: 0 <= i < |files| && files[i] !in sources) ==> r.Failure?
    decreases |files|
  {
    if |files| == 0 then Success(st)
    else
      assert forall f :: f in files <==> f == files[0] || f in files[1..] by {
        assert files == [files[0]] + files[1..];
      }
      match Analyse(sources, files[0], formats[0])
      case Failure(e) => Failure(e)
      case Success(a) =>
        match ProcessFile(st, files[0], a, packageFormat, name, tree)
        case Failure(e) => Failure(e)
        case Success(next) => ProcessFiles(next, files[1..], formats[1..], sources, packageFormat, name, tree)
  }

  /** A file after the first that requires `d` is, in the rest of the files, one place earlier. */
  lemma RequiredInTail(files: seq<string>, formats: seq<string>, sources: map<string, Pragma.FileSource>, i: nat, d: string)
    requires |formats| == |files| && 0 < i < |files|
    requires files[i] in sources && JStr(d) in Pragma.ParseModule(sources[files[i]], formats[i]).required
    ensures files[1..][i - 1] in sources && JStr(d) in Pragma.ParseModule(sources[files[1..][i - 1]], formats[1..][i - 1]).required
  {
    assert files[1..][i - 1] == files[i] && formats[1..][i - 1] == formats[i];
  }

  /** A run over the files that succeeds processes the first file, then the rest. */
  lemma ProcessFilesStep(st: State, files: seq<string>, formats: seq<string>, sources: map<string, Pragma.FileSource>,
                         packageFormat: string, name: Option<string>, tree: seq<string>)
    requires Valid(st) && |formats| == |files| && |files| > 0
    requires ProcessFiles(st, files, formats, sources, packageFormat, name, tree).Success?
    ensures files[0] in sources
    ensures var next := ProcessFile(st, files[0], Pragma.ParseModule(sources[files[0]], formats[0]), packageFormat, name, tree);
      && next.Success?
      && ProcessFiles(st, files, formats, sources, packageFormat, name, tree) ==
         ProcessFiles(next.value, files[1..], formats[1..], sources, packageFormat, name, tree)
  {
  }

  /**
   * A served core module that a processed file requires by name, with no self-reference,
   * is a core dependency once every file is processed.
   */
  lemma {:induction false} ProcessedServedIsDependency(st: State, files: seq<string>, formats: seq<string>,
                                                       sources: map<string, Pragma.FileSource>, packageFormat: string,
                                                       name: Option<string>, tree: seq<string>, i: nat, d: string)
    requires Valid(st) && |formats| == |files| && i < |files|
    requires ProcessFiles(st, files, formats, sources, packageFormat, name, tree).Success?
    requires files[i] in sources && JStr(d) in Pragma.ParseModule(sources[files[i]], formats[i]).required
    requires Served(d) && (name.Some? ==> !IsSelfReference(d, name.value))
    ensures d in ProcessFiles(st, files, formats, sources, packageFormat, name, tree).value.coreDeps
    decreases |files|
  {
    ProcessFilesStep(st, files, formats, sources, packageFormat, name, tree);
    var a := Pragma.ParseModule(sources[files[0]], formats[0]);
    var next := ProcessFile(st, files[0], a, packageFormat, name, tree);
    if i == 0 {
      ProcessFileServed(st, files[0], a, packageFormat, name, tree, d);
    } else {
      RequiredInTail(files, formats, sources, i, d);
      ProcessedServedIsDependency(next.value, files[1..], formats[1..], sources, packageFormat, name, tree, i - 1, d);
    }
  }

  /** Processing one file makes each served core module it requires by name a core dependency. */
  lemma ProcessFileServed(st: State, file: string, a: Transformer.Analysis, packageFormat: string,
                          name: Option<string>, tree: seq<string>, d: string)
    requires Valid(st) && ProcessFile(st, file, a, packageFormat, name, tree).Success?
    requires JStr(d) in a.required && Served(d) && (name.Some? ==> !IsSelfReference(d, name.value))
    ensures d in ProcessFile(st, file, a, packageFormat, name, tree).value.coreDeps
  {
    var st1 := if st.meta.Some? then UpdateMeta(st, file, a, packageFormat) else st;
    var st2 := IndexAlias(st1, file, a.format, tree);
    RequiredServedIsDependency(st2, a.required, file, a.format, name.value, tree, d);
  }

  /** Processing one file, requires included, leaves the shim entry of a core module alone. */
  lemma ProcessFileKeepsShim(st: State, file: string, a: Transformer.Analysis, packageFormat: string,
                             name: Option<string>, tree: seq<string>, d: string)
    requires Valid(st) && ProcessFile(st, file, a, packageFormat, name, tree).Success?
    requires d in CoreModules.Shims && (name.Some? ==> !IsSelfReference(d, name.value))
    requires MapsToShim(st, d) || JStr(d) in a.required
    ensures MapsToShim(ProcessFile(st, file, a, packageFormat, name, tree).value, d)
  {
    var st1 := if st.meta.Some? then UpdateMeta(st, file, a, packageFormat) else st;
    var st2 := IndexAlias(st1, file, a.format, tree);
    if a.format == "cjs" && EndsWith(file, "/index.js") && file[..|file| - 9] + ".js" !in tree {
      var k := "./" + file[..|file| - 9] + ".js";
      assert k[..2] == "./";
      if MapsToShim(st, d) {
        SetRelativeKeepsShim(st1, k, Alias("./" + file), d);
      }
    }
    if |a.required| > 0 {
      RequiredShimMapped(st2, a.required, file, a.format, name.value, tree, d);
    }
  }

  /** The files in turn leave the shim entry of a core module alone. */
  lemma {:induction false} ProcessFilesKeepsShim(st: State, files: seq<string>, formats: seq<string>,
                                                 sources: map<string, Pragma.FileSource>, packageFormat: string,
                                                 name: Option<string>, tree: seq<string>, d: string)
    requires Valid(st) && |formats| == |files|
    requires ProcessFiles(st, files, formats, sources, packageFormat, name, tree).Success?
    requires d in CoreModules.Shims && (name.Some? ==> !IsSelfReference(d, name.value)) && MapsToShim(st, d)
    ensures MapsToShim(ProcessFiles(st, files, formats, sources, packageFormat, name, tree).value, d)
    decreases |files|
  {
    if |files| > 0 {
      ProcessFilesStep(st, files, formats, sources, packageFormat, name, tree);
      var a := Pragma.ParseModule(sources[files[0]], formats[0]);
      var next := ProcessFile(st, files[0], a, packageFormat, name, tree);
      ProcessFileKeepsShim(st, files[0], a, packageFormat, name, tree, d);
      ProcessFilesKeepsShim(next.value, files[1..], formats[1..], sources, packageFormat, name, tree, d);
    }
  }

  /**
   * A shim core module that a processed file requires by name, with no self-reference, is
   * sent to its shim by the inferred `map` once every file is processed.
   */
  lemma {:induction false} ProcessedShimMapped(st: State, files: seq<string>, formats: seq<string>,
                                               sources: map<string, Pragma.FileSource>, packageFormat: string,
                                               name: Option<string>, tree: seq<string>, i: nat, d: string)
    requires Valid(st) && |formats| == |files| && i < |files|
    requires ProcessFiles(st, files, formats, sources, packageFormat, name, tree).Success?
    requires files[i] in sources && JStr(d) in Pragma.ParseModule(sources[files[i]], formats[i]).required
    requires d in CoreModules.Shims && (name.Some? ==> !IsSelfReference(d, name.value))
    ensures MapsToShim(ProcessFiles(st, files, formats, sources, packageFormat, name, tree).value, d)
    decreases |files|
  {
    ProcessFilesStep(st, files, formats, sources, packageFormat, name, tree);
    var a := Pragma.ParseModule(sources[files[0]], formats[0]);
    var next := ProcessFile(st, files[0], a, packageFormat, name, tree);
    if i == 0 {
      ProcessFileKeepsShim(st, files[0], a, packageFormat, name, tree, d);
      assert MapsToShim(next.value, d);
      ProcessFilesKeepsShim(next.value, files[1..], formats[1..], sources, packageFormat, name, tree, d);
    } else {
      RequiredInTail(files, formats, sources, i, d);
      ProcessedShimMapped(next.value, files[1..], formats[1..], sources, packageFormat, name, tree, i - 1, d);
    }
  }

  /** `!!packageConfig.map[dep]` for a `map` the descriptor configures. */
  predicate Mapped(given: Option<Json>, dep: string) {
    given.Some? && TruthyOpt(Get(given.value, dep))
  }

  /**
   * The peer dependencies for the core dependencies `ds`: the npm package of every core
   * module the configured `map` does not already map.
   */
  function PeerFrom(ds: seq<string>, given: Option<Json>): (r: seq<(string, string)>)
    ensures forall e :: e in r ==> e.0 in ds && !Mapped(given, e.0) && CoreModules.Lookup(e.0) == Some(e.1) && !CoreModules.IsShim(e.1)
    ensures forall d :: d in ds && !Mapped(given, d) && Served(d) ==> (d, CoreModules.Lookup(d).value) in r
    decreases |ds|
  {
    if |ds| == 0 then []
    else
      var d := ds[0];
      assert forall x :: x in ds <==> x == d || x in ds[1..] by {
        assert ds == [d] + ds[1..];
      }
      var target := CoreModules.Lookup(d);
      if !Mapped(given, d) && target.Some? && IndexOf(target.value, ':') != -1 then
        [(d, target.value)] + PeerFrom(ds[1..], given)
      else PeerFrom(ds[1..], given)
  }

  /** Sorted core dependencies give peer dependencies in key order. */
  lemma {:induction false} PeerFromSorted(ds: seq<string>, given: Option<Json>)
    requires Sorting.Sorted(ds)
    ensures Sorting.Sorted(EntryKeys(PeerFrom(ds, given)))
    decreases |ds|
  {
    if |ds| > 0 {
      var d, rest := ds[0], PeerFrom(ds[1..], given);
      Sorting.SortedTail(ds);
      PeerFromSorted(ds[1..], given);
      var target := CoreModules.Lookup(d);
      if !Mapped(given, d) && target.Some? && IndexOf(target.value, ':') != -1 {
        if |rest| > 0 {
          assert rest[0] in rest;
          var j :| 0 <= j < |ds[1..]| && ds[1..][j] == rest[0].0;
          Sorting.SortedHeadLeast(ds, j + 1);
        }
        Sorting.SortedCons(d, EntryKeys(rest));
        assert EntryKeys([(d, target.value)] + rest) == [d] + EntryKeys(rest);
      }
    }
  }

  /** `coreDeps.sort()` turned into peer dependencies. */
  function PeerDependencies(coreDeps: seq<string>, given: Option<Json>): (r: seq<(string, string)>)
    ensures Sorting.Sorted(EntryKeys(r))
    ensures forall e :: e in r ==> e.0 in coreDeps && !Mapped(given, e.0) && CoreModules.Lookup(e.0) == Some(e.1)
    ensures forall d :: d in coreDeps && !Mapped(given, d) && Served(d) ==> (d, CoreModules.Lookup(d).value) in r
  {
    var ds := Sorting.Sort(coreDeps);
    PeerFromSorted(ds, given);
    assert forall x :: x in ds <==> x in coreDeps by {
      forall x ensures x in ds <==> x in coreDeps {
        assert x in ds <==> x in multiset(ds);
        assert x in coreDeps <==> x in multiset(coreDeps);
      }
    }
    PeerFrom(ds, given)
  }

  /** `meta[m] === true || hasProperties(meta[m])` */
  predicate Kept(e: MetaEntry) {
    e.Flag? || HasProperties(e.config)
  }

  /** The entries worth writing out: `true` marks and non-empty metadata objects. */
  function KeepNonEmpty(es: seq<(string, MetaEntry)>): (r: seq<(string, MetaEntry)>)
    ensures forall e :: e in r <==> e in es && Kept(e.1)
    decreases |es|
  {
    if |es| == 0 then []
    else
      assert forall e :: e in es <==> e == es[0] || e in es[1..] by {
        assert es == [es[0]] + es[1..];
      }
      if Kept(es[0].1) then [es[0]] + KeepNonEmpty(es[1..]) else KeepNonEmpty(es[1..])
  }

  /** Dropping entries keeps the rest in key order. */
  lemma {:induction false} KeepNonEmptySorted(es: seq<(string, MetaEntry)>)
    requires Sorting.Sorted(EntryKeys(es))
    ensures Sorting.Sorted(EntryKeys(KeepNonEmpty(es)))
    decreases |es|
  {
    if |es| > 0 {
      var rest := KeepNonEmpty(es[1..]);
      var ks := EntryKeys(es);
      assert EntryKeys(es[1..]) == ks[1..];
      Sorting.SortedTail(ks);
      KeepNonEmptySorted(es[1..]);
      if Kept(es[0].1) {
        if |rest| > 0 {
          assert rest[0] in es[1..];
          var j :| 0 <= j < |es[1..]| && es[1..][j] == rest[0];
          assert ks[j + 1] == rest[0].0;
          Sorting.SortedHeadLeast(ks, j + 1);
        }
        Sorting.SortedCons(es[0].0, EntryKeys(rest));
        assert EntryKeys([es[0]] + rest) == [es[0].0] + EntryKeys(rest);
      }
    }
  }

  /** The `meta` of the result: the inferred table in key order, or the configured one. */
  function MetaSection(meta: Option<OrdMap<MetaEntry>>, sc: Json): (r: Option<Section<MetaEntry>>)
    requires meta.Some? ==> meta.value.Valid()
    ensures meta.None? ==> r == Some(Given(Prop(sc, "meta")))
    ensures meta.Some? && |meta.value.keys| > 0 ==> (r.Some? && r.value.Inferred?
      && Sorting.Sorted(EntryKeys(r.value.entries))
      && (forall e :: e in r.value.entries <==> e.0 in meta.value.vals && e.1 == meta.value.vals[e.0] && Kept(e.1)))
    ensures meta.Some? && |meta.value.keys| == 0 ==> r.None?
  {
    if meta.None? then Some(Given(Prop(sc, "meta")))
    else if |meta.value.keys| > 0 then
      var es := meta.value.SortedEntries();
      SortedEntriesMembers(meta.value);
      KeepNonEmptySorted(es);
      Some(Inferred(KeepNonEmpty(es)))
    else None
  }

  /** The `map` of the result: the inferred table in key order, or the configured one. */
  function MapSection(paths: Option<OrdMap<MapTarget>>, sc: Json): (r: Option<Section<MapTarget>>)
    requires paths.Some? ==> paths.value.Valid()
    ensures paths.None? ==> r == Some(Given(Prop(sc, "map")))
    ensures paths.Some? && |paths.value.keys| > 0 ==> (r.Some? && r.value.Inferred?
      && Sorting.Sorted(EntryKeys(r.value.entries))
      && (forall e :: e in r.value.entries <==> e.0 in paths.value.vals && e.1 == paths.value.vals[e.0]))
    ensures paths.Some? && |paths.value.keys| == 0 ==> r.None?
  {
    if paths.None? then Some(Given(Prop(sc, "map")))
    else if |paths.value.keys| > 0 then
      var es := paths.value.SortedEntries();
      SortedEntriesMembers(paths.value);
      Some(Inferred(es))
    else None
  }

  /** The package name the self-reference rule compares requests with. */
  function PackageName(pjson: Json): (r: Option<string>)
    ensures r.Some? <==> Get(pjson, "name").Some? && Get(pjson, "name").value.JStr?
    ensures r.Some? ==> r.value == Get(pjson, "name").value.s
  {
    match Get(pjson, "name")
    case Some(JStr(s)) => Some(s)
    case _ => None
  }

  /**
   * Tables ready for the files of a package with system configuration `sc`: `meta` is
   * inferred, starting from the "*" entry, exactly when `sc` gives none, and `map`
   * likewise.
   */
  ghost predicate Ready(st: State, sc: Json) {
    && Valid(st)
    && (st.meta.Some? ==> "*" in st.meta.value.vals)
    && (st.meta.None? <==> Truthy(Prop(sc, "meta")))
    && (st.paths.None? <==> Truthy(Prop(sc, "map")))
  }

  /** The tables before any file is read: the initial `meta`, and the browser maps. */
  function InitialState(pjson: Json, sc: Json, main: Option<string>, tree: seq<string>): (r: Result<State, string>)
    ensures r.Success? ==> Ready(r.value, sc) && FoldersFirst(r.value.common)
    ensures r.Success? ==> r.value.common == Empty() && r.value.coreDeps == []
    ensures r.Success? && r.value.meta.Some? ==> r.value.meta.value == InitialMeta()
    ensures r.Failure? <==> !Truthy(Prop(sc, "map")) && BrowserMainName(pjson, main).None?
  {
    var meta := if Truthy(Prop(sc, "meta")) then None else Some(InitialMeta());
    if Truthy(Prop(sc, "map")) then Success(State(meta, None, Empty(), []))
    else
      match AddBrowserMaps(pjson, main, tree)
      case Failure(e) => Failure(e)
      case Success(m) => Success(State(meta, Some(m), Empty(), []))
  }

  /**
   * A file marked `true` by an earlier file's request loses the mark once its own
   * analysis records metadata: the later assignment replaces the entry.
   */
  lemma FlagReplacedByFileMeta(st: State, file: string, a: Transformer.Analysis, packageFormat: string)
    requires Valid(st) && st.meta.Some?
    requires file in st.meta.value.vals && st.meta.value.vals[file] == Flag
    requires a.format != packageFormat
    ensures UpdateMeta(st, file, a, packageFormat).meta.value.vals[file] == Config(MetaConfig(Val(a.format),
      if a.format == "global" || (a.usesBuffer && a.format == "cjs") then UpdateMeta(st, file, a, packageFormat).meta.value.vals[file].config.globals else Absent,
      Absent))
  {
    assert Recorded(st.meta.value, file) == None;
  }

  /** A CommonJS file that uses `Buffer` gets the buffer shim as a global. */
  lemma BufferGlobal(st: State, file: string, a: Transformer.Analysis, packageFormat: string)
    requires Valid(st) && st.meta.Some? && a.usesBuffer && a.format == "cjs"
    ensures var r := UpdateMeta(st, file, a, packageFormat);
      && r.meta.value.vals[file].Config?
      && r.meta.value.vals[file].config.globals.Val?
      && r.meta.value.vals[file].config.globals.value["Buffer"] == "nodelibs/buffer"
      && "buffer" in r.coreDeps
  {
  }

  /**
   * The result once every file is processed: `meta` collapsed and sorted, `map` sorted,
   * and the peer dependencies of the core dependencies.
   */
  function Finish(st: State, sc: Json, main: Option<string>, format: string): (r: PackageConfig)
    requires Valid(st)
    requires st.meta.Some? ==> "*" in st.meta.value.vals
    requires st.meta.None? <==> Truthy(Prop(sc, "meta"))
    requires st.paths.None? <==> Truthy(Prop(sc, "map"))
    ensures r.main == main && r.format == format && r.dependencies == []
    ensures Truthy(Prop(sc, "meta")) <==> r.meta == Some(Given(Prop(sc, "meta")))
    ensures !Truthy(Prop(sc, "meta")) ==> (r.meta.Some? && r.meta.value.Inferred? && Sorting.Sorted(EntryKeys(r.meta.value.entries)))
    ensures Truthy(Prop(sc, "map")) ==> r.paths == Some(Given(Prop(sc, "map")))
    ensures r.paths.Some? && r.paths.value.Inferred? ==> Sorting.Sorted(EntryKeys(r.paths.value.entries))
    ensures Sorting.Sorted(EntryKeys(r.peerDependencies))
    ensures forall e :: e in r.peerDependencies ==> CoreModules.Lookup(e.0) == Some(e.1) && !CoreModules.IsShim(e.1)
    ensures forall e :: e in r.peerDependencies ==> e.0 in st.coreDeps
    ensures forall d :: d in st.coreDeps && !(Truthy(Prop(sc, "map")) && TruthyOpt(Get(Prop(sc, "map"), d))) ==>
      (d, CoreModules.Lookup(d).value) in r.peerDependencies
  {
    var meta := if st.meta.Some? then Some(CollapseMeta.Collapse(st.meta.value, st.common)) else None;
    assert meta.Some? ==> "*" in meta.value.keys;
    var given := if st.paths.None? then Some(Prop(sc, "map")) else None;
    PackageConfig(main, format, MetaSection(meta, sc), MapSection(st.paths, sc), [], PeerDependencies(st.coreDeps, given))
  }

  /**
   * `convertPackage(pjson, dir)`: the configuration for a package whose listing is `tree`
   * (directories end in "/") and whose file contents are `sources`.
   */
  function ConvertPackage(pjson: Json, tree: seq<string>, sources: map<string, Pragma.FileSource>): (r: Result<PackageConfig, string>)
    ensures r.Success? ==> Converted(r.value, SystemConfig(pjson), PackageMain(SystemConfig(pjson), tree), PackageFormat(SystemConfig(pjson)))
    ensures r.Success? ==> forall f :: f in Files(tree) ==> f in sources
    ensures (exists f :: f in Files(tree) && f !in sources) ==> r.Failure?
  {
    var sc := SystemConfig(pjson);
    var main := PackageMain(sc, tree);
    var format := PackageFormat(sc);
    match InitialState(pjson, sc, main, tree)
    case Failure(e) => Failure(e)
    case Success(st0) =>
      ConvertFiles(st0, sc, main, format, Files(tree), sources, PackageName(pjson), tree)
  }

  /** The conversion once the initial tables are set up: every file analysed, then `Finish`. */
  function ConvertFiles(st0: State, sc: Json, main: Option<string>, format: string, files: seq<string>,
                        sources: map<string, Pragma.FileSource>, name: Option<string>, tree: seq<string>): (r: Result<PackageConfig, string>)
    requires Ready(st0, sc)
    ensures r.Success? ==> Converted(r.value, sc, main, format)
    ensures r.Success? ==> FinishedFrom(r.value, st0, sc, main, format)
    ensures r.Success? ==> forall f :: f in files ==> f in sources
    ensures (exists f :: f in files && f !in sources) ==> r.Failure?
  {
    match ExistingFormats(sc, files)
    case Failure(e) => Failure(e)
    case Success(formats) =>
      match ProcessFiles(st0, files, formats, sources, format, name, tree)
      case Failure(e) => Failure(e)
      case Success(st) =>
        FinishConverted(st0, st, sc, main, format);
        Success(Finish(st, sc, main, format))
  }

  /** `Finish` of grown tables is a conversion result, obtained from them. */
  lemma FinishConverted(st0: State, st: State, sc: Json, main: Option<string>, format: string)
    requires Ready(st, sc) && Grows(st0, st)
    ensures Converted(Finish(st, sc, main, format), sc, main, format)
    ensures FinishedFrom(Finish(st, sc, main, format), st0, sc, main, format)
  {
  }

  /**
   * `c` is what `Finish` makes of tables grown from `st0`, so it carries every promise of
   * `Finish`, peer completeness included.
   */
  ghost predicate FinishedFrom(c: PackageConfig, st0: State, sc: Json, main: Option<string>, format: string) {
    exists st :: Ready(st, sc) && Grows(st0, st) && c == Finish(st, sc, main, format)
  }

  /**
   * A served core module that some file of the package requires by name ends up among
   * the peer dependencies, unless it is a self-reference or the configured `map` maps it.
   */
  lemma RequiredServedIsPeer(pjson: Json, tree: seq<string>, sources: map<string, Pragma.FileSource>, i: nat, d: string)
    requires ConvertPackage(pjson, tree, sources).Success?
    requires i < |Files(tree)| && Files(tree)[i] in sources
    requires ExistingFormat(SystemConfig(pjson), Files(tree)[i]).Success?
    requires JStr(d) in Pragma.ParseModule(sources[Files(tree)[i]], ExistingFormat(SystemConfig(pjson), Files(tree)[i]).value).required
    requires Served(d) && (PackageName(pjson).Some? ==> !IsSelfReference(d, PackageName(pjson).value))
    requires !(Truthy(Prop(SystemConfig(pjson), "map")) && TruthyOpt(Get(Prop(SystemConfig(pjson), "map"), d)))
    ensures (d, CoreModules.Lookup(d).value) in ConvertPackage(pjson, tree, sources).value.peerDependencies
  {
    var sc := SystemConfig(pjson);
    var main := PackageMain(sc, tree);
    var st0 := InitialState(pjson, sc, main, tree).value;
    ConvertFilesPeer(st0, sc, main, PackageFormat(sc), Files(tree), sources, PackageName(pjson), tree, i, d);
  }

  /** A conversion that succeeds is `Finish` of the processed tables. */
  lemma ConvertFilesFinish(st0: State, sc: Json, main: Option<string>, format: string, files: seq<string>,
                           sources: map<string, Pragma.FileSource>, name: Option<string>, tree: seq<string>)
    requires Ready(st0, sc) && ConvertFiles(st0, sc, main, format, files, sources, name, tree).Success?
    ensures ExistingFormats(sc, files).Success?
    ensures var p := ProcessFiles(st0, files, ExistingFormats(sc, files).value, sources, format, name, tree);
      p.Success? && Ready(p.value, sc)
      && ConvertFiles(st0, sc, main, format, files, sources, name, tree).value == Finish(p.value, sc, main, format)
  {
  }

  /** The same once the initial tables are set up. */
  lemma ConvertFilesPeer(st0: State, sc: Json, main: Option<string>, format: string, files: seq<string>,
                         sources: map<string, Pragma.FileSource>, name: Option<string>, tree: seq<string>, i: nat, d: string)
    requires Ready(st0, sc) && ConvertFiles(st0, sc, main, format, files, sources, name, tree).Success?
    requires i < |files| && files[i] in sources && ExistingFormat(sc, files[i]).Success?
    requires JStr(d) in Pragma.ParseModule(sources[files[i]], ExistingFormat(sc, files[i]).value).required
    requires Served(d) && (name.Some? ==> !IsSelfReference(d, name.value))
    requires !(Truthy(Prop(sc, "map")) && TruthyOpt(Get(Prop(sc, "map"), d)))
    ensures (d, CoreModules.Lookup(d).value) in ConvertFiles(st0, sc, main, format, files, sources, name, tree).value.peerDependencies
  {
    ConvertFilesFinish(st0, sc, main, format, files, sources, name, tree);
    var formats := ExistingFormats(sc, files).value;
    assert formats[i] == ExistingFormat(sc, files[i]).value;
    ProcessedServedIsDependency(st0, files, formats, sources, format, name, tree, i, d);
  }

  /**
   * A shim core module that some file of the package requires by name, and that is no
   * self-reference, is in the inferred `map`, sent to its shim.
   */
  lemma RequiredShimIsMapped(pjson: Json, tree: seq<string>, sources: map<string, Pragma.FileSource>, i: nat, d: string)
    requires ConvertPackage(pjson, tree, sources).Success? && !Truthy(Prop(SystemConfig(pjson), "map"))
    requires i < |Files(tree)| && Files(tree)[i] in sources
    requires ExistingFormat(SystemConfig(pjson), Files(tree)[i]).Success?
    requires JStr(d) in Pragma.ParseModule(sources[Files(tree)[i]], ExistingFormat(SystemConfig(pjson), Files(tree)[i]).value).required
    requires d in CoreModules.Shims && (PackageName(pjson).Some? ==> !IsSelfReference(d, PackageName(pjson).value))
    ensures var paths := ConvertPackage(pjson, tree, sources).value.paths;
      paths.Some? && paths.value.Inferred? && (d, Alias("nodelibs/" + d)) in paths.value.entries
  {
    var sc := SystemConfig(pjson);
    var main := PackageMain(sc, tree);
    var st0 := InitialState(pjson, sc, main, tree).value;
    ConvertFilesShim(st0, sc, main, PackageFormat(sc), Files(tree), sources, PackageName(pjson), tree, i, d);
  }

  /** The same once the initial tables are set up. */
  lemma ConvertFilesShim(st0: State, sc: Json, main: Option<string>, format: string, files: seq<string>,
                         sources: map<string, Pragma.FileSource>, name: Option<string>, tree: seq<string>, i: nat, d: string)
    requires Ready(st0, sc) && ConvertFiles(st0, sc, main, format, files, sources, name, tree).Success?
    requires !Truthy(Prop(sc, "map"))
    requires i < |files| && files[i] in sources && ExistingFormat(sc, files[i]).Success?
    requires JStr(d) in Pragma.ParseModule(sources[files[i]], ExistingFormat(sc, files[i]).value).required
    requires d in CoreModules.Shims && (name.Some? ==> !IsSelfReference(d, name.value))
    ensures var paths := ConvertFiles(st0, sc, main, format, files, sources, name, tree).value.paths;
      paths.Some? && paths.value.Inferred? && (d, Alias("nodelibs/" + d)) in paths.value.entries
  {
    ConvertFilesFinish(st0, sc, main, format, files, sources, name, tree);
    var formats := ExistingFormats(sc, files).value;
    assert formats[i] == ExistingFormat(sc, files[i]).value;
    var st := ProcessFiles(st0, files, formats, sources, format, name, tree).value;
    ProcessedShimMapped(st0, files, formats, sources, format, name, tree, i, d);
    assert d in st.paths.value.keys;
  }

  /**
   * What the conversion produces for the system configuration `sc`: the main and format
   * it names; its own `meta` and `map` when it gives them, and otherwise inferred tables
   * sorted by key; and the peer dependencies, sorted, each a core module served by an npm
   * package.
   */
  predicate Converted(c: PackageConfig, sc: Json, main: Option<string>, format: string) {
    && c.main == main && c.format == format && c.dependencies == []
    && (Truthy(Prop(sc, "meta")) <==> c.meta == Some(Given(Prop(sc, "meta"))))
    && (!Truthy(Prop(sc, "meta")) ==> c.meta.Some? && c.meta.value.Inferred? && Sorting.Sorted(EntryKeys(c.meta.value.entries)))
    && (Truthy(Prop(sc, "map")) ==> c.paths == Some(Given(Prop(sc, "map"))))
    && (c.paths.Some? && c.paths.value.Inferred? ==> Sorting.Sorted(EntryKeys(c.paths.value.entries)))
    && Sorting.Sorted(EntryKeys(c.peerDependencies))
    && (forall e :: e in c.peerDependencies ==> CoreModules.Lookup(e.0) == Some(e.1) && !CoreModules.IsShim(e.1))
  }
}

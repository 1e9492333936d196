/**
 * The `meta` and `map` tables the conversion infers, and the per-file metadata steps:
 * the metadata a file gets from its analysis, and the "common metadata" kept for every
 * folder prefix so that folders whose files agree can be described by one wildcard entry.
 */
module PackageMeta {
  import opened Wrappers
  import opened JsString
  import opened JsObject

  /** A property of a metadata object: missing, present but `undefined`, or set. */
  datatype Slot<T> = Absent | Undef | Val(value: T)

  /** `!!slot` for a string property. */
  predicate TruthyString(s: Slot<string>) {
    s.Val? && s.value != ""
  }

  /** The metadata of one file or wildcard: `format`, `globals` (name to module) and `loader`. */
  datatype MetaConfig = MetaConfig(format: Slot<string>, globals: Slot<map<string, string>>, loader: Slot<string>)

  /** `{}` */
  const NoMeta := MetaConfig(Absent, Absent, Absent)

  /** An entry of `meta`: `true` (load the file without extension rules) or a metadata object. */
  datatype MetaEntry = Flag | Config(config: MetaConfig)

  /** An entry of `map`: a plain target, or `{ browser: target }`. */
  datatype MapTarget = Alias(target: string) | Browser(browser: string)

  /** `hasProperties(obj)` on a metadata object: some property is present, even if `undefined`. */
  predicate HasProperties(c: MetaConfig) {
    c.format != Absent || c.globals != Absent || c.loader != Absent
  }

  /** The `process` shim every file gets by default. */
  const ProcessGlobals: map<string, string> := map["process" := "nodelibs/process"]

  /**
   * The inferred `meta` table before any file is seen: the process global for every file
   * and the JSON loader for `.json` files.
   */
  function InitialMeta(): (r: OrdMap<MetaEntry>)
    ensures r.Valid() && r.keys == ["*", "*.json"]
    ensures r.vals["*"] == Config(MetaConfig(Absent, Val(ProcessGlobals), Absent))
    ensures r.vals["*.json"] == Config(MetaConfig(Absent, Absent, Val("nodelibs/json")))
  {
    Empty<MetaEntry>()
      .Put("*", Config(MetaConfig(Absent, Val(ProcessGlobals), Absent)))
      .Put("*.json", Config(MetaConfig(Absent, Absent, Val("nodelibs/json"))))
  }

  /** The metadata object already recorded for a file, if any (`true` does not count). */
  function Recorded(meta: OrdMap<MetaEntry>, file: string): (r: Option<MetaConfig>)
    ensures r.Some? <==> file in meta.vals && meta.vals[file].Config?
    ensures r.Some? ==> meta.vals[file] == Config(r.value)
  {
    if file in meta.vals && meta.vals[file].Config? then Some(meta.vals[file].config) else None
  }

  /** `obj.globals = obj.globals || {}` */
  function GlobalsOrEmpty(g: Slot<map<string, string>>): (r: map<string, string>)
    ensures g.Val? ==> r == g.value
    ensures !g.Val? ==> r == map[]
  {
    if g.Val? then g.value else map[]
  }

  /**
   * The metadata a file ends up with: its format when that differs from the package
   * format, a `globals` object for a global-format file, and the `Buffer` shim for a
   * CommonJS file that uses `Buffer`. `None` when nothing had to be recorded.
   */
  function FileConfig(cur: Option<MetaConfig>, fileFormat: string, packageFormat: string, usesBuffer: bool): (r: Option<MetaConfig>)
    ensures r.None? <==>
      cur.None? && fileFormat == packageFormat && fileFormat != "global" && !(usesBuffer && fileFormat == "cjs")
    ensures r.Some? && fileFormat != packageFormat ==> r.value.format == Val(fileFormat)
    ensures r.Some? && fileFormat == packageFormat ==> r.value.format == cur.GetOr(NoMeta).format
    ensures r.Some? && (fileFormat == "global" || (usesBuffer && fileFormat == "cjs")) ==> r.value.globals.Val?
    ensures usesBuffer && fileFormat == "cjs" ==>
      r.Some? && r.value.globals == Val(GlobalsOrEmpty(cur.GetOr(NoMeta).globals)["Buffer" := "nodelibs/buffer"])
    ensures r.Some? && !(fileFormat == "global" || (usesBuffer && fileFormat == "cjs")) ==> r.value.globals == cur.GetOr(NoMeta).globals
    ensures r.Some? && cur.Some? ==> r.value.loader == cur.value.loader
    ensures r.Some? && cur.None? ==> r.value.loader == Absent
  {
    var c1 := FileConfigBase(cur, fileFormat, packageFormat);
    var c2 :=
      if fileFormat == "global" then
        var c := c1.GetOr(NoMeta);
        Some(c.(globals := Val(GlobalsOrEmpty(c.globals))))
      else c1;
    if usesBuffer && fileFormat == "cjs" then
      var c := c2.GetOr(NoMeta);
      Some(c.(globals := Val(GlobalsOrEmpty(c.globals)["Buffer" := "nodelibs/buffer"])))
    else c2
  }

  /** The first step of `FileConfig`: record the file's format when it is not the package's. */
  function FileConfigBase(cur: Option<MetaConfig>, fileFormat: string, packageFormat: string): (r: Option<MetaConfig>)
    ensures fileFormat != packageFormat ==> r.Some? && r.value == cur.GetOr(NoMeta).(format := Val(fileFormat))
    ensures fileFormat == packageFormat ==> r == cur
  {
    if fileFormat != packageFormat then Some(cur.GetOr(NoMeta).(format := Val(fileFormat))) else cur
  }

  /** The folder prefixes of a path, shortest first: the text before each "/". */
  function Prefixes(file: string): (r: seq<string>)
    ensures forall i :: 0 <= i < |r| ==> |r[i]| < |file| && file[|r[i]|] == '/' && r[i] == file[..|r[i]|]
    ensures forall k :: 0 <= k < |file| && file[k] == '/' ==> file[..k] in r
    ensures forall i, j :: 0 <= i < j < |r| ==> |r[i]| < |r[j]|
  {
    PrefixesFrom(file, 0)
  }

  function PrefixesFrom(file: string, k: nat): (r: seq<string>)
    requires k <= |file|
    ensures forall i :: 0 <= i < |r| ==> k <= |r[i]| < |file| && file[|r[i]|] == '/' && r[i] == file[..|r[i]|]
    ensures forall m :: k <= m < |file| && file[m] == '/' ==> file[..m] in r
    ensures forall i, j :: 0 <= i < j < |r| ==> |r[i]| < |r[j]|
    decreases |file| - k
  {
    if k == |file| then []
    else if file[k] == '/' then [file[..k]] + PrefixesFrom(file, k + 1)
    else PrefixesFrom(file, k + 1)
  }

  /**
   * The common metadata of one prefix after one more file under it: a new prefix starts
   * from a copy of the file's metadata; a format that differs from the file's format, and
   * globals that differ from the file's globals, become `undefined`.
   */
  function CommonStep(existing: Option<MetaConfig>, cur: Option<MetaConfig>, fileFormat: string): (r: MetaConfig)
    ensures var base := if existing.Some? then existing.value else cur.GetOr(NoMeta);
      && (TruthyString(r.format) <==> TruthyString(base.format) && base.format.value == fileFormat)
      && (TruthyString(r.format) ==> r.format == base.format)
      && (r.globals.Val? <==> base.globals.Val? && cur.Some? && cur.value.globals == base.globals)
      && (r.globals.Val? ==> r.globals == base.globals)
      && r.loader == base.loader
  {
    var base := if existing.Some? then existing.value else cur.GetOr(NoMeta);
    var format := if TruthyString(base.format) && base.format.value != fileFormat then Undef else base.format;
    var globals := if base.globals.Val? && !(cur.Some? && cur.value.globals == base.globals) then Undef else base.globals;
    MetaConfig(format, globals, base.loader)
  }

  /** The common metadata after one file: every prefix of the file is updated in turn. */
  function AddCommon(common: OrdMap<MetaConfig>, prefixes: seq<string>, cur: Option<MetaConfig>, fileFormat: string): (r: OrdMap<MetaConfig>)
    requires common.Valid()
    ensures r.Valid()
    ensures forall p :: p in r.vals <==> p in common.vals || p in prefixes
    ensures forall p :: p in common.vals && p !in prefixes ==> r.vals[p] == common.vals[p]
    ensures |common.keys| <= |r.keys| && r.keys[..|common.keys|] == common.keys
    decreases |prefixes|
  {
    if |prefixes| == 0 then common
    else
      var p := prefixes[0];
      var next := common.Put(p, CommonStep(common.Get(p), cur, fileFormat));
      assert forall x :: x in prefixes <==> x == p || x in prefixes[1..] by {
        assert prefixes == [p] + prefixes[1..];
      }
      var r := AddCommon(next, prefixes[1..], cur, fileFormat);
      assert r.keys[..|common.keys|] == r.keys[..|next.keys|][..|common.keys|];
      r
  }

  /** Each prefix of a file is updated exactly once: its entry is one `CommonStep` on from before. */
  lemma {:induction false} AddCommonValue(common: OrdMap<MetaConfig>, prefixes: seq<string>, cur: Option<MetaConfig>, fileFormat: string, p: string)
    requires common.Valid()
    requires forall i, j :: 0 <= i < j < |prefixes| ==> prefixes[i] != prefixes[j]
    requires p in prefixes
    ensures AddCommon(common, prefixes, cur, fileFormat).vals[p] == CommonStep(common.Get(p), cur, fileFormat)
    decreases |prefixes|
  {
    var q := prefixes[0];
    var next := common.Put(q, CommonStep(common.Get(q), cur, fileFormat));
    assert prefixes == [q] + prefixes[1..];
    if p == q {
      assert p !in prefixes[1..] by {
        forall i | 0 <= i < |prefixes[1..]| ensures prefixes[1..][i] != p {
          assert prefixes[1..][i] == prefixes[i + 1];
        }
      }
    } else {
      assert p in prefixes[1..];
      AddCommonValue(next, prefixes[1..], cur, fileFormat, p);
      assert next.Get(p) == common.Get(p);
    }
  }

  /** The common metadata a prefix reaches after a series of files under it, in order. */
  function CommonOfVisits(existing: Option<MetaConfig>, visits: seq<(Option<MetaConfig>, string)>): (r: Option<MetaConfig>)
    ensures |visits| > 0 ==> r.Some?
    ensures |visits| == 0 ==> r == existing
    decreases |visits|
  {
    if |visits| == 0 then existing
    else CommonOfVisits(Some(CommonStep(existing, visits[0].0, visits[0].1)), visits[1..])
  }

  /**
   * A folder keeps a format exactly when every file under it has that format, and keeps
   * its globals exactly when every file under it carries the same globals.
   */
  lemma {:induction false} CommonKeptIff(e: MetaConfig, visits: seq<(Option<MetaConfig>, string)>)
    ensures var r := CommonOfVisits(Some(e), visits).value;
      && (TruthyString(r.format) <==> TruthyString(e.format) && forall i :: 0 <= i < |visits| ==> visits[i].1 == e.format.value)
      && (TruthyString(r.format) ==> r.format == e.format)
      && (r.globals.Val? <==> e.globals.Val? && forall i :: 0 <= i < |visits| ==> visits[i].0.Some? && visits[i].0.value.globals == e.globals)
      && (r.globals.Val? ==> r.globals == e.globals)
      && r.loader == e.loader
    decreases |visits|
  {
    if |visits| > 0 {
      var e1 := CommonStep(Some(e), visits[0].0, visits[0].1);
      CommonKeptIff(e1, visits[1..]);
      assert forall i :: 1 <= i < |visits| ==> visits[i] == visits[1..][i - 1];
    }
  }

  /** `q` lies in folder `p`: it continues `p` with a "/". */
  predicate IsFolderOf(p: string, q: string) {
    |p| < |q| && q[..|p|] == p && q[|p|] == '/'
  }

  /**
   * Every folder of a listed prefix is listed too, and before it; so visiting the keys in
   * reverse visits every folder after everything under it.
   */
  ghost predicate FoldersFirst(c: OrdMap<MetaConfig>) {
    && (forall i, m :: 0 <= i < |c.keys| && 0 <= m < |c.keys[i]| && c.keys[i][m] == '/' ==> c.keys[i][..m] in c.vals)
    && (forall i, j :: 0 <= i < |c.keys| && 0 <= j < |c.keys| && IsFolderOf(c.keys[i], c.keys[j]) ==> i < j)
  }

  /** The folders of each prefix still to add are known already or come earlier in the list. */
  ghost predicate FoldersListed(prefixes: seq<string>, c: OrdMap<MetaConfig>) {
    forall i, m :: 0 <= i < |prefixes| && 0 <= m < |prefixes[i]| && prefixes[i][m] == '/' ==>
      prefixes[i][..m] in c.vals || prefixes[i][..m] in prefixes[..i]
  }

  /** The prefixes of a file, shortest first, list every folder of each before it. */
  lemma PrefixesListed(file: string, c: OrdMap<MetaConfig>)
    ensures FoldersListed(Prefixes(file), c)
  {
    var ps := Prefixes(file);
    forall i, m | 0 <= i < |ps| && 0 <= m < |ps[i]| && ps[i][m] == '/'
      ensures ps[i][..m] in ps[..i]
    {
      assert file[m] == '/' && ps[i][..m] == file[..m];
      var j :| 0 <= j < |ps| && ps[j] == file[..m];
      assert |ps[j]| < |ps[i]|;
      assert ps[..i][j] == ps[j];
    }
  }

  /** Adding a file's prefixes in order keeps every folder before what lies in it. */
  lemma {:induction false} AddCommonFoldersFirst(common: OrdMap<MetaConfig>, prefixes: seq<string>, cur: Option<MetaConfig>, fileFormat: string)
    requires common.Valid() && FoldersFirst(common) && FoldersListed(prefixes, common)
    ensures FoldersFirst(AddCommon(common, prefixes, cur, fileFormat))
    decreases |prefixes|
  {
    if |prefixes| > 0 {
      var q := prefixes[0];
      var next := common.Put(q, CommonStep(common.Get(q), cur, fileFormat));
      PutFoldersFirst(common, q, CommonStep(common.Get(q), cur, fileFormat));
      var rest := prefixes[1..];
      forall i, m | 0 <= i < |rest| && 0 <= m < |rest[i]| && rest[i][m] == '/'
        ensures rest[i][..m] in next.vals || rest[i][..m] in rest[..i]
      {
        assert rest[i] == prefixes[i + 1];
        assert prefixes[..i + 1] == [q] + rest[..i];
      }
      AddCommonFoldersFirst(next, rest, cur, fileFormat);
    }
  }

  /** Adding a prefix whose folders are all known keeps every folder first. */
  lemma PutFoldersFirst(c: OrdMap<MetaConfig>, q: string, v: MetaConfig)
    requires c.Valid() && FoldersFirst(c)
    requires forall m :: 0 <= m < |q| && q[m] == '/' ==> q[..m] in c.vals
    ensures FoldersFirst(c.Put(q, v))
  {
    var r := c.Put(q, v);
    if q !in c.vals {
      assert r.keys == c.keys + [q];
    }
  }
}

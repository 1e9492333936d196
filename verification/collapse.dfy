/**
 * Wildcard simplification of the inferred `meta` table: a folder whose files agree on
 * a format or on globals gets one wildcard entry (the folder path, a slash and a star), and the files under it lose the
 * property the wildcard now supplies.
 */
module CollapseMeta {
  import opened Wrappers
  import opened JsString
  import opened JsObject
  import opened PackageMeta

  /** The test the collapse uses for "`path` lies under folder `p`". */
  predicate Under(path: string, p: string) {
    Substr(path, 0, |p|) == p && CharAt(path, |p|) == Some('/')
  }

  lemma UnderIff(path: string, p: string)
    ensures Under(path, p) <==> IsFolderOf(p, path)
  {
    SubstrPrefix(path, p);
  }

  /**
   * The file's own metadata once folder metadata `c` applies: a format equal to the
   * folder's (truthy) format is deleted, and so are globals equal to the folder's.
   */
  function Strip(e: MetaConfig, c: MetaConfig): (r: MetaConfig)
    ensures r.loader == e.loader
    ensures r.format == e.format || r.format == Absent
    ensures r.globals == e.globals || r.globals == Absent
    ensures TruthyString(c.format) ==> r.format != c.format
    ensures c.globals.Val? ==> r.globals != c.globals
    ensures r.format == Absent && e.format != Absent ==> TruthyString(c.format) && e.format == c.format
    ensures r.globals == Absent && e.globals != Absent ==> c.globals.Val? && e.globals == c.globals
  {
    var format := if TruthyString(c.format) && e.format == c.format then Absent else e.format;
    var globals := if c.globals.Val? && e.globals == c.globals then Absent else e.globals;
    MetaConfig(format, globals, e.loader)
  }

  /** `Strip` applied to every metadata object under folder `p`; `true` entries stay. */
  function StripUnder(meta: OrdMap<MetaEntry>, p: string, c: MetaConfig): (r: OrdMap<MetaEntry>)
    requires meta.Valid()
    ensures r.Valid() && r.keys == meta.keys
    ensures forall k :: k in r.vals <==> k in meta.vals
    ensures forall k :: k in meta.vals && !Under(k, p) ==> r.vals[k] == meta.vals[k]
    ensures forall k :: k in meta.vals && meta.vals[k] == Flag ==> r.vals[k] == Flag
    ensures forall k :: k in meta.vals && meta.vals[k].Config? ==> r.vals[k].Config?
    ensures forall k :: k in meta.vals && Under(k, p) && meta.vals[k].Config? ==>
      r.vals[k] == Config(Strip(meta.vals[k].config, c))
  {
    OrdMap(meta.keys, map k | k in meta.vals ::
      if Under(k, p) && meta.vals[k].Config? then Config(Strip(meta.vals[k].config, c)) else meta.vals[k])
  }

  /** A folder's common metadata is worth a wildcard when it keeps a format or globals. */
  predicate Collapses(c: MetaConfig) {
    TruthyString(c.format) || c.globals.Val?
  }

  /** One folder: strip what lies under it, then add the wildcard entry of `p` with its common metadata. */
  function CollapseOne(meta: OrdMap<MetaEntry>, p: string, c: MetaConfig): (r: OrdMap<MetaEntry>)
    requires meta.Valid()
    ensures r.Valid()
    ensures !Collapses(c) ==> r == meta
    ensures Collapses(c) ==> r.vals.Keys == meta.vals.Keys + {p + "/*"} && r.vals[p + "/*"] == Config(c)
    ensures forall k :: k in meta.vals && !Under(k, p) ==> r.vals[k] == meta.vals[k]
    ensures forall k :: k in meta.vals && meta.vals[k] == Flag && k != p + "/*" ==> r.vals[k] == Flag
    ensures forall k :: k in meta.vals && meta.vals[k].Config? ==> r.vals[k].Config?
    ensures |meta.keys| <= |r.keys| && r.keys[..|meta.keys|] == meta.keys
  {
    if !Collapses(c) then meta
    else
      var stripped := StripUnder(meta, p, c);
      assert Under(p + "/*", p) by {
        assert (p + "/*")[..|p|] == p;
        SubstrPrefix(p + "/*", p);
      }
      stripped.Put(p + "/*", Config(c))
  }

  /** `k` is the wildcard entry of a folder of `ks` whose common metadata collapses. */
  predicate WildcardOf(common: OrdMap<MetaConfig>, ks: seq<string>, k: string)
    requires forall p :: p in ks ==> p in common.vals
  {
    exists p :: p in ks && Collapses(common.vals[p]) && k == p + "/*"
  }

  /**
   * `r` is `meta` once the folders in `ks` are collapsed: every folder whose common
   * metadata collapses has its wildcard entry (a metadata object, though a folder above it
   * may strip it in turn), nothing else is added, no entry goes, a metadata object stays
   * one, what lies under none of the folders is unchanged, a `true` entry that is no
   * wildcard of theirs stays, and the keys already listed keep their places.
   */
  ghost predicate CollapsedBy(meta: OrdMap<MetaEntry>, common: OrdMap<MetaConfig>, ks: seq<string>, r: OrdMap<MetaEntry>)
    requires forall k :: k in ks ==> k in common.vals
  {
    && (forall k :: k in meta.vals ==> k in r.vals)
    && (forall k :: k in r.vals ==> k in meta.vals || WildcardOf(common, ks, k))
    && (forall p :: p in ks && Collapses(common.vals[p]) ==> p + "/*" in r.vals && r.vals[p + "/*"].Config?)
    && (forall k :: k in meta.vals && meta.vals[k].Config? ==> r.vals[k].Config?)
    && (forall k :: k in meta.vals && (forall p :: p in ks ==> !Under(k, p)) ==> r.vals[k] == meta.vals[k])
    && (forall k :: k in meta.vals && meta.vals[k] == Flag && (forall p :: p in ks ==> k != p + "/*") ==> r.vals[k] == Flag)
    && |meta.keys| <= |r.keys| && r.keys[..|meta.keys|] == meta.keys
  }

  /** The folders in `ks` in turn. */
  function CollapseAll(meta: OrdMap<MetaEntry>, common: OrdMap<MetaConfig>, ks: seq<string>): (r: OrdMap<MetaEntry>)
    requires meta.Valid()
    requires forall k :: k in ks ==> k in common.vals
    ensures r.Valid() && CollapsedBy(meta, common, ks, r)
    decreases |ks|
  {
    if |ks| == 0 then meta
    else
      var next := CollapseOne(meta, ks[0], common.vals[ks[0]]);
      assert forall p :: p in ks[1..] ==> p in ks;
      var r := CollapseAll(next, common, ks[1..]);
      CollapsedStep(meta, common, ks, next, r);
      r
  }

  /** The first folder collapsed, then the rest. */
  lemma CollapsedStep(meta: OrdMap<MetaEntry>, common: OrdMap<MetaConfig>, ks: seq<string>,
                      next: OrdMap<MetaEntry>, r: OrdMap<MetaEntry>)
    requires meta.Valid() && |ks| > 0
    requires forall k :: k in ks ==> k in common.vals
    requires next == CollapseOne(meta, ks[0], common.vals[ks[0]])
    requires CollapsedBy(next, common, ks[1..], r)
    ensures CollapsedBy(meta, common, ks, r)
  {
    var p0, c := ks[0], common.vals[ks[0]];
    assert forall p :: p in ks[1..] ==> p in ks;
    assert forall p :: p in ks ==> p == p0 || p in ks[1..];
    forall k | k in r.vals ensures k in meta.vals || WildcardOf(common, ks, k) {
      if k !in next.vals {
        var p :| p in ks[1..] && Collapses(common.vals[p]) && k == p + "/*";
        assert p in ks;
      } else if k !in meta.vals {
        assert Collapses(c) && k == p0 + "/*";
      }
    }
    assert r.keys[..|meta.keys|] == r.keys[..|next.keys|][..|meta.keys|];
  }

  /** `Object.keys(common).reverse()` */
  function Reverse(s: seq<string>): (r: seq<string>)
    ensures |r| == |s| && forall i :: 0 <= i < |s| ==> r[i] == s[|s| - 1 - i]
  {
    if |s| == 0 then [] else Reverse(s[1..]) + [s[0]]
  }

  /** The collapse of all folders, deepest first. */
  function Collapse(meta: OrdMap<MetaEntry>, common: OrdMap<MetaConfig>): (r: OrdMap<MetaEntry>)
    requires meta.Valid() && common.Valid()
    ensures r.Valid()
    ensures forall k :: k in meta.vals ==> k in r.vals
    ensures forall k :: k in r.vals && k !in meta.vals ==>
      exists p :: p in common.vals && Collapses(common.vals[p]) && k == p + "/*"
    ensures forall p :: p in common.vals && Collapses(common.vals[p]) ==> p + "/*" in r.vals && r.vals[p + "/*"].Config?
    ensures forall k :: k in meta.vals && meta.vals[k].Config? ==> r.vals[k].Config?
    ensures |meta.keys| <= |r.keys| && r.keys[..|meta.keys|] == meta.keys
  {
    var ks := Reverse(common.keys);
    assert forall k :: k in ks ==> k in common.vals by {
      forall k | k in ks ensures k in common.vals {
        var i :| 0 <= i < |ks| && ks[i] == k;
        assert common.keys[|ks| - 1 - i] == k;
      }
    }
    assert forall p :: p in common.vals ==> p in ks by {
      forall p | p in common.vals ensures p in ks {
        var i :| 0 <= i < |common.keys| && common.keys[i] == p;
        assert ks[|ks| - 1 - i] == p;
      }
    }
    CollapseAll(meta, common, ks)
  }

  /**
   * Because every folder is listed before what lies in it, the reversed listing visits a
   * folder only after every folder under it.
   */
  lemma DeepestFirst(common: OrdMap<MetaConfig>)
    requires FoldersFirst(common)
    ensures var ks := Reverse(common.keys);
      forall i, j :: 0 <= i < |ks| && 0 <= j < |ks| && IsFolderOf(ks[j], ks[i]) ==> i < j
  {
    var ks := Reverse(common.keys);
    var n := |ks|;
    forall i, j | 0 <= i < n && 0 <= j < n && IsFolderOf(ks[j], ks[i]) ensures i < j {
      assert ks[j] == common.keys[n - 1 - j] && ks[i] == common.keys[n - 1 - i];
    }
  }

  /**
   * A file whose format is the format of its folder's wildcard loses its own format
   * entry: the wildcard states it once for the whole folder.
   */
  lemma StripsAgreeingFormat(meta: OrdMap<MetaEntry>, p: string, c: MetaConfig, file: string, e: MetaConfig)
    requires meta.Valid() && TruthyString(c.format)
    requires file in meta.vals && meta.vals[file] == Config(e) && e.format == c.format
    requires StartsWith(file, p + "/") && file != p + "/*"
    ensures CollapseOne(meta, p, c).vals[file].Config?
    ensures CollapseOne(meta, p, c).vals[file].config.format == Absent
  {
    assert file[..|p|] == p by {
      assert file[..|p| + 1] == p + "/";
    }
    assert file[|p|] == (p + "/")[|p|];
    UnderIff(file, p);
  }
}

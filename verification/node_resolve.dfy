/**
 * Resolution of a `require` string (or a `main`/`browser` path) inside one package,
 * against the package's file tree: a list of '/'-separated paths, folders ending in '/'.
 */
module NodeResolve {
  import opened Wrappers
  import opened JsString
  import Uri

  /**
   * The request is resolved against the tree: it starts with "./", or with "../" when the
   * requiring file is not at the package root. A "../" request from the root is left as a
   * plain name.
   */
  predicate IsRelative(name: string, parent: string) {
    StartsWith(name, "./") || (StartsWith(name, "../") && '/' in parent)
  }

  /**
   * `url.resolve('/' + parent, name).substr(1)`: the path of `name` from the folder of
   * `parent`, with "." and ".." segments removed, without the leading "/".
   */
  function ResolvePath(name: string, parent: string): (r: string)
    ensures "/" + r == Uri.RemoveDotSegments(Uri.Merge("/" + parent, name))
  {
    var merged := Uri.Merge("/" + parent, name);
    Uri.RemoveDotSegmentsAbsolute(merged);
    var p := Uri.RemoveDotSegments(merged);
    assert p == "/" + p[1..];
    SubstrFrom(p, 1)
  }

  /** A path with no "." or ".." segment, requested as "./" + path from the root, is itself. */
  lemma ResolveFromRoot(path: string)
    requires Uri.RemoveDotSegments("/" + path) == "/" + path
    ensures ResolvePath("./" + path, "") == path
  {
    var merged := Uri.Merge("/", "./" + path);
    assert merged == "/./" + path;
    assert StartsWith(merged, "/./");
    assert merged[2..] == "/" + path;
    assert Uri.Step(merged, []) == Uri.Buffers("/" + path, []);
    assert Uri.RemoveDots(merged, []) == Uri.RemoveDots("/" + path, []);
    ResolvesAs("./" + path, "", path);
  }

  /** A request from a file at the package root is resolved as from the root itself. */
  lemma ResolveFromRootFile(path: string, file: string)
    requires '/' !in file && Uri.RemoveDotSegments("/" + path) == "/" + path
    ensures ResolvePath("./" + path, file) == path
  {
    var base := "/" + file;
    assert forall k :: 1 <= k < |base| ==> base[k] == file[k - 1];
    assert LastIndexOf(base, '/') == 0;
    assert Uri.Merge(base, "./" + path) == Uri.Merge("/", "./" + path);
    ResolveFromRoot(path);
    var r1 := ResolvePath("./" + path, file);
    var r0 := ResolvePath("./" + path, "");
    assert "/" + r1 == "/" + r0;
    assert ("/" + r1)[1..] == r1 && ("/" + r0)[1..] == r0;
  }

  lemma ResolvesAs(name: string, parent: string, path: string)
    requires Uri.RemoveDots(Uri.Merge("/" + parent, name), []) == Uri.RemoveDots("/" + path, [])
    requires Uri.RemoveDotSegments("/" + path) == "/" + path
    ensures ResolvePath(name, parent) == path
  {
    var r := ResolvePath(name, parent);
    assert "/" + r == "/" + path;
    assert ("/" + r)[1..] == r && ("/" + path)[1..] == path;
  }

  /** Merging with a file one folder below the root keeps that folder. */
  lemma MergeSubfolder(ref: string, dir: string, file: string)
    requires '/' !in dir && '/' !in file
    ensures Uri.Merge("/" + (dir + "/" + file), ref) == "/" + dir + "/" + ref
  {
    var base := "/" + (dir + "/" + file);
    assert base[|dir| + 1] == '/';
    assert forall k :: |dir| + 1 < k < |base| ==> base[k] == file[k - |dir| - 2];
    assert LastIndexOf(base, '/') == |dir| + 1;
    assert base[..|dir| + 2] == "/" + dir + "/";
  }

  /** A folder segment followed by "/.." disappears. */
  lemma RemoveFolderThenParent(dir: string, path: string)
    requires |dir| > 0 && '/' !in dir && dir != "." && dir != ".."
    ensures Uri.RemoveDots("/" + dir + "/../" + path, []) == Uri.RemoveDots("/" + path, [])
  {
    var merged, seg, rest := "/" + dir + "/../" + path, "/" + dir, "/../" + path;
    FolderFirst(dir, path);
    Uri.MoveStep(merged, []);
    assert [] + [seg] == [seg];
    ParentNext(path);
    Uri.StepParent(rest, [seg]);
    assert Uri.DropLast([seg]) == [];
  }

  /** "/dir" is the first segment, not a dot segment, and "/../path" follows it. */
  lemma FolderFirst(dir: string, path: string)
    requires |dir| > 0 && '/' !in dir && dir != "." && dir != ".."
    ensures var merged, seg := "/" + dir + "/../" + path, "/" + dir;
      && merged != "" && Uri.FirstSegment(merged) == seg && !Uri.IsDotSegment(seg)
      && merged[|seg|..] == "/../" + path
  {
    var merged, seg := "/" + dir + "/../" + path, "/" + dir;
    assert Uri.NoInnerSlash(seg) by {
      assert forall m :: 1 <= m < |seg| ==> seg[m] == dir[m - 1];
    }
    assert StartsWith(merged, seg) by {
      assert merged[..|seg|] == seg;
    }
    Uri.FirstSegmentIs(merged, seg);
    assert seg[1..] == dir && seg[0] == '/';
    assert merged[|seg|..] == "/../" + path;
  }

  lemma ParentNext(path: string)
    ensures StartsWith("/../" + path, "/../") && ("/../" + path)[3..] == "/" + path
  {
    var rest := "/../" + path;
    assert rest[..4] == "/../";
  }

  /**
   * From a file one folder below the root, "../" + path climbs back to the root: a path
   * without "." or ".." segments resolves to itself.
   */
  lemma ResolveFromSubfolder(path: string, dir: string, file: string)
    requires |dir| > 0 && '/' !in dir && dir != "." && dir != ".." && '/' !in file
    requires Uri.RemoveDotSegments("/" + path) == "/" + path
    ensures ResolvePath("../" + path, dir + "/" + file) == path
  {
    MergeSubfolder("../" + path, dir, file);
    assert "/" + dir + "/" + ("../" + path) == "/" + dir + "/../" + path;
    RemoveFolderThenParent(dir, path);
    ResolvesAs("../" + path, dir + "/" + file, path);
  }

  /** The folder form of a path: with exactly one trailing "/" added when it has none. */
  function Folder(n: string): (f: string)
    ensures EndsWith(f, "/") && StartsWith(f, n) && |f| <= |n| + 1
  {
    n + (if CharAt(n, |n| - 1) == Some('/') then "" else "/")
  }

  /**
   * Probing the tree for a resolved path `n`: the file itself, then with ".js", then with
   * ".json", then "index.js" in the folder `n` names. The result is the path found.
   */
  function Probe(n: string, tree: seq<string>): (r: Option<string>)
    ensures n in tree ==> r == Some(n)
    ensures n !in tree && n + ".js" in tree ==> r == Some(n + ".js")
    ensures n !in tree && n + ".js" !in tree && n + ".json" in tree ==> r == Some(n + ".json")
    ensures r.None? <==> n !in tree && n + ".js" !in tree && n + ".json" !in tree && Folder(n) !in tree
    ensures r.Some? ==> StartsWith(r.value, n)
    ensures r.Some? ==> r.value in tree || r.value == Folder(n) + "index.js"
    ensures r.Some? && r.value !in tree ==> Folder(n) in tree
  {
    if n in tree then Some(n)
    else if n + ".js" in tree then Some(n + ".js")
    else if n + ".json" in tree then Some(n + ".json")
    else if Folder(n) in tree then Some(Folder(n) + "index.js")
    else None
  }

  /**
   * `nodeResolve(name, parent, fileTree, dotRel)`: `None` for an absolute path or a
   * relative one that matches nothing in the tree; a plain name is returned as it is.
   * With `dotRel` a path found in the tree is returned with a "./" prefix.
   */
  function Resolve(name: string, parent: string, tree: seq<string>, dotRel: bool): (r: Option<string>)
    ensures StartsWith(name, "/") ==> r.None?
    ensures !StartsWith(name, "/") && !IsRelative(name, parent) ==> r == Some(name)
    ensures IsRelative(name, parent) ==>
      var hit := Probe(ResolvePath(name, parent), tree);
      && (r.Some? <==> hit.Some?)
      && (r.Some? ==> r.value == (if dotRel then "./" else "") + hit.value)
  {
    var dotPrefix := if dotRel then "./" else "";
    if CharAt(name, 0) == Some('/') then None
    else if IsRelative(name, parent) then
      var hit := Probe(ResolvePath(name, parent), tree);
      if hit.Some? then Some(dotPrefix + hit.value) else None
    else Some(name)
  }

  /** A file in the tree, requested as "./" + its path from the package root, resolves to itself. */
  lemma ResolvesListedFile(path: string, tree: seq<string>, dotRel: bool)
    requires path in tree && Uri.RemoveDotSegments("/" + path) == "/" + path
    ensures Resolve("./" + path, "", tree, dotRel) == Some((if dotRel then "./" else "") + path)
  {
    ResolveFromRoot(path);
    assert IsRelative("./" + path, "");
  }
}

/**
 * The table of Node core modules the converter knows: each name maps either to a
 * dependency-free shim under `nodelibs/` or to an npm package that must be added as a
 * peer dependency (the value carries the `npm:` registry prefix, hence a `:`).
 */
module CoreModules {
  import opened Wrappers

  /** The eleven core modules with a shim of the same name under `nodelibs/`. */
  const Shims: seq<string> := [
    "child_process", "cluster", "dgram", "dns", "fs", "module", "net", "process",
    "readline", "repl", "tls"
  ]

  /** The 22 core modules served by an npm package: name, then package and version range. */
  const Packages: seq<(string, string)> := [
    ("assert", "assert@^1.3.0"),
    ("buffer", "buffer@^3.5.3"),
    ("console", "console-browserify@^1.1.0"),
    ("constants", "constants-browserify@^1.0.0"),
    ("crypto", "crypto-browserify@^3.11.0"),
    ("domain", "domain-browser@^1.1.4"),
    ("events", "events@^1.1.0"),
    ("http", "stream-http@^2.0.2"),
    ("https", "https-browserify@^0.0.1"),
    ("os", "os-browserify@^0.2.0"),
    ("path", "path-browserify@^0.0.0"),
    ("punycode", "punycode@^1.3.2"),
    ("querystring", "querystring@^0.2.0"),
    ("stream", "stream-browserify@^2.0.1"),
    ("string_decoder", "string_decoder@^0.10.31"),
    ("sys", "util@^0.10.3"),
    ("timers", "timers-browserify@^1.4.1"),
    ("tty", "tty-browserify@^0.0.0"),
    ("url", "url@^0.11.0"),
    ("util", "util@^0.10.3"),
    ("vm", "vm-browserify@^0.0.4"),
    ("zlib", "browserify-zlib@^0.1.4")
  ]

  function FindPackage(ps: seq<(string, string)>, name: string): (r: Option<string>)
    ensures r.None? <==> forall i :: 0 <= i < |ps| ==> ps[i].0 != name
    ensures r.Some? ==> exists i :: 0 <= i < |ps| && ps[i] == (name, r.value)
  {
    if |ps| == 0 then None
    else if ps[0].0 == name then Some(ps[0].1)
    else
      var r := FindPackage(ps[1..], name);
      assert forall i :: 1 <= i < |ps| ==> ps[i] == ps[1..][i - 1];
      r
  }

  /** `nodeCoreModules[name]`: the shim path or the `npm:` dependency target. */
  function Lookup(name: string): (r: Option<string>)
    ensures name in Shims ==> r == Some("nodelibs/" + name)
    ensures name !in Shims ==> (r.Some? <==> exists i :: 0 <= i < |Packages| && Packages[i].0 == name)
    ensures name !in Shims && r.Some? ==> exists i :: 0 <= i < |Packages| && r.value == "npm:" + Packages[i].1
  {
    if name in Shims then Some("nodelibs/" + name)
    else
      var p := FindPackage(Packages, name);
      if p.Some? then Some("npm:" + p.value) else None
  }

  /** A table value without `:` is a shim path rather than a registry dependency. */
  predicate IsShim(target: string) {
    ':' !in target
  }

  lemma ShimNamesHaveNoColon()
    ensures forall i :: 0 <= i < |Shims| ==> ':' !in Shims[i]
  {
  }

  /**
   * Whether a found table value is mapped directly or recorded as a dependency depends
   * only on which list the name is in: shims have no `:`, packages always have one.
   */
  lemma ShimIffListed(name: string)
    requires Lookup(name).Some?
    ensures IsShim(Lookup(name).value) <==> name in Shims
  {
    if name in Shims {
      ShimNamesHaveNoColon();
      var i :| 0 <= i < |Shims| && Shims[i] == name;
      assert forall k :: 0 <= k < |"nodelibs/" + name| ==> ("nodelibs/" + name)[k] != ':';
    } else {
      assert Lookup(name).value[3] == ':';
    }
  }

  /** Every core module name is a bare name: none is empty or starts with ".". */
  lemma NamesAreBare(name: string)
    requires Lookup(name).Some?
    ensures |name| > 0 && name[0] != '.'
  {
    if name in Shims {
      ShimNamesBare();
    } else {
      PackageNamesBare();
    }
  }

  lemma ShimNamesBare()
    ensures forall i :: 0 <= i < |Shims| ==> |Shims[i]| > 0 && Shims[i][0] != '.'
  {
  }

  lemma PackageNamesBare()
    ensures forall i :: 0 <= i < |Packages| ==> |Packages[i].0| > 0 && Packages[i].0[0] != '.'
  {
  }

  /** `buffer`, which the Buffer global shim depends on, is a registry dependency. */
  lemma BufferIsDependency()
    ensures Lookup("buffer") == Some("npm:" + "buffer@^3.5.3")
  {
    BufferNotShim();
    FoundSecond(Packages, "buffer");
    assert Packages[1].1 == "buffer@^3.5.3";
  }

  /** A name not first in the table but second is found with the second value. */
  lemma FoundSecond(ps: seq<(string, string)>, name: string)
    requires |ps| >= 2 && ps[0].0 != name && ps[1].0 == name
    ensures FindPackage(ps, name) == Some(ps[1].1)
  {
    assert ps[1..][0] == ps[1];
  }

  lemma BufferNotShim()
    ensures "buffer" !in Shims
  {
    forall i | 0 <= i < |Shims| ensures Shims[i] != "buffer" {
      assert Shims[i][0] != 'b';
    }
  }
}

/**
 * Registry lookups: the request `npmLookup` sends, how it classifies network errors and
 * response statuses, and `versionDataToResolved`, which turns one version document into
 * the resolution record (tarball source with its hash, the dependency override and the
 * deprecation notice).
 */
module NpmLookup {
  import opened Wrappers
  import opened JsString
  import opened JsNumber
  import opened Json
  import opened JsObject

  const Accept: string := "application/vnd.npm.install-v1+json; q=1.0, application/json; q=0.8, */*"

  /** `s.replace('/', '%2F')`: a string pattern replaces its first occurrence only. */
  function EscapeFirstSlash(s: string): (r: string)
    ensures '/' !in s ==> r == s
    ensures '/' in s ==> |r| == |s| + 2
  {
    var i := IndexOf(s, '/');
    if i == -1 then s else s[..i] + "%2F" + s[i + 1..]
  }

  /** Only the first slash is escaped; later ones stay. */
  lemma EscapeFirstSlashAt(a: string, b: string)
    requires '/' !in a
    ensures EscapeFirstSlash(a + "/" + b) == a + "%2F" + b
  {
    var s := a + "/" + b;
    assert s[|a|] == '/' && s[..|a|] == a && s[|a| + 1..] == b;
    assert '/' !in s[..|a|];
  }

  /** The document URL: the registry, the name with its scope slash escaped, then the version when one is given. */
  function RequestUrl(registryUrl: string, packageName: string, version: Option<string>): (r: string)
    ensures StartsWith(r, registryUrl + "/")
  {
    var tail := if version.Some? && version.value != "" then "/" + version.value else "";
    var r := registryUrl + "/" + EscapeFirstSlash(packageName) + tail;
    assert r[..|registryUrl| + 1] == registryUrl + "/";
    r
  }

  /** A scoped name is one path segment of the registry URL, followed by the version if any. */
  lemma ScopedRequestUrl(registryUrl: string, scope: string, name: string, version: string)
    requires '/' !in scope && '/' !in name && version != ""
    ensures RequestUrl(registryUrl, scope + "/" + name, None) == registryUrl + "/" + scope + "%2F" + name
    ensures RequestUrl(registryUrl, scope + "/" + name, Some(version)) == registryUrl + "/" + scope + "%2F" + name + "/" + version
  {
    EscapeFirstSlashAt(scope, name);
  }

  /** `accept`, with `if-none-match` when a truthy entity tag is known. */
  function RequestHeaders(eTag: Option<Json>): (r: OrdMap<Json>)
    ensures r.Valid() && r.Get("accept") == Some(JStr(Accept))
    ensures TruthyOpt(eTag) <==> r.keys == ["accept", "if-none-match"]
    ensures !TruthyOpt(eTag) <==> r.keys == ["accept"]
    ensures TruthyOpt(eTag) ==> r.Get("if-none-match") == eTag
  {
    var base := Empty<Json>().Put("accept", JStr(Accept));
    assert base.keys == ["accept"];
    if TruthyOpt(eTag) then
      WithETag(base, eTag.value);
      base.Put("if-none-match", eTag.value)
    else base
  }

  /** The entity tag goes after `accept`, which keeps its value. */
  lemma WithETag(base: OrdMap<Json>, tag: Json)
    requires base.Valid() && base.keys == ["accept"]
    ensures var r := base.Put("if-none-match", tag);
      r.keys == ["accept", "if-none-match"] && r.Get("accept") == base.Get("accept") && r.Get("if-none-match") == Some(tag)
  {
    assert "if-none-match" !in base.vals;
  }

  /** A rejected fetch: its `code`, the text of `err.toString()`, and the two flags. */
  datatype FetchError = FetchError(code: Option<string>, text: string, retriable: bool, hideStack: bool)

  /** Connection resets and time-outs, and failed DNS lookups, are worth retrying. */
  predicate Transient(e: FetchError) {
    e.code == Some("ECONNRESET") || e.code == Some("ETIMEDOUT") || e.code == Some("ESOCKETTIMEDOUT")
    || (e.code == Some("ENOTFOUND") && IndexOfSub(e.text, "getaddrinfo") != -1)
  }

  /**
   * The `switch (err.code)` of the fetch error handler: `ENOTFOUND` falls through to the
   * transient codes when the message mentions `getaddrinfo`.
   */
  function MarkFetchError(e: FetchError): (r: FetchError)
    ensures r.code == e.code && r.text == e.text
    ensures Transient(e) ==> r.retriable && r.hideStack
    ensures !Transient(e) ==> r == e
  {
    match e.code
    case Some(code) =>
      if code == "ENOTFOUND" && IndexOfSub(e.text, "getaddrinfo") == -1 then e
      else if code == "ENOTFOUND" || code == "ECONNRESET" || code == "ETIMEDOUT" || code == "ESOCKETTIMEDOUT" then
        e.(retriable := true, hideStack := true)
      else e
    case None => e
  }

  /** Marking an error twice is marking it once. */
  lemma MarkIdempotent(e: FetchError)
    ensures MarkFetchError(MarkFetchError(e)) == MarkFetchError(e)
  {
  }

  /** `ENOTFOUND` from anything but a DNS lookup is passed on untouched. */
  lemma NotFoundElsewhere(text: string, retriable: bool, hideStack: bool)
    requires forall j :: !OccursAt(text, "getaddrinfo", j)
    ensures var e := FetchError(Some("ENOTFOUND"), text, retriable, hideStack); MarkFetchError(e) == e
  {
  }

  /** What the registry answered: the status, its text, the body if it parses as JSON, and the `etag` header. */
  datatype Response = Response(status: int, statusText: string, body: Option<Json>, eTag: Option<string>)

  /** A document with its entity tag, or `{}` for "not modified" and "not found". */
  datatype Found = Document(json: Json, eTag: Option<string>) | NoDocument

  /**
   * Why a lookup failed: the marked fetch error, an `Error` with `hideStack` for a bad
   * status, or the string thrown when the body does not parse.
   */
  datatype LookupError = Network(err: FetchError) | BadStatus(message: string) | Unparsable(message: string)

  /**
   * `npmLookup` once the fetch has settled. `highlight` and `bold` are the terminal
   * formatters of `this.util`; `bold` receives the status as the text of its number.
   */
  function LookupResult(packageName: string, fetched: Result<Response, FetchError>,
                        highlight: string -> string, bold: string -> string): (r: Result<Found, LookupError>)
    ensures fetched.Failure? ==> r == Failure(Network(MarkFetchError(fetched.error)))
    ensures fetched.Success? ==> var res := fetched.value;
      && (r.Success? <==> (res.status == 200 && res.body.Some?) || res.status == 304 || res.status == 404)
      && (r.Success? && r.value.Document? ==> res.status == 200 && r.value == Document(res.body.value, res.eTag))
      && (r.Failure? && r.error.Unparsable? <==> res.status == 200 && res.body.None?)
      && (r.Failure? ==> r.error.BadStatus? || r.error.Unparsable?)
  {
    match fetched
    case Failure(e) => Failure(Network(MarkFetchError(e)))
    case Success(res) =>
      if res.status == 200 then
        match res.body
        case Some(json) => Success(Document(json, res.eTag))
        case None => Failure(Unparsable("Unable to parse lookup response for " + packageName + "."))
      else if res.status == 304 || res.status == 404 then Success(NoDocument)
      else if res.status == 406 then Failure(BadStatus(highlight(packageName) + " is not a valid npm package name."))
      else if res.status == 429 then Failure(BadStatus("npm has ratelimited the lookup request. You may need to use authorization."))
      else if res.status == 401 then Failure(BadStatus("Unauthorized response looking up " + bold(packageName) + "."))
      else Failure(BadStatus("Invalid status code " + bold(NumberToString(res.status)) + " looking up " + highlight(packageName) + ". " + res.statusText))
  }

  /** A status the switch does not list is reported with its number, in bold, and its text. */
  lemma OtherStatus(packageName: string, res: Response, highlight: string -> string, bold: string -> string)
    requires res.status !in {200, 304, 404, 406, 429, 401}
    ensures LookupResult(packageName, Success(res), highlight, bold) ==
      Failure(BadStatus("Invalid status code " + bold(NumberToString(res.status)) + " looking up " + highlight(packageName) + ". " + res.statusText))
  {
  }

  /** The refused name is highlighted, the unauthorized name is in bold, and a rate limit names no package. */
  lemma ListedStatusMessages(packageName: string, res: Response, highlight: string -> string, bold: string -> string)
    ensures res.status == 406 ==>
      LookupResult(packageName, Success(res), highlight, bold) == Failure(BadStatus(highlight(packageName) + " is not a valid npm package name."))
    ensures res.status == 429 ==>
      LookupResult(packageName, Success(res), highlight, bold) == Failure(BadStatus("npm has ratelimited the lookup request. You may need to use authorization."))
    ensures res.status == 401 ==>
      LookupResult(packageName, Success(res), highlight, bold) == Failure(BadStatus("Unauthorized response looking up " + bold(packageName) + "."))
  {
  }

  /** The resolution record of one version. */
  datatype Resolved = Resolved(source: string, override: Option<Json>, deprecated: Option<Json>)

  /** The text `String(v)` gives, `undefined` included. */
  function OptText(v: Option<Json>): (r: string)
    ensures v.Some? && v.value.JStr? ==> r == v.value.s
    ensures v.None? ==> r == "undefined"
  {
    match v
    case None => "undefined"
    case Some(j) => Text(j)
  }

  /**
   * The loop over the optional dependencies: each name whose dependency entry is truthy
   * is deleted from the dependencies. Reading an entry of missing or `null` dependencies
   * throws.
   */
  function Prune(deps: Option<Json>, names: seq<string>): (r: Result<Option<Json>, string>)
    ensures r.Failure? <==> |names| > 0 && (deps.None? || deps.value.JNull?)
    ensures r.Success? && deps.Some? && deps.value.JObj? ==> (r.value.Some? && r.value.value.JObj?
      && (forall k :: k in r.value.value.props <==> k in deps.value.props && !(k in names && Truthy(deps.value.props[k])))
      && (forall k :: k in r.value.value.props ==> r.value.value.props[k] == deps.value.props[k])
      && (forall k :: k in r.value.value.keys <==> k in deps.value.keys && !(k in names && k in deps.value.props && Truthy(deps.value.props[k]))))
    ensures r.Success? && !(deps.Some? && deps.value.JObj?) ==> r == Success(deps)
    decreases |names|
  {
    if |names| == 0 then Success(deps)
    else if deps.None? || deps.value.JNull? then Failure("TypeError: Cannot read properties of undefined")
    else
      var d := deps.value;
      var next := if d.JObj? && TruthyOpt(Get(d, names[0])) then Delete(d, names[0]) else d;
      Prune(Some(next), names[1..])
  }

  /**
   * `versionDataToResolved(vObj, registryUrlObj)`. `rehost` stands for
   * `ensureSourceUrlRegistry`, which moves the tarball URL onto the registry's protocol
   * and port. The override is `vObj` itself, with the pruned dependencies, because the
   * destructuring assignment evaluates to its right-hand side.
   */
  function VersionDataToResolved(vObj: Json, rehost: string -> string): (r: Result<Resolved, string>)
    ensures vObj.JNull? ==> r.Failure?
    ensures r.Success? ==> (r.value.override.None? <==>
      !TruthyOpt(Get(vObj, "dependencies")) && !TruthyOpt(Get(vObj, "peerDependencies")) && !TruthyOpt(Get(vObj, "optionalDependencies")))
    ensures r.Success? ==> r.value.deprecated == Get(vObj, "deprecated")
    ensures r.Success? ==> (Get(vObj, "dist").Some? && Get(Get(vObj, "dist").value, "tarball").Some?
      && Get(Get(vObj, "dist").value, "tarball").value.JStr?)
  {
    if vObj.JNull? then Failure("TypeError: Cannot read properties of null (reading 'dependencies')")
    else
      var override :- Override(vObj);
      var source :- Source(Get(vObj, "dist"), rehost);
      Success(Resolved(source, override, Get(vObj, "deprecated")))
  }

  /** The rehosted tarball URL of the `dist` entry, `#`, and its hash. */
  function Source(dist: Option<Json>, rehost: string -> string): (r: Result<string, string>)
    ensures r.Success? ==> (dist.Some? && Get(dist.value, "tarball").Some? && Get(dist.value, "tarball").value.JStr?)
  {
    if dist.None? || dist.value.JNull? then Failure("TypeError: Cannot read properties of undefined (reading 'tarball')")
    else
      var tarball := Get(dist.value, "tarball");
      if tarball.None? || !tarball.value.JStr? then Failure("TypeError: The \"url\" argument must be of type string")
      else
        var hash := if TruthyOpt(Get(dist.value, "integrity")) then Get(dist.value, "integrity") else Get(dist.value, "shasum");
        Success(rehost(tarball.value.s) + "#" + OptText(hash))
  }

  /**
   * The `override` of `versionDataToResolved`: present when the version lists
   * dependencies of any kind, with the optional ones pruned from the plain ones.
   */
  function Override(vObj: Json): (r: Result<Option<Json>, string>)
    requires !vObj.JNull?
    ensures r.Success? ==> (r.value.None? <==>
      !TruthyOpt(Get(vObj, "dependencies")) && !TruthyOpt(Get(vObj, "peerDependencies")) && !TruthyOpt(Get(vObj, "optionalDependencies")))
  {
    var deps, peer, opt := Get(vObj, "dependencies"), Get(vObj, "peerDependencies"), Get(vObj, "optionalDependencies");
    if TruthyOpt(deps) || TruthyOpt(peer) || TruthyOpt(opt) then
      if TruthyOpt(opt) then
        match Prune(deps, ForInKeys(opt.value))
        case Failure(e) => Failure(e)
        case Success(pruned) =>
          Success(Some(if vObj.JObj? && pruned.Some? then Put(vObj, "dependencies", pruned.value) else vObj))
      else Success(Some(vObj))
    else Success(None)
  }

  /**
   * The source is the rehosted tarball URL, `#`, and the integrity hash, or the SHA-1
   * sum when there is no integrity hash; with neither it ends in `#undefined`.
   */
  lemma SourceHash(vObj: Json, rehost: string -> string, dist: Json, tarball: string)
    requires VersionDataToResolved(vObj, rehost).Success?
    requires Get(vObj, "dist") == Some(dist) && Get(dist, "tarball") == Some(JStr(tarball))
    ensures var source := VersionDataToResolved(vObj, rehost).value.source;
      && (TruthyOpt(Get(dist, "integrity")) ==> source == rehost(tarball) + "#" + Text(Get(dist, "integrity").value))
      && (!TruthyOpt(Get(dist, "integrity")) && Get(dist, "shasum").Some? ==> source == rehost(tarball) + "#" + Text(Get(dist, "shasum").value))
      && (!TruthyOpt(Get(dist, "integrity")) && Get(dist, "shasum").None? ==> source == rehost(tarball) + "#undefined")
  {
  }

  /**
   * With truthy optional dependencies, the override is the version object whose
   * dependencies lose every name the optional dependencies list with a truthy entry;
   * its other properties are those of the version object.
   */
  lemma OptionalsRemoved(vObj: Json, rehost: string -> string, deps: Json, opt: Json)
    requires vObj.JObj? && Get(vObj, "dependencies") == Some(deps) && deps.JObj?
    requires Get(vObj, "optionalDependencies") == Some(opt) && Truthy(opt)
    ensures var r := VersionDataToResolved(vObj, rehost);
      r.Success? ==> (r.value.override.Some? && r.value.override.value.JObj?
        && (forall k :: k != "dependencies" ==> Get(r.value.override.value, k) == Get(vObj, k))
        && Get(r.value.override.value, "dependencies").Some?
        && var d := Get(r.value.override.value, "dependencies").value;
          d.JObj? && forall k :: k in d.props <==> k in deps.props && !(k in ForInKeys(opt) && Truthy(deps.props[k])))
  {
  }

  /** Optional dependencies with a name but no dependencies to prune from make the lookup throw. */
  lemma OptionalsWithoutDependencies(vObj: Json, rehost: string -> string, opt: Json)
    requires Get(vObj, "dependencies").None? && Get(vObj, "optionalDependencies") == Some(opt)
    requires opt.JObj? && |opt.keys| > 0
    ensures VersionDataToResolved(vObj, rehost).Failure?
  {
  }
}

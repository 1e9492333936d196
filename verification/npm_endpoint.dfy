/**
 * The registry endpoint's view of the npm configuration: the default registry, the
 * registry of each `@scope`, and the hosts (written `//host`, without a protocol) that
 * credentials may be sent to.
 */
module NpmEndpoint {
  import opened Wrappers
  import opened JsString
  import opened Json
  import opened JsObject

  const DefaultRegistry: string := "https://registry.npmjs.org"

  datatype Endpoint = Endpoint(defaultRegistryUrl: string, registryScopes: OrdMap<string>, registryHosts: seq<string>)

  /** The scope table is a valid table whose every scope starts with `@`. */
  ghost predicate WellFormed(ep: Endpoint) {
    ep.registryScopes.Valid() && forall s :: s in ep.registryScopes.vals ==> StartsWith(s, "@")
  }

  /**
   * `config.registry || npmrc.get('registry') || 'https://registry.npmjs.org'`; a setting
   * that is truthy but not a string is not a URL, and `new URL` throws on it.
   */
  function RegistrySetting(configRegistry: Option<Json>, npmrc: Json): (r: Result<string, string>)
    ensures TruthyOpt(configRegistry) ==>
      (r.Success? <==> configRegistry.value.JStr?) && (r.Success? ==> r.value == configRegistry.value.s)
    ensures !TruthyOpt(configRegistry) && TruthyOpt(Get(npmrc, "registry")) ==>
      (r.Success? <==> Get(npmrc, "registry").value.JStr?) && (r.Success? ==> r.value == Get(npmrc, "registry").value.s)
    ensures !TruthyOpt(configRegistry) && !TruthyOpt(Get(npmrc, "registry")) ==> r == Success(DefaultRegistry)
    ensures r.Success? ==> r.value != ""
  {
    var chosen := if TruthyOpt(configRegistry) then configRegistry else Get(npmrc, "registry");
    if !TruthyOpt(chosen) then Success(DefaultRegistry)
    else if chosen.value.JStr? then Success(chosen.value.s)
    else Failure("TypeError: Invalid URL")
  }

  /** `key[0] === '@' && key.endsWith(':registry')` */
  predicate IsScopeKey(key: string) {
    CharAt(key, 0) == Some('@') && EndsWith(key, ":registry")
  }

  /** `key[0] === '/' && key[1] === '/'` */
  predicate IsHostKey(key: string) {
    CharAt(key, 0) == Some('/') && CharAt(key, 1) == Some('/')
  }

  /** The scope a registry key configures: the key without `:registry`. */
  function ScopeName(key: string): (r: string)
    requires IsScopeKey(key)
    ensures key == r + ":registry"
    ensures StartsWith(r, "@")
  {
    Substr(key, 0, |key| - 9)
  }

  /** Registry keys of different scopes are different keys. */
  lemma ScopeNameInjective(a: string, b: string)
    requires IsScopeKey(a) && IsScopeKey(b) && ScopeName(a) == ScopeName(b)
    ensures a == b
  {
  }

  /**
   * `value[value.length - 1] === '/'` holds, and the following reassignment of the
   * constant `value` throws; reading the length of `null` throws as well.
   */
  predicate ScopeValueThrows(value: Json) {
    match value
    case JNull => true
    case JStr(s) => |s| > 0 && s[|s| - 1] == '/'
    case JArr(items) => |items| > 0 && items[|items| - 1] == JStr("/")
    case _ => false
  }

  /**
   * The host pushed for a scope's registry: the text from the first `//` on, or the
   * last character when the URL has no `//` (`substr(-1)`).
   */
  function ScopeHost(url: string): (r: string)
    ensures IndexOfSub(url, "//") >= 0 ==> r == url[IndexOfSub(url, "//")..]
    ensures IndexOfSub(url, "//") < 0 && |url| > 0 ==> r == [url[|url| - 1]]
  {
    SubstrFrom(url, IndexOfSub(url, "//"))
  }

  /** The host a `//host…:prop` key names: the text before its last `:`, less one trailing `/`. */
  function HostOfKey(key: string): (r: Option<string>)
    ensures r.None? <==> ':' !in key
    ensures r.Some? ==> var p := LastIndexOf(key, ':');
      (key[p - 1] == '/' ==> r.value == key[..p - 1]) && (key[p - 1] != '/' ==> r.value == key[..p])
    requires IsHostKey(key)
  {
    var p := LastIndexOf(key, ':');
    if p == -1 then None
    else
      var h := Substr(key, 0, p);
      Some(if CharAt(h, |h| - 1) == Some('/') then Substr(h, 0, |h| - 1) else h)
  }

  /** `registryHosts.push(h)` unless it is already listed. */
  function AddHost(hosts: seq<string>, h: string): (r: seq<string>)
    ensures forall x :: x in r <==> x in hosts || x == h
    ensures |hosts| <= |r| && r[..|hosts|] == hosts
    ensures Distinct(hosts) ==> Distinct(r)
  {
    if h in hosts then hosts else hosts + [h]
  }

  predicate Distinct(s: seq<string>) {
    forall i, j :: 0 <= i < j < |s| ==> s[i] != s[j]
  }

  /**
   * A `@scope:registry` entry. The membership test compares the hosts with the whole
   * URL, but what is pushed is the URL from its `//` on, so the test never stops a push.
   */
  function AddScope(ep: Endpoint, key: string, value: Json): (r: Result<Endpoint, string>)
    requires IsScopeKey(key) && WellFormed(ep)
    ensures r.Failure? <==> ScopeValueThrows(value)
    ensures r.Success? && value.JStr? ==> r.value.registryScopes.vals == ep.registryScopes.vals[ScopeName(key) := value.s]
    ensures r.Success? && !value.JStr? ==> r.value == ep
    ensures r.Success? ==> WellFormed(r.value) && r.value.defaultRegistryUrl == ep.defaultRegistryUrl
    ensures r.Success? ==> |ep.registryHosts| <= |r.value.registryHosts| && r.value.registryHosts[..|ep.registryHosts|] == ep.registryHosts
    ensures r.Success? && value.JStr? ==> forall x :: x in r.value.registryHosts <==>
      (x in ep.registryHosts || (x == ScopeHost(value.s) && value.s !in ep.registryHosts))
  {
    if ScopeValueThrows(value) then Failure("TypeError: Assignment to constant variable.")
    else if value.JStr? then
      var scopes := ep.registryScopes.Put(ScopeName(key), value.s);
      var hosts := if value.s in ep.registryHosts then ep.registryHosts else ep.registryHosts + [ScopeHost(value.s)];
      Success(Endpoint(ep.defaultRegistryUrl, scopes, hosts))
    else Success(ep)
  }

  /** What one npmrc key contributes. */
  function AddKey(ep: Endpoint, npmrc: Json, key: string): (r: Result<Endpoint, string>)
    requires WellFormed(ep)
    ensures r.Failure? <==> IsScopeKey(key) && ScopeValueThrows(Prop(npmrc, key))
    ensures r.Success? ==> WellFormed(r.value) && r.value.defaultRegistryUrl == ep.defaultRegistryUrl
    ensures r.Success? && IsScopeKey(key) ==> AddScope(ep, key, Prop(npmrc, key)) == r
    ensures r.Success? && IsHostKey(key) && HostOfKey(key).Some? ==>
      r.value == ep.(registryHosts := AddHost(ep.registryHosts, HostOfKey(key).value))
    ensures r.Success? && !IsScopeKey(key) && !(IsHostKey(key) && HostOfKey(key).Some?) ==> r.value == ep
  {
    if IsScopeKey(key) then AddScope(ep, key, Prop(npmrc, key))
    else if IsHostKey(key) then
      match HostOfKey(key)
      case None => Success(ep)
      case Some(h) => Success(ep.(registryHosts := AddHost(ep.registryHosts, h)))
    else Success(ep)
  }

  /** The keys in turn: the `Object.keys(npmrcJson).forEach` loop. */
  function AddKeys(ep: Endpoint, npmrc: Json, ks: seq<string>): (r: Result<Endpoint, string>)
    requires WellFormed(ep)
    ensures r.Failure? <==> exists k :: k in ks && IsScopeKey(k) && ScopeValueThrows(Prop(npmrc, k))
    ensures r.Success? ==> AddedAll(ep, npmrc, ks, r.value)
    decreases |ks|
  {
    if |ks| == 0 then Success(ep)
    else
      match AddKey(ep, npmrc, ks[0])
      case Failure(e) => Failure(e)
      case Success(mid) =>
        assert forall k :: k in ks[1..] ==> k in ks;
        var r := AddKeys(mid, npmrc, ks[1..]);
        if r.Success? then
          AddedStep(ep, mid, npmrc, ks, r.value);
          r
        else r
  }

  /**
   * What the keys `ks` leave in the endpoint `r` that started as `ep`: the scopes and
   * the hosts as below, and the default registry as it was.
   */
  ghost predicate AddedAll(ep: Endpoint, npmrc: Json, ks: seq<string>, r: Endpoint) {
    && WellFormed(r) && r.defaultRegistryUrl == ep.defaultRegistryUrl
    && ScopesAdded(ep.registryScopes, npmrc, ks, r.registryScopes)
    && HostsAdded(ep.registryHosts, npmrc, ks, r.registryHosts)
  }

  /** Every scope registry set, and earlier scopes kept unless a key resets them. */
  predicate ScopesAdded(before: OrdMap<string>, npmrc: Json, ks: seq<string>, after: OrdMap<string>) {
    && (forall k :: k in ks && IsScopeKey(k) && Prop(npmrc, k).JStr? ==>
      after.Get(ScopeName(k)) == Some(Prop(npmrc, k).s))
    && (forall s :: s in after.vals ==>
      (s in before.vals && after.vals[s] == before.vals[s])
      || exists k :: k in ks && IsScopeKey(k) && ScopeName(k) == s && Prop(npmrc, k).JStr? && after.vals[s] == Prop(npmrc, k).s)
    && (forall s :: s in before.vals ==> s in after.vals)
  }

  /** The hosts only extended, every host key's host listed, and nothing listed that no key contributes. */
  predicate HostsAdded(before: seq<string>, npmrc: Json, ks: seq<string>, after: seq<string>) {
    && |before| <= |after| && after[..|before|] == before
    && (forall k :: k in ks && IsHostKey(k) && HostOfKey(k).Some? ==> HostOfKey(k).value in after)
    && (forall h :: h in after ==> h in before || exists k :: k in ks && Contributes(npmrc, k, h))
  }

  /** The first key added, then the rest: together they are all the keys added. */
  lemma AddedStep(ep: Endpoint, mid: Endpoint, npmrc: Json, ks: seq<string>, r: Endpoint)
    requires WellFormed(ep) && |ks| > 0
    requires AddKey(ep, npmrc, ks[0]) == Success(mid)
    requires AddedAll(mid, npmrc, ks[1..], r)
    ensures AddedAll(ep, npmrc, ks, r)
  {
    ScopesStep(ep, mid, npmrc, ks, r);
    HostsStep(ep, mid, npmrc, ks, r);
  }

  lemma ScopesStep(ep: Endpoint, mid: Endpoint, npmrc: Json, ks: seq<string>, r: Endpoint)
    requires WellFormed(ep) && |ks| > 0
    requires AddKey(ep, npmrc, ks[0]) == Success(mid)
    requires ScopesAdded(mid.registryScopes, npmrc, ks[1..], r.registryScopes)
    ensures ScopesAdded(ep.registryScopes, npmrc, ks, r.registryScopes)
  {
    assert forall k :: k in ks[1..] ==> k in ks;
    KeptScope(mid, r, npmrc, ks);
  }

  lemma HostsStep(ep: Endpoint, mid: Endpoint, npmrc: Json, ks: seq<string>, r: Endpoint)
    requires WellFormed(ep) && |ks| > 0
    requires AddKey(ep, npmrc, ks[0]) == Success(mid)
    requires HostsAdded(mid.registryHosts, npmrc, ks[1..], r.registryHosts)
    ensures HostsAdded(ep.registryHosts, npmrc, ks, r.registryHosts)
  {
    assert forall k :: k in ks[1..] ==> k in ks;
    assert forall h :: h in mid.registryHosts ==> h in ep.registryHosts || Contributes(npmrc, ks[0], h);
    assert r.registryHosts[..|ep.registryHosts|] == r.registryHosts[..|mid.registryHosts|][..|ep.registryHosts|];
  }

  /** Host `h` is pushed because of key `k`. */
  predicate Contributes(npmrc: Json, k: string, h: string) {
    (IsHostKey(k) && HostOfKey(k) == Some(h))
    || (IsScopeKey(k) && Prop(npmrc, k).JStr? && h == ScopeHost(Prop(npmrc, k).s))
  }

  /** The first key's scope keeps its value through the rest of the keys. */
  lemma KeptScope(mid: Endpoint, r: Endpoint, npmrc: Json, ks: seq<string>)
    requires |ks| > 0
    requires IsScopeKey(ks[0]) && Prop(npmrc, ks[0]).JStr? ==> mid.registryScopes.Get(ScopeName(ks[0])) == Some(Prop(npmrc, ks[0]).s)
    requires forall s :: s in mid.registryScopes.vals ==> s in r.registryScopes.vals
    requires forall s :: s in r.registryScopes.vals ==>
      (s in mid.registryScopes.vals && r.registryScopes.vals[s] == mid.registryScopes.vals[s])
      || exists k :: k in ks[1..] && IsScopeKey(k) && ScopeName(k) == s && Prop(npmrc, k).JStr? && r.registryScopes.vals[s] == Prop(npmrc, k).s
    ensures IsScopeKey(ks[0]) && Prop(npmrc, ks[0]).JStr? ==> r.registryScopes.Get(ScopeName(ks[0])) == Some(Prop(npmrc, ks[0]).s)
  {
    var k := ks[0];
    if IsScopeKey(k) && Prop(npmrc, k).JStr? {
      assert ScopeName(k) in r.registryScopes.vals;
    }
  }

  /** `new NpmEndpoint(util, config)` given the configuration the npmrc module reports. */
  function NewEndpoint(configRegistry: Option<Json>, npmrc: Json): (r: Result<Endpoint, string>)
    ensures r.Failure? <==> (RegistrySetting(configRegistry, npmrc).Failure?
      || exists k :: k in ForInKeys(npmrc) && IsScopeKey(k) && ScopeValueThrows(Prop(npmrc, k)))
    ensures r.Success? ==> WellFormed(r.value)
    ensures r.Success? ==> r.value.defaultRegistryUrl == RegistrySetting(configRegistry, npmrc).value
    ensures r.Success? ==> forall k :: k in ForInKeys(npmrc) && IsScopeKey(k) && Prop(npmrc, k).JStr? ==>
      r.value.registryScopes.Get(ScopeName(k)) == Some(Prop(npmrc, k).s)
    ensures r.Success? ==> forall s :: s in r.value.registryScopes.vals ==>
      exists k :: k in ForInKeys(npmrc) && IsScopeKey(k) && ScopeName(k) == s && Prop(npmrc, k).JStr?
    ensures r.Success? ==> forall k :: k in ForInKeys(npmrc) && IsHostKey(k) && HostOfKey(k).Some? ==>
      HostOfKey(k).value in r.value.registryHosts
    ensures r.Success? ==> forall h :: h in r.value.registryHosts ==> exists k :: k in ForInKeys(npmrc) && Contributes(npmrc, k, h)
  {
    match RegistrySetting(configRegistry, npmrc)
    case Failure(e) => Failure(e)
    case Success(url) => AddKeys(Endpoint(url, Empty(), []), npmrc, ForInKeys(npmrc))
  }

  /**
   * `getRegistryUrl(packageName)`: a scoped name uses its scope's registry when one is
   * configured. The scope is the name up to its first `/`, or "" when there is none.
   */
  function GetRegistryUrl(ep: Endpoint, packageName: string): (r: string)
    ensures CharAt(packageName, 0) != Some('@') ==> r == ep.defaultRegistryUrl
    ensures r == ep.defaultRegistryUrl || r in ep.registryScopes.vals.Values
  {
    if CharAt(packageName, 0) == Some('@') then
      var scope := Substr(packageName, 0, IndexOf(packageName, '/'));
      if scope in ep.registryScopes.vals then ep.registryScopes.vals[scope] else ep.defaultRegistryUrl
    else ep.defaultRegistryUrl
  }

  /** A scoped package is looked up in the registry configured for its scope. */
  lemma ScopedRegistry(ep: Endpoint, scope: string, name: string)
    requires StartsWith(scope, "@") && '/' !in scope && scope in ep.registryScopes.vals
    ensures GetRegistryUrl(ep, scope + "/" + name) == ep.registryScopes.vals[scope]
  {
    var full := scope + "/" + name;
    assert full[|scope|] == '/' && full[..|scope|] == scope;
    assert IndexOf(full, '/') == |scope| by {
      assert '/' !in full[..|scope|];
    }
  }

  /** A scope without a configured registry falls back to the default. */
  lemma UnconfiguredScope(ep: Endpoint, scope: string, name: string)
    requires StartsWith(scope, "@") && '/' !in scope && scope !in ep.registryScopes.vals
    ensures GetRegistryUrl(ep, scope + "/" + name) == ep.defaultRegistryUrl
  {
    var full := scope + "/" + name;
    assert full[|scope|] == '/' && full[..|scope|] == scope;
    assert IndexOf(full, '/') == |scope| by {
      assert '/' !in full[..|scope|];
    }
  }

  /** `@name` without a slash selects the scope "", which no key configures. */
  lemma ScopeWithoutSlash(ep: Endpoint, name: string)
    requires WellFormed(ep) && StartsWith(name, "@") && '/' !in name
    ensures GetRegistryUrl(ep, name) == ep.defaultRegistryUrl
  {
    assert "" !in ep.registryScopes.vals;
  }

  /** The key of a host's token names that host, as `auth` spells it (`//` and the URL's host). */
  lemma HostOfTokenKey(host: string)
    requires StartsWith(host, "//") && ':' !in host
    ensures IsHostKey(host + "/:_authToken")
    ensures HostOfKey(host + "/:_authToken") == Some(host)
  {
    var key := host + "/:_authToken";
    var p := LastIndexOf(key, ':');
    assert key[|host| + 1] == ':';
    assert key[|host| + 2..] == "_authToken";
    assert key[..|host| + 1] == host + "/";
  }

  /**
   * Two scopes on the same registry push its host twice: the membership test compares
   * the hosts with the whole URL, not with what was pushed.
   */
  lemma SharedRegistryListedTwice(ep: Endpoint, a: string, b: string, url: string)
    requires WellFormed(ep) && IsScopeKey(a) && IsScopeKey(b)
    requires !ScopeValueThrows(JStr(url)) && url !in ep.registryHosts && ScopeHost(url) != url
    ensures AddScope(ep, a, JStr(url)).Success?
    ensures var mid := AddScope(ep, a, JStr(url)).value;
      AddScope(mid, b, JStr(url)).Success?
      && AddScope(mid, b, JStr(url)).value.registryHosts == ep.registryHosts + [ScopeHost(url), ScopeHost(url)]
  {
  }
}

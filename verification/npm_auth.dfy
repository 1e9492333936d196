/**
 * The registry client's `auth` step: given the URL and method of a request, the npm
 * configuration and the request's current credentials, decide whether the request is
 * authorised and fill in proxy, TLS and identity settings. Every setting is looked up
 * under the request host (`//host:key`) before the global key.
 */
module NpmAuth {
  import opened Wrappers
  import opened Bytes
  import opened JsString
  import opened JsNumber
  import opened Json
  import opened JsObject
  import Utf8
  import Base64
  import NpmEndpoint

  /** The parts of a parsed URL that `auth` reads. */
  datatype Url = Url(origin: string, protocol: string, host: string)

  /** `{ username, password }`; the password is `undefined` when `_auth` has no colon. */
  datatype BasicAuth = BasicAuth(username: Json, password: Option<string>)

  /** The credential fields `auth` reads and writes; `None` is `undefined`. */
  datatype Credentials = Credentials(
    proxy: Option<Json>,
    strictSSL: Option<Json>,
    ca: Option<Json>,
    cert: Option<Json>,
    headers: Option<OrdMap<string>>,
    basicAuth: Option<BasicAuth>)

  /** Whether the request is authorised, and the credentials as `auth` leaves them. */
  datatype Outcome = Outcome(authorized: bool, credentials: Credentials)

  /** A host-scoped setting, falling back to the global one only when it is `undefined`. */
  function Setting(config: Json, hostKey: string, key: string): (r: Option<Json>)
    ensures Get(config, hostKey).Some? ==> r == Get(config, hostKey)
    ensures Get(config, hostKey).None? ==> r == Get(config, key)
  {
    match Get(config, hostKey)
    case Some(v) => Some(v)
    case None => Get(config, key)
  }

  /** `a || b` */
  function Either(a: Option<Json>, b: Option<Json>): (r: Option<Json>)
    ensures TruthyOpt(r) <==> TruthyOpt(a) || TruthyOpt(b)
    ensures TruthyOpt(a) ==> r == a
  {
    if TruthyOpt(a) then a else b
  }

  /** `new Buffer(v, 'base64').toString()`: base 64, then UTF-8. */
  function BufferText(v: Json): (r: Result<string, string>)
    ensures v.JStr? <==> r.Success?
    ensures v.JStr? ==> r.value == Utf8.Decode(Base64.Decode(v.s))
  {
    if v.JStr? then Success(Utf8.Decode(Base64.Decode(v.s)))
    else Failure("TypeError: The first argument must be of type string")
  }

  /** `fs.readFileSync(path).toString()` over the files `files` holds. */
  function ReadText(files: map<string, seq<Byte>>, path: Json): (r: Result<Json, string>)
    ensures r.Success? <==> path.JStr? && path.s in files
    ensures r.Success? ==> r.value == JStr(Utf8.Decode(files[path.s]))
  {
    if !path.JStr? then Failure("TypeError: The \"path\" argument must be of type string")
    else if path.s in files then Success(JStr(Utf8.Decode(files[path.s])))
    else Failure("ENOENT: no such file or directory")
  }

  /** A `401` whose `www-authenticate` header starts with the value `OTP`. */
  predicate IsOtpChallenge(unauthorizedHeaders: Json) {
    var challenge := Get(unauthorizedHeaders, "www-authenticate");
    TruthyOpt(challenge) && Get(challenge.value, "0") == Some(JStr("OTP"))
  }

  /**
   * Requests that may carry credentials: publishes, and requests to the default registry
   * or over `https` to a configured host. `url.protocol` is compared with `https`
   * without a colon.
   */
  predicate Permitted(ep: NpmEndpoint.Endpoint, url: Url, verb: string) {
    verb == "PUT"
    || url.origin == ep.defaultRegistryUrl
    || (url.protocol == "https" && "//" + url.host in ep.registryHosts)
  }

  /** The proxy, TLS and certificate settings, which every permitted request receives. */
  function Transport(creds: Credentials, config: Json, host: string, files: map<string, seq<Byte>>): (r: Result<Credentials, string>)
    ensures r.Success? ==> r.value.headers == creds.headers && r.value.basicAuth == creds.basicAuth
    ensures r.Success? ==> (r.value.proxy ==
      if TruthyOpt(creds.proxy) then creds.proxy else Either(Get(config, "https-proxy"), Get(config, "http-proxy")))
    ensures r.Success? ==> (r.value.strictSSL ==
      if creds.strictSSL.None? && Get(config, "strict-ssl") == Some(JBool(false)) then Some(JBool(false)) else creds.strictSSL)
    ensures r.Success? ==> (r.value.cert ==
      if TruthyOpt(creds.cert) then creds.cert else Setting(config, host + ":cert", "cert"))
    ensures creds.ca.None? && TruthyOpt(Setting(config, host + ":ca", "ca")) ==>
      r.Success? && r.value.ca == Setting(config, host + ":ca", "ca")
    ensures TruthyOpt(creds.ca) ==> r.Success? && r.value.ca == creds.ca
  {
    var proxy := if TruthyOpt(creds.proxy) then creds.proxy else Either(Get(config, "https-proxy"), Get(config, "http-proxy"));
    var strictSSL := if creds.strictSSL.None? && Get(config, "strict-ssl") == Some(JBool(false)) then Some(JBool(false)) else creds.strictSSL;
    var ca := if creds.ca.None? then Setting(config, host + ":ca", "ca") else creds.ca;
    var cafile := Setting(config, host + ":ca", "cafile");
    var ca' :- if !TruthyOpt(ca) && TruthyOpt(cafile) then
        match ReadText(files, cafile.value)
        case Success(text) => Success(Some(text))
        case Failure(e) => Failure(e)
      else Success(ca);
    var cert := if TruthyOpt(creds.cert) then creds.cert else Setting(config, host + ":cert", "cert");
    Success(creds.(proxy := proxy, strictSSL := strictSSL, ca := ca', cert := cert))
  }

  /** The token, `_auth` and `_password` settings, in that order of preference. */
  function Identity(creds: Credentials, config: Json, host: string): (r: Result<Credentials, string>)
    ensures r.Success? ==> (r.value.proxy == creds.proxy && r.value.strictSSL == creds.strictSSL
      && r.value.ca == creds.ca && r.value.cert == creds.cert)
    ensures r.Success? && r.value.headers != creds.headers ==> TruthyOpt(Setting(config, host + "/:_authToken", "_authToken"))
    ensures r.Success? && r.value.basicAuth != creds.basicAuth ==> !TruthyOpt(Setting(config, host + "/:_authToken", "_authToken"))
  {
    var token := Setting(config, host + "/:_authToken", "_authToken");
    if TruthyOpt(token) then
      Success(creds.(headers := Some(Empty<string>().Put("authorization", "Bearer " + Text(token.value)))))
    else
      var auth := Setting(config, host + ":_auth", "_auth");
      if TruthyOpt(auth) then
        var text :- BufferText(auth.value);
        var parts := Split(text, ':');
        Success(creds.(basicAuth := Some(BasicAuth(JStr(parts[0]), if |parts| > 1 then Some(parts[1]) else None))))
      else
        var username := Setting(config, host + ":username", "username");
        var password := Setting(config, host + ":_password", "_password");
        if TruthyOpt(username) && TruthyOpt(password) then
          var text :- BufferText(password.value);
          Success(creds.(basicAuth := Some(BasicAuth(username.value, Some(text)))))
        else Success(creds)
  }

  /**
   * `auth(url, method, credentials, unauthorizedHeaders)`. `otp` is the answer the user
   * gives at the one-time-password prompt and `files` the files `cafile` may name;
   * `Failure` is an exception thrown while reading them.
   */
  function Auth(ep: NpmEndpoint.Endpoint, config: Json, files: map<string, seq<Byte>>, url: Url, verb: string,
                creds: Credentials, unauthorizedHeaders: Option<Json>, otp: string): (r: Result<Outcome, string>)
    requires creds.headers.Some? ==> creds.headers.value.Valid()
    ensures TruthyOpt(unauthorizedHeaders) ==> r.Success? && (r.value.authorized <==> IsOtpChallenge(unauthorizedHeaders.value))
    ensures TruthyOpt(unauthorizedHeaders) && !IsOtpChallenge(unauthorizedHeaders.value) ==> r.value.credentials == creds
    ensures TruthyOpt(unauthorizedHeaders) && IsOtpChallenge(unauthorizedHeaders.value) ==>
      var c := r.value.credentials;
      c.headers.Some? && c.headers.value.Get("npm-otp") == Some(otp)
      && (forall k :: k != "npm-otp" && creds.headers.Some? ==> c.headers.value.Get(k) == creds.headers.value.Get(k))
      && c == creds.(headers := c.headers)
    ensures !TruthyOpt(unauthorizedHeaders) && !Permitted(ep, url, verb) ==> r == Success(Outcome(false, creds))
    ensures !TruthyOpt(unauthorizedHeaders) && Permitted(ep, url, verb) && r.Success? ==> r.value.authorized
    ensures (!TruthyOpt(unauthorizedHeaders) && r.Success? && verb != "PUT"
      && !TruthyOpt(Setting(config, "//" + url.host + ":always-auth", "always-auth"))) ==>
      r.value.credentials.headers == creds.headers && r.value.credentials.basicAuth == creds.basicAuth
  {
    if TruthyOpt(unauthorizedHeaders) then
      if IsOtpChallenge(unauthorizedHeaders.value) then
        var headers := if creds.headers.Some? then creds.headers.value else Empty();
        Success(Outcome(true, creds.(headers := Some(headers.Put("npm-otp", otp)))))
      else Success(Outcome(false, creds))
    else
      var host := "//" + url.host;
      if !Permitted(ep, url, verb) then Success(Outcome(false, creds))
      else
        var transport :- Transport(creds, config, host, files);
        var alwaysAuth := Setting(config, host + ":always-auth", "always-auth");
        if TruthyOpt(alwaysAuth) || verb == "PUT" then
          var identity :- Identity(transport, config, host);
          Success(Outcome(true, identity))
        else Success(Outcome(true, transport))
  }

  /** `parseInt(s, 10).toString()` */
  function ParsedText(s: string): (r: string)
    ensures ParseInt(s).None? ==> r == "NaN"
  {
    match ParseInt(s)
    case None => "NaN"
    case Some(n) => NumberToString(n)
  }

  /**
   * The validator of the one-time-password prompt: the message it returns for an answer
   * it rejects. An answer passes when it is six characters long and is the zero-padded
   * numeral `parseInt` reads from it, which admits a minus sign before five digits.
   */
  function ValidateOtp(input: string): (r: Option<string>)
    ensures r.None? <==> |input| == 6 && (AllDigits(input) || (input[0] == '-' && AllDigits(input[1..]) && input[1] != '0'))
  {
    OtpShape(input);
    if input == "" || |input| != 6 || PadStart(ParsedText(input), 6, '0') != input then
      Some("The OTP code must be a valid 6 digit number.")
    else None
  }

  /** The answers the validator's three tests let through, characterised. */
  lemma OtpShape(s: string)
    ensures (s != "" && |s| == 6 && PadStart(ParsedText(s), 6, '0') == s) <==>
      |s| == 6 && (AllDigits(s) || (s[0] == '-' && AllDigits(s[1..]) && s[1] != '0'))
  {
    if |s| == 6 {
      if AllDigits(s) {
        OtpDigits(s);
      } else if s[0] == '-' && AllDigits(s[1..]) && s[1] != '0' {
        OtpNegative(s);
      } else {
        OtpRejected(s);
      }
    }
  }

  lemma OtpDigits(s: string)
    requires |s| > 0 && AllDigits(s)
    ensures PadStart(ParsedText(s), |s|, '0') == s
  {
    DigitsParsed(s);
    PaddedValue(s);
  }

  /** A string of digits reads as its value. */
  lemma DigitsParsed(s: string)
    requires |s| > 0 && AllDigits(s)
    ensures ParseInt(s) == Some(DigitsValue(s))
  {
    assert TrimStart(s) == s && SignStripped(s) == s;
    DigitsAreLeading(s);
  }

  lemma OtpNegative(s: string)
    requires |s| >= 2 && s[0] == '-' && AllDigits(s[1..]) && s[1] != '0'
    ensures PadStart(ParsedText(s), |s|, '0') == s
  {
    var ds := s[1..];
    assert TrimStart(s) == s;
    DigitsAreLeading(ds);
    LeadingNonZeroIsLarge(ds);
    DecimalOfDigits(ds);
    var v: int := DigitsValue(ds);
    assert ParseInt(s) == Some(-v);
    assert "-" + ds == s;
  }

  lemma OtpRejected(s: string)
    requires |s| == 6 && !AllDigits(s) && !(s[0] == '-' && AllDigits(s[1..]) && s[1] != '0')
    ensures PadStart(ParsedText(s), 6, '0') != s
  {
    ZeroLeads(s);
    var p := PadStart(ParsedText(s), 6, '0');
    match ParseInt(s)
    case None =>
      assert p[0] == '0';
    case Some(n) =>
      var t := NumberToString(n);
      if n >= 0 {
        PaddedDigits(t, 6);
      } else if |t| < 6 {
        assert p[0] == '0';
      } else if |t| == 6 {
        assert p == t && p[1..] == Decimal(-n);
      }
  }

  /** A string that starts with `0` reads as a number that is not negative. */
  lemma ZeroLeads(s: string)
    requires |s| > 0
    ensures s[0] == '0' ==> ParseInt(s).Some? && ParseInt(s).value >= 0
  {
    if s[0] == '0' {
      assert TrimStart(s) == s;
      assert SignStripped(s) == s;
      assert LeadingDigits(s) != "";
    }
  }

  lemma {:induction false} DigitsAreLeading(ds: string)
    requires AllDigits(ds)
    ensures LeadingDigits(ds) == ds
  {
    if |ds| > 0 {
      DigitsAreLeading(ds[1..]);
    }
  }

  /** Zero-padding a digit string keeps it a digit string. */
  lemma PaddedDigits(t: string, len: int)
    requires AllDigits(t)
    ensures AllDigits(PadStart(t, len, '0'))
  {
    var r := PadStart(t, len, '0');
    forall i | 0 <= i < |r| ensures IsDigit(r[i]) {
      if i >= |r| - |t| {
        assert r[i] == r[|r| - |t|..][i - (|r| - |t|)];
      }
    }
  }

  /** Padding the numeral of a digit string's value back to its length restores it. */
  lemma {:induction false} PaddedValue(s: string)
    requires |s| > 0 && AllDigits(s)
    ensures PadStart(Decimal(DigitsValue(s)), |s|, '0') == s
  {
    if |s| > 1 && s[0] == '0' {
      var t := s[1..];
      assert s == Repeat('0', 1) + t;
      LeadingZeros(1, t);
      PaddedValue(t);
      var d := Decimal(DigitsValue(t));
      assert |d| <= |t|;
      assert Repeat('0', |s| - |d|) == ['0'] + Repeat('0', |t| - |d|);
    } else {
      DecimalOfDigits(s);
    }
  }

  /**
   * `url.protocol` of a parsed URL ends with a colon, so it never equals `https` and
   * only the default registry origin, or a publish, lets credentials through.
   */
  lemma ProtocolWithColon(ep: NpmEndpoint.Endpoint, url: Url, verb: string)
    requires EndsWith(url.protocol, ":")
    ensures Permitted(ep, url, verb) <==> verb == "PUT" || url.origin == ep.defaultRegistryUrl
  {
    assert url.protocol != "https" by {
      assert "https"[4] != ':';
    }
  }

  /**
   * With a token configured for the host, or else globally, a request that sends
   * credentials carries exactly the bearer header: earlier headers are replaced and the
   * basic credentials are left alone.
   */
  lemma BearerToken(ep: NpmEndpoint.Endpoint, config: Json, files: map<string, seq<Byte>>, url: Url, verb: string,
                    creds: Credentials, token: string)
    requires creds.headers.Some? ==> creds.headers.value.Valid()
    requires Permitted(ep, url, verb)
    requires verb == "PUT" || TruthyOpt(Setting(config, "//" + url.host + ":always-auth", "always-auth"))
    requires Setting(config, "//" + url.host + "/:_authToken", "_authToken") == Some(JStr(token)) && token != ""
    ensures var r := Auth(ep, config, files, url, verb, creds, None, "");
      r.Success? ==> (r.value.authorized
        && r.value.credentials.headers == Some(OrdMap(["authorization"], map["authorization" := "Bearer " + token]))
        && r.value.credentials.basicAuth == creds.basicAuth)
  {
    SendsIdentity(ep, config, files, url, verb, creds);
    assert [] + ["authorization"] == ["authorization"];
  }

  /** A permitted request that sends credentials gets the identity settings on top of the transport ones. */
  lemma SendsIdentity(ep: NpmEndpoint.Endpoint, config: Json, files: map<string, seq<Byte>>, url: Url, verb: string,
                      creds: Credentials)
    requires creds.headers.Some? ==> creds.headers.value.Valid()
    requires Permitted(ep, url, verb)
    requires verb == "PUT" || TruthyOpt(Setting(config, "//" + url.host + ":always-auth", "always-auth"))
    ensures var r := Auth(ep, config, files, url, verb, creds, None, "");
      var t := Transport(creds, config, "//" + url.host, files);
      r.Success? ==> (t.Success? && Identity(t.value, config, "//" + url.host).Success?
        && r.value == Outcome(true, Identity(t.value, config, "//" + url.host).value))
  {
  }

  /** A host token that is set but empty hides the global token: no bearer header is sent. */
  lemma EmptyHostTokenHidesGlobal(ep: NpmEndpoint.Endpoint, config: Json, files: map<string, seq<Byte>>, url: Url, verb: string,
                                  creds: Credentials, token: string)
    requires creds.headers.Some? ==> creds.headers.value.Valid()
    requires Permitted(ep, url, verb) && verb == "PUT"
    requires Get(config, "//" + url.host + "/:_authToken") == Some(JStr(""))
    requires Get(config, "_authToken") == Some(JStr(token)) && token != ""
    ensures var r := Auth(ep, config, files, url, verb, creds, None, "");
      r.Success? ==> r.value.credentials.headers == creds.headers
  {
    SendsIdentity(ep, config, files, url, verb, creds);
  }

  /**
   * The legacy `_auth` setting, written as npm writes it (base 64 of the UTF-8 of
   * `user:password`), gives back both parts when neither holds a colon.
   */
  lemma LegacyAuthRoundTrip(ep: NpmEndpoint.Endpoint, config: Json, files: map<string, seq<Byte>>, url: Url, verb: string,
                            creds: Credentials, user: string, password: string)
    requires creds.headers.Some? ==> creds.headers.value.Valid()
    requires Permitted(ep, url, verb) && verb == "PUT"
    requires !TruthyOpt(Setting(config, "//" + url.host + "/:_authToken", "_authToken"))
    requires ':' !in user && ':' !in password
    requires Setting(config, "//" + url.host + ":_auth", "_auth") == Some(JStr(Base64.Encode(Utf8.Encode(user + ":" + password))))
    ensures var r := Auth(ep, config, files, url, verb, creds, None, "");
      r.Success? ==> (r.value.credentials.basicAuth == Some(BasicAuth(JStr(user), Some(password)))
        && r.value.credentials.headers == creds.headers)
  {
    SendsIdentity(ep, config, files, url, verb, creds);
    var t := Transport(creds, config, "//" + url.host, files);
    if t.Success? {
      LegacyAuthDecoded(t.value, config, "//" + url.host, user, password);
    }
  }

  /** The identity step on its own: `_auth` decodes to the user and the password. */
  lemma LegacyAuthDecoded(creds: Credentials, config: Json, host: string, user: string, password: string)
    requires !TruthyOpt(Setting(config, host + "/:_authToken", "_authToken"))
    requires ':' !in user && ':' !in password
    requires Setting(config, host + ":_auth", "_auth") == Some(JStr(Base64.Encode(Utf8.Encode(user + ":" + password))))
    ensures Identity(creds, config, host) == Success(creds.(basicAuth := Some(BasicAuth(JStr(user), Some(password)))))
  {
    var text := user + ":" + password;
    StoredText(text);
    SplitPair(user, ':', password);
    AuthSplit(creds, config, host, text);
  }

  /** A truthy `_auth` whose buffer text is `text` gives the parts of `text` around its colons. */
  lemma AuthSplit(creds: Credentials, config: Json, host: string, text: string)
    requires !TruthyOpt(Setting(config, host + "/:_authToken", "_authToken"))
    requires var auth := Setting(config, host + ":_auth", "_auth");
      TruthyOpt(auth) && BufferText(auth.value) == Success(text)
    ensures var parts := Split(text, ':');
      Identity(creds, config, host) == Success(creds.(basicAuth := Some(BasicAuth(JStr(parts[0]), if |parts| > 1 then Some(parts[1]) else None))))
  {
  }

  /** Text stored as npm stores it (base 64 of its UTF-8) reads back as the text. */
  lemma StoredText(text: string)
    requires text != ""
    ensures var stored := Base64.Encode(Utf8.Encode(text));
      stored != "" && BufferText(JStr(stored)) == Success(text)
  {
    assert |Utf8.Encode(text)| > 0;
    Base64.DecodeEncode(Utf8.Encode(text));
    Utf8.DecodeEncode(text);
  }

  /** `username` with a base-64 `_password` sends the decoded password. */
  lemma PasswordDecoded(ep: NpmEndpoint.Endpoint, config: Json, files: map<string, seq<Byte>>, url: Url, verb: string,
                        creds: Credentials, username: Json, password: string)
    requires creds.headers.Some? ==> creds.headers.value.Valid()
    requires Permitted(ep, url, verb) && verb == "PUT"
    requires !TruthyOpt(Setting(config, "//" + url.host + "/:_authToken", "_authToken"))
    requires !TruthyOpt(Setting(config, "//" + url.host + ":_auth", "_auth"))
    requires Setting(config, "//" + url.host + ":username", "username") == Some(username) && Truthy(username)
    requires Setting(config, "//" + url.host + ":_password", "_password") == Some(JStr(Base64.Encode(Utf8.Encode(password))))
    requires password != ""
    ensures var r := Auth(ep, config, files, url, verb, creds, None, "");
      r.Success? ==> r.value.credentials.basicAuth == Some(BasicAuth(username, Some(password)))
  {
    SendsIdentity(ep, config, files, url, verb, creds);
    assert |Utf8.Encode(password)| > 0;
    Base64.DecodeEncode(Utf8.Encode(password));
    Utf8.DecodeEncode(password);
  }

  /** Without a `ca` setting, `cafile` names the file whose text becomes the certificate authority. */
  lemma CaFileRead(creds: Credentials, config: Json, host: string, files: map<string, seq<Byte>>, path: string)
    requires creds.ca.None? && Get(config, host + ":ca").None? && !TruthyOpt(Get(config, "ca"))
    requires Get(config, "cafile") == Some(JStr(path)) && path != ""
    ensures Transport(creds, config, host, files).Success? <==> path in files
    ensures path in files ==> Transport(creds, config, host, files).value.ca == Some(JStr(Utf8.Decode(files[path])))
  {
  }

  /**
   * When the request's certificate authority is set but empty, the host's `ca` setting is
   * read as the name of a file rather than as the certificate itself.
   */
  lemma HostCaReadAsPath(creds: Credentials, config: Json, host: string, files: map<string, seq<Byte>>, pem: string)
    requires creds.ca.Some? && !Truthy(creds.ca.value)
    requires Get(config, host + ":ca") == Some(JStr(pem)) && pem != ""
    ensures Transport(creds, config, host, files).Success? <==> pem in files
  {
  }
}

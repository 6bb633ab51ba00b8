/**
 * The HTTP client the directory clients share: the Authorization header it
 * chooses for its configuration, the OAuth 2.0 token it fetches and caches
 * (RFC 6749 section 4.4 client credentials, section 4.3 resource owner
 * password credentials, section 6 refreshing), Basic credentials (RFC 7617
 * section 2), and how it prepares a request: URL, method and headers.
 *
 * The clock is an integer passed in, the token endpoint is an oracle from
 * the token request to its response, and base64 encoding is an encoder
 * passed in.
 */
module ApiRequests {
  import opened Wrappers
  import opened Text

  /** Truthiness of an optional string setting. */
  predicate Given(s: Option<string>) {
    s.Some? && s.value != []
  }

  /** The settings a client is created with. */
  datatype Config = Config(
    baseUrl: string,
    apiKey: Option<string>,
    authUrl: Option<string>,
    realm: Option<string>,
    tenantId: Option<string>,
    scope: Option<string>,
    clientId: Option<string>,
    clientSecret: Option<string>,
    username: Option<string>,
    password: Option<string>,
    useBearer: Option<bool>,
    addAuthToPath: bool)

  /** The cached tokens: `access_token`, `token_expiry`, `refresh_token`, `refresh_token_expiry`. */
  datatype Tokens = Tokens(access: Option<string>, expiry: Option<int>, refresh: Option<string>, refreshExpiry: Option<int>)

  /** Truthiness of an expiry time: set and not zero. */
  predicate Set(t: Option<int>) {
    t.Some? && t.value != 0
  }

  /** A POST to the token endpoint with a form body. */
  datatype TokenRequest = TokenRequest(url: string, form: map<string, string>)

  /**
   * The token endpoint's answer: `ok` is false for an error status or a
   * body that is not JSON; a None field is a key the JSON lacks.
   */
  datatype TokenResponse = TokenResponse(
    ok: bool,
    accessToken: Option<string>,
    expiresIn: Option<int>,
    refreshToken: Option<string>,
    refreshExpiresIn: Option<int>)

  type Headers = map<string, string>

  function Bearer(token: string): Headers {
    map["Authorization" := "Bearer " + token]
  }

  // ---------------------------------------------------------------------
  // The token request

  /** The cached access token may be used: it is set, has an expiry, and the expiry lies ahead. */
  predicate CacheValid(t: Tokens, now: int) {
    Given(t.access) && Set(t.expiry) && now < t.expiry.value
  }

  /** The access token has expired and a refresh token that has not is at hand. */
  predicate CanRefresh(t: Tokens, now: int) {
    Given(t.access) && Set(t.expiry) && !(now < t.expiry.value)
    && Given(t.refresh) && Set(t.refreshExpiry) && now < t.refreshExpiry.value
  }

  /** The token endpoint: Keycloak's for a realm, Microsoft's for a tenant. */
  function TokenUrl(cfg: Config): string
    requires Given(cfg.realm) || Given(cfg.tenantId)
  {
    var base := if Given(cfg.authUrl) then cfg.authUrl.value else cfg.baseUrl;
    if Given(cfg.realm) then
      base + (if cfg.addAuthToPath then "/auth" else "") + "/realms/" + cfg.realm.value + "/protocol/openid-connect/token"
    else base + "/" + cfg.tenantId.value + "/oauth2/v2.0/token"
  }

  /** The form holds `value` under `key`. */
  predicate Has(form: map<string, string>, key: string, value: string) {
    key in form && form[key] == value
  }

  /** The form fields every token request carries: the client credentials and, for a tenant, the scope. */
  function BaseForm(cfg: Config): map<string, string>
    requires Given(cfg.clientId) && Given(cfg.clientSecret)
  {
    var form := map["client_id" := cfg.clientId.value, "client_secret" := cfg.clientSecret.value];
    if Given(cfg.tenantId) && Given(cfg.scope) then form["scope" := cfg.scope.value] else form
  }

  /**
   * The form as written: the refresh grant is entered first and then
   * overwritten, by the password grant when user name and password are
   * set and by the client-credentials grant otherwise.
   */
  function TokenFormAsWritten(cfg: Config, refresh: Option<string>): (form: map<string, string>)
    requires Given(cfg.clientId) && Given(cfg.clientSecret)
    ensures Has(form, "client_id", cfg.clientId.value) && Has(form, "client_secret", cfg.clientSecret.value)
    ensures Given(cfg.username) && Given(cfg.password) ==>
      Has(form, "grant_type", "password") && Has(form, "username", cfg.username.value) && Has(form, "password", cfg.password.value)
    ensures !(Given(cfg.username) && Given(cfg.password)) ==> Has(form, "grant_type", "client_credentials")
    ensures refresh.Some? ==> Has(form, "refresh_token", refresh.value)
    ensures refresh.None? ==> "refresh_token" !in form
  {
    var form := BaseForm(cfg);
    var form1 := if refresh.Some? then form["grant_type" := "refresh_token"]["refresh_token" := refresh.value] else form;
    if Given(cfg.username) && Given(cfg.password) then
      form1["grant_type" := "password"]["username" := cfg.username.value]["password" := cfg.password.value]
    else form1["grant_type" := "client_credentials"]
  }

  /** As written, no token request ever asks for the refresh grant. */
  lemma RefreshGrantNeverSent(cfg: Config, refresh: Option<string>)
    requires Given(cfg.clientId) && Given(cfg.clientSecret)
    ensures var form := TokenFormAsWritten(cfg, refresh);
      "grant_type" in form && form["grant_type"] != "refresh_token"
    ensures refresh.Some? ==> TokenFormAsWritten(cfg, refresh)["refresh_token"] == refresh.value
  {
  }

  /**
   * The form with one grant: refreshing when a refresh token is used
   * (RFC 6749 section 6), otherwise the password grant when user name and
   * password are set (section 4.3), otherwise client credentials (section 4.4).
   */
  function TokenForm(cfg: Config, refresh: Option<string>): (form: map<string, string>)
    requires Given(cfg.clientId) && Given(cfg.clientSecret)
    ensures Has(form, "client_id", cfg.clientId.value) && Has(form, "client_secret", cfg.clientSecret.value)
    ensures refresh.Some? ==> Has(form, "grant_type", "refresh_token") && Has(form, "refresh_token", refresh.value)
    ensures refresh.None? && Given(cfg.username) && Given(cfg.password) ==>
      Has(form, "grant_type", "password") && Has(form, "username", cfg.username.value) && Has(form, "password", cfg.password.value)
    ensures refresh.None? && !(Given(cfg.username) && Given(cfg.password)) ==> Has(form, "grant_type", "client_credentials")
  {
    var form := BaseForm(cfg);
    if refresh.Some? then form["grant_type" := "refresh_token"]["refresh_token" := refresh.value]
    else if Given(cfg.username) && Given(cfg.password) then
      form["grant_type" := "password"]["username" := cfg.username.value]["password" := cfg.password.value]
    else form["grant_type" := "client_credentials"]
  }

  /** Both forms agree whenever no refresh token is used. */
  lemma TokenFormAgreesWithoutRefresh(cfg: Config)
    requires Given(cfg.clientId) && Given(cfg.clientSecret)
    ensures TokenForm(cfg, None) == TokenFormAsWritten(cfg, None)
  {
  }

  /**
   * Taking in the token response: the fields are stored one by one, so a
   * response that lacks `expires_in` still replaces the access token, and
   * one with a refresh token but no `refresh_expires_in` still stores that
   * token. The flag says whether all went through.
   */
  function Receive(t: Tokens, now: int, resp: TokenResponse): (r: (Tokens, bool))
    // a failed request or a response without a token leaves the cache as it was
    ensures !resp.ok || resp.accessToken.None? ==> r == (t, false)
    // otherwise the access token is stored, whatever follows
    ensures resp.ok && resp.accessToken.Some? ==> r.0.access == resp.accessToken
    // all went through exactly when every field the code reads was present
    ensures r.1 <==> resp.ok && resp.accessToken.Some? && resp.expiresIn.Some?
                     && (resp.refreshToken.Some? ==> resp.refreshExpiresIn.Some?)
    ensures r.1 ==> r.0.expiry == Some(now + resp.expiresIn.value)
    ensures r.1 && resp.refreshToken.Some? ==>
      r.0.refresh == resp.refreshToken && r.0.refreshExpiry == Some(now + resp.refreshExpiresIn.value)
    ensures r.1 && resp.refreshToken.None? ==> r.0.refresh == t.refresh && r.0.refreshExpiry == t.refreshExpiry
  {
    if !resp.ok || resp.accessToken.None? then (t, false)
    else
      var t1 := t.(access := resp.accessToken);
      if resp.expiresIn.None? then (t1, false)
      else
        var t2 := t1.(expiry := Some(now + resp.expiresIn.value));
        if resp.refreshToken.None? then (t2, true)
        else
          var t3 := t2.(refresh := resp.refreshToken);
          if resp.refreshExpiresIn.None? then (t3, false)
          else (t3.(refreshExpiry := Some(now + resp.refreshExpiresIn.value)), true)
  }

  /**
   * The OAuth branch of `_authenticate`: the cached access token while it
   * is valid, otherwise a token request, refreshing when the cache allows.
   */
  function TokenAuthentication(cfg: Config, t: Tokens, now: int, endpoint: TokenRequest -> TokenResponse)
    : (r: (Headers, Tokens, Option<TokenRequest>))
    requires Given(cfg.clientId) && Given(cfg.clientSecret) && (Given(cfg.realm) || Given(cfg.tenantId))
    // a valid cached token is reused and nothing is requested
    ensures CacheValid(t, now) ==> r == (Bearer(t.access.value), t, None)
    // otherwise one request goes to the token URL, and its response decides the cache and the headers
    ensures !CacheValid(t, now) ==>
      && r.2.Some? && r.2.value.url == TokenUrl(cfg)
      && r.1 == Receive(t, now, endpoint(r.2.value)).0
      && (Receive(t, now, endpoint(r.2.value)).1 ==> r.0 == Bearer(r.1.access.value))
      && (!Receive(t, now, endpoint(r.2.value)).1 ==> r.0 == map[])
  {
    if CacheValid(t, now) then (Bearer(t.access.value), t, None)
    else
      var request := TokenRequest(TokenUrl(cfg), TokenFormAsWritten(cfg, if CanRefresh(t, now) then t.refresh else None));
      var (t', complete) := Receive(t, now, endpoint(request));
      (if complete then Bearer(t'.access.value) else map[], t', Some(request))
  }

  /**
   * `_authenticate` at time `now`: the headers, the tokens afterwards and
   * the token request sent, if any. Every failure yields no headers.
   */
  function Authentication(cfg: Config, t: Tokens, now: int, endpoint: TokenRequest -> TokenResponse, encode: string -> string)
    : (r: (Headers, Tokens, Option<TokenRequest>))
    // a key is sent as it is or as a bearer token, and nothing is requested
    ensures Given(cfg.apiKey) ==>
      r == (map["Authorization" := (if cfg.useBearer == Some(true) then "Bearer " else "") + cfg.apiKey.value], t, None)
    // a valid cached token is reused without a request
    ensures (!Given(cfg.apiKey) && Given(cfg.clientId) && Given(cfg.clientSecret) && (Given(cfg.realm) || Given(cfg.tenantId))
      && CacheValid(t, now)) ==> r == (Bearer(t.access.value), t, None)
    // client credentials without a realm or tenant give no headers and request nothing
    ensures !Given(cfg.apiKey) && Given(cfg.clientId) && Given(cfg.clientSecret) && !Given(cfg.realm) && !Given(cfg.tenantId)
      ==> r == (map[], t, None)
    // Basic credentials as RFC 7617 section 2 builds them, only without key and client credentials
    ensures !Given(cfg.apiKey) && !(Given(cfg.clientId) && Given(cfg.clientSecret)) ==>
      r.2.None? && r.1 == t
      && r.0 == if Given(cfg.username) && Given(cfg.password)
        then map["Authorization" := "Basic " + encode(cfg.username.value + ":" + cfg.password.value)]
        else map[]
    // a token request carries the client credentials and the password grant when user name and
    // password are set, the client-credentials grant otherwise: never the refresh grant, although
    // the refresh token rides along when the cache allows refreshing
    ensures r.2.Some? ==>
      var form := r.2.value.form;
      && Has(form, "client_id", cfg.clientId.value) && Has(form, "client_secret", cfg.clientSecret.value)
      && Has(form, "grant_type", if Given(cfg.username) && Given(cfg.password) then "password" else "client_credentials")
      && (CanRefresh(t, now) ==> Has(form, "refresh_token", t.refresh.value))
    // a new access token is bearer-sent and expires `expires_in` after the request was made
    ensures r.2.Some? && r.0 != map[] ==>
      var resp := endpoint(r.2.value);
      resp.accessToken.Some? && resp.expiresIn.Some?
      && r.0 == Bearer(resp.accessToken.value) && r.1.access == resp.accessToken
      && r.1.expiry == Some(now + resp.expiresIn.value)
  {
    if Given(cfg.apiKey) then
      (map["Authorization" := (if cfg.useBearer == Some(true) then "Bearer " else "") + cfg.apiKey.value], t, None)
    else if Given(cfg.clientId) && Given(cfg.clientSecret) then
      if !Given(cfg.realm) && !Given(cfg.tenantId) then (map[], t, None)
      else TokenAuthentication(cfg, t, now, endpoint)
    else if Given(cfg.username) && Given(cfg.password) then
      (map["Authorization" := "Basic " + encode(cfg.username.value + ":" + cfg.password.value)], t, None)
    else (map[], t, None)
  }

  /**
   * A token fetched at `now` that lives `expires_in > 0` seconds is reused
   * by every later call before it expires: no second request is sent.
   */
  lemma FetchedTokenReused(cfg: Config, t: Tokens, now: int, later: int,
                           endpoint: TokenRequest -> TokenResponse, other: TokenRequest -> TokenResponse, encode: string -> string)
    requires now >= 0
    requires Authentication(cfg, t, now, endpoint, encode).2.Some?
    requires Authentication(cfg, t, now, endpoint, encode).0 != map[]
    requires endpoint(Authentication(cfg, t, now, endpoint, encode).2.value).expiresIn.value > 0
    requires Given(endpoint(Authentication(cfg, t, now, endpoint, encode).2.value).accessToken)
    requires now <= later < now + endpoint(Authentication(cfg, t, now, endpoint, encode).2.value).expiresIn.value
    ensures var (h, t1, _) := Authentication(cfg, t, now, endpoint, encode);
      Authentication(cfg, t1, later, other, encode) == (h, t1, None)
  {
    var (h, t1, sent) := Authentication(cfg, t, now, endpoint, encode);
    assert !Given(cfg.apiKey) && Given(cfg.clientId) && Given(cfg.clientSecret) && (Given(cfg.realm) || Given(cfg.tenantId));
    assert CacheValid(t1, later);
  }

  // ---------------------------------------------------------------------
  // Preparing a request

  /** `s.rstrip(ch)` */
  function TrimRight(s: string, ch: char): (r: string)
    ensures |r| <= |s| && r == s[..|r|] && (r == [] || r[|r| - 1] != ch)
    ensures forall i | |r| <= i < |s| :: s[i] == ch
  {
    if s == [] || s[|s| - 1] != ch then s else TrimRight(s[..|s| - 1], ch)
  }

  /** `s.lstrip(ch)` */
  function TrimLeft(s: string, ch: char): (r: string)
    ensures |r| <= |s| && r == s[|s| - |r|..] && (r == [] || r[0] != ch)
    ensures forall i | 0 <= i < |s| - |r| :: s[i] == ch
  {
    if s == [] || s[0] != ch then s
    else
      var r := TrimLeft(s[1..], ch);
      assert s[1..][|s| - 1 - |r|..] == s[|s| - |r|..];
      assert forall i | 1 <= i < |s| - |r| :: s[i] == s[1..][i - 1];
      r
  }

  /** `base_url.rstrip('/') + '/' + path.lstrip('/')` */
  function JoinUrl(base: string, path: string): (r: string)
    // the base without its trailing slashes, one slash, the path without its leading slashes
    ensures var k := |TrimRight(base, '/')|;
      && k < |r| && r[..k] == TrimRight(base, '/') && r[k] == '/' && r[k + 1..] == TrimLeft(path, '/')
      && (k == 0 || r[k - 1] != '/') && (k + 1 == |r| || r[k + 1] != '/')
  {
    TrimRight(base, '/') + "/" + TrimLeft(path, '/')
  }

  lemma {:induction false} TrimRightAppend(s: string)
    ensures TrimRight(s + "/", '/') == TrimRight(s, '/')
  {
    assert (s + "/")[..|s|] == s;
  }

  lemma {:induction false} TrimLeftPrepend(s: string)
    ensures TrimLeft("/" + s, '/') == TrimLeft(s, '/')
  {
    assert ("/" + s)[1..] == s;
  }

  /** Slashes at the join do not matter: the two parts are always joined by exactly one. */
  lemma JoinUrlSlashes(base: string, path: string)
    ensures JoinUrl(base + "/", path) == JoinUrl(base, path)
    ensures JoinUrl(base, "/" + path) == JoinUrl(base, path)
    ensures var r := JoinUrl(base, path); var k := |TrimRight(base, '/')|;
      r[k] == '/' && (k == 0 || r[k - 1] != '/') && (k + 1 == |r| || r[k + 1] != '/')
  {
    TrimRightAppend(base);
    TrimLeftPrepend(path);
  }

  /** The `path` keyword: absent, None, a string, or something else. */
  datatype PathArg = NoPath | NonePath | PathString(path: string) | PathOther

  /** The `headers` keyword: absent, a dictionary, or something else. */
  datatype HeadersArg = NoHeaders | HeadersDict(headers: Headers) | HeadersOther

  /** The keywords of a `make_request` call that decide the request. */
  datatype RequestArgs = RequestArgs(
    path: PathArg,
    headers: HeadersArg,
    verb: Option<string>,
    hasJson: bool,
    hasData: bool,
    hasFiles: bool)

  /** `ValueError` for a path or headers of the wrong type; `AttributeError` for `path=None`. */
  datatype RequestError = PathMustBeString | HeadersMustBeDict | PathIsNone

  /** The request about to be sent. */
  datatype Prepared = Prepared(url: string, verb: string, headers: Headers)

  /** GET without any body or method, the named method, or POST for a body. */
  function MethodFor(args: RequestArgs): (m: string)
    ensures args.verb.None? && !args.hasJson && !args.hasData && !args.hasFiles ==> m == "get"
    ensures args.verb.Some? ==> m == Lower(args.verb.value)
    ensures args.verb.None? && (args.hasJson || args.hasData || args.hasFiles) ==> m == "post"
  {
    if args.verb.None? && !args.hasJson && !args.hasData && !args.hasFiles then "get"
    else if args.verb.Some? then Lower(args.verb.value)
    else "post"
  }

  /** The caller's headers with the Authorization headers on top, and the JSON content type for a JSON body. */
  function MergeHeaders(caller: Headers, auth: Headers, json: bool): (h: Headers)
    ensures forall k | k in auth && !(json && k == "Content-Type") :: k in h && h[k] == auth[k]
    ensures forall k | k in caller && k !in auth && !(json && k == "Content-Type") :: k in h && h[k] == caller[k]
    ensures json ==> "Content-Type" in h && h["Content-Type"] == "application/json"
    ensures h.Keys == caller.Keys + auth.Keys + (if json then {"Content-Type"} else {})
  {
    var merged := caller + auth;
    if json then merged["Content-Type" := "application/json"] else merged
  }

  /** A client: its settings, fixed at creation, and the token cache it updates. */
  class ApiClient {
    const cfg: Config
    var accessToken: Option<string>
    var tokenExpiry: Option<int>
    var refreshToken: Option<string>
    var refreshTokenExpiry: Option<int>

    function Cache(): Tokens
      reads this
    {
      Tokens(accessToken, tokenExpiry, refreshToken, refreshTokenExpiry)
    }

    constructor(config: Config)
      ensures cfg == config && Cache() == Tokens(None, None, None, None)
    {
      cfg := config;
      accessToken, tokenExpiry, refreshToken, refreshTokenExpiry := None, None, None, None;
    }

    /** The OAuth branch: reuse the cached token or request a new one. */
    method TokenHeaders(now: int, endpoint: TokenRequest -> TokenResponse) returns (headers: Headers, sent: Option<TokenRequest>)
      requires Given(cfg.clientId) && Given(cfg.clientSecret) && (Given(cfg.realm) || Given(cfg.tenantId))
      modifies this
      ensures (headers, Cache(), sent) == TokenAuthentication(cfg, old(Cache()), now, endpoint)
    {
      var refresh := false;
      if Given(accessToken) && Set(tokenExpiry) {
        if now < tokenExpiry.value {
          return Bearer(accessToken.value), None;
        } else if Given(refreshToken) && Set(refreshTokenExpiry) && now < refreshTokenExpiry.value {
          refresh := true;
        }
      }
      var request := TokenRequest(TokenUrl(cfg), TokenFormAsWritten(cfg, if refresh then refreshToken else None));
      sent := Some(request);
      var complete := Store(now, endpoint(request));
      headers := if complete then Bearer(accessToken.value) else map[];
    }

    /** Storing the fields of a token response one after the other, stopping at the first missing one. */
    method Store(now: int, resp: TokenResponse) returns (complete: bool)
      modifies this
      ensures (Cache(), complete) == Receive(old(Cache()), now, resp)
    {
      if !resp.ok || resp.accessToken.None? {
        return false;
      }
      accessToken := resp.accessToken;
      if resp.expiresIn.None? {
        return false;
      }
      tokenExpiry := Some(now + resp.expiresIn.value);
      if resp.refreshToken.Some? {
        refreshToken := resp.refreshToken;
        if resp.refreshExpiresIn.None? {
          return false;
        }
        refreshTokenExpiry := Some(now + resp.refreshExpiresIn.value);
      }
      return true;
    }

    /** `_authenticate`, storing what the token endpoint returns. */
    method Authenticate(now: int, endpoint: TokenRequest -> TokenResponse, encode: string -> string)
      returns (headers: Headers, sent: Option<TokenRequest>)
      modifies this
      ensures (headers, Cache(), sent) == Authentication(cfg, old(Cache()), now, endpoint, encode)
    {
      if Given(cfg.apiKey) {
        headers := map["Authorization" := (if cfg.useBearer == Some(true) then "Bearer " else "") + cfg.apiKey.value];
        return headers, None;
      }
      if Given(cfg.clientId) && Given(cfg.clientSecret) {
        if !Given(cfg.realm) && !Given(cfg.tenantId) {
          return map[], None;
        }
        headers, sent := TokenHeaders(now, endpoint);
        return;
      }
      if Given(cfg.username) && Given(cfg.password) {
        return map["Authorization" := "Basic " + encode(cfg.username.value + ":" + cfg.password.value)], None;
      }
      return map[], None;
    }

    /**
     * `make_request` up to sending: the path and the headers are checked
     * (the headers before any authentication), the URL joined, the
     * Authorization header added and the method chosen.
     */
    method MakeRequest(args: RequestArgs, now: int, endpoint: TokenRequest -> TokenResponse, encode: string -> string)
      returns (r: Result<Prepared, RequestError>)
      modifies this
      ensures args.path.PathOther? ==> r == Failure(PathMustBeString) && Cache() == old(Cache())
      ensures args.path.NonePath? ==> r == Failure(PathIsNone) && Cache() == old(Cache())
      ensures (args.path.NoPath? || args.path.PathString?) && args.headers.HeadersOther? ==>
        r == Failure(HeadersMustBeDict) && Cache() == old(Cache())
      ensures (args.path.NoPath? || args.path.PathString?) && !args.headers.HeadersOther? ==>
        var (auth, tokens, _) := Authentication(cfg, old(Cache()), now, endpoint, encode);
        && Cache() == tokens
        && r.Success?
        && r.value.url == (if args.path.PathString? then JoinUrl(cfg.baseUrl, args.path.path) else cfg.baseUrl)
        && r.value.verb == MethodFor(args)
        && r.value.headers == MergeHeaders(if args.headers.HeadersDict? then args.headers.headers else map[], auth, args.hasJson)
    {
      if args.path.PathOther? {
        return Failure(PathMustBeString);
      }
      if args.path.NonePath? {
        return Failure(PathIsNone);
      }
      var url := if args.path.PathString? then JoinUrl(cfg.baseUrl, args.path.path) else cfg.baseUrl;
      if args.headers.HeadersOther? {
        return Failure(HeadersMustBeDict);
      }
      var auth, _ := Authenticate(now, endpoint, encode);
      var caller := if args.headers.HeadersDict? then args.headers.headers else map[];
      r := Success(Prepared(url, MethodFor(args), MergeHeaders(caller, auth, args.hasJson)));
    }
  }
}

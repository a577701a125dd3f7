/** JSON Web Tokens (`app/core/security.py`, second half): creation of
    access and refresh tokens, verification with the revocation check, and
    revocation.

    A token is modelled by what it carries: the signed claims and the key
    that signed them. `Signed` is an injective, uninterpreted signer and a
    signature verifies exactly when it was made with the server's secret.
    `Garbage` stands for any string that is not a well-formed token.
    Claims are a JSON object: a map from claim name to a JSON value; Python's
    `payload.get(k)` is `None` both for a missing claim and for `null`. */
module Tokens {
  import opened Wrappers
  import opened Text
  import opened Config
  import RedisStore

  datatype Value = Null | Str(s: string) | Int(i: int) | Bool(b: bool)

  type Payload = map<string, Value>

  datatype Token = Signed(payload: Payload, key: string) | Garbage(text: string)

  const AccessType: Value := Str("access")
  const RefreshType: Value := Str("refresh")

  /** `payload.get(k)` */
  function Get(p: Payload, k: string): Value {
    if k in p then p[k] else Null
  }

  /** Python truthiness of a JSON value. */
  predicate Truthy(v: Value) {
    match v
    case Null => false
    case Str(s) => s != ""
    case Int(i) => i != 0
    case Bool(b) => b
  }

  /** Python `str(v)`, as used by the f-string that builds a revocation key. */
  function Render(v: Value): string {
    match v
    case Null => "None"
    case Str(s) => s
    case Int(i) => IntToString(i)
    case Bool(b) => if b then "True" else "False"
  }

  /** The `exp` check made by `jwt.decode`: a token without `exp` never
      expires; one with an integer `exp` is accepted strictly before it;
      any other `exp` is a claims error. */
  predicate Unexpired(p: Payload, now: int) {
    "exp" !in p || (p["exp"].Int? && now < p["exp"].i)
  }

  /** The claim checks `jwt.decode` always makes: a `sub` or a `jti` that
      is present must be a string (a `null` is not), or the claims are
      refused. */
  predicate ClaimsTyped(p: Payload) {
    && ("sub" in p ==> p["sub"].Str?)
    && ("jti" in p ==> p["jti"].Str?)
  }

  /** `jwt.decode(token, SECRET_KEY, ...)`, optionally skipping the expiry check. */
  function JwtDecode(t: Token, secret: string, now: int, verifyExp: bool): (r: Option<Payload>)
    ensures r.Some? <==>
              t.Signed? && t.key == secret && ClaimsTyped(t.payload) && (verifyExp ==> Unexpired(t.payload, now))
    ensures r.Some? ==> r.value == t.payload
  {
    match t
    case Garbage(_) => None
    case Signed(p, key) =>
      if key != secret then None
      else if verifyExp && !Unexpired(p, now) then None
      else if !ClaimsTyped(p) then None
      else Some(p)
  }

  /** Python truthiness of an optional `timedelta`, in seconds. */
  predicate GivenDelta(delta: Option<int>) {
    delta.Some? && delta.value != 0
  }

  /** Absolute expiry of a new access token. */
  function AccessExpiry(s: Settings, delta: Option<int>, now: int): (exp: int)
    ensures GivenDelta(delta) ==> exp == now + delta.value
    ensures !GivenDelta(delta) ==> exp == now + s.accessTokenExpiresMinutes * 60
  {
    if GivenDelta(delta) then now + delta.value else now + s.accessTokenExpiresMinutes * 60
  }

  /** Absolute expiry of a new refresh token: an explicit lifetime wins,
      then the remember-me tier, then the default tier. */
  function RefreshExpiry(s: Settings, delta: Option<int>, rememberMe: Value, now: int): (exp: int)
    ensures GivenDelta(delta) ==> exp == now + delta.value
    ensures !GivenDelta(delta) && Truthy(rememberMe) ==> exp == now + s.rememberMeRefreshTokenExpiresMinutes * 60
    ensures !GivenDelta(delta) && !Truthy(rememberMe) ==> exp == now + s.refreshTokenExpiresMinutes * 60
  {
    if GivenDelta(delta) then now + delta.value
    else if Truthy(rememberMe) then now + s.rememberMeRefreshTokenExpiresMinutes * 60
    else now + s.refreshTokenExpiresMinutes * 60
  }

  /** The caller's claims, with the reserved claims `extra` set on top. */
  ghost predicate Extends(p: Payload, data: Payload, extra: Payload) {
    && p.Keys == data.Keys + extra.Keys
    && (forall k :: k in extra ==> p[k] == extra[k])
    && (forall k :: k in data && k !in extra ==> p[k] == data[k])
  }

  /** `create_access_token(data, expires_delta)`; `jti` is the fresh
      identifier `str(uuid.uuid4())`, `now` the current time. */
  function CreateAccessToken(s: Settings, data: Payload, delta: Option<int>, jti: string, now: int): (t: Token)
    ensures t.Signed? && t.key == s.secretKey
    ensures Extends(t.payload, data,
                    map["jti" := Str(jti), "type" := AccessType, "exp" := Int(AccessExpiry(s, delta, now))])
  {
    Signed(data["jti" := Str(jti)]["type" := AccessType]["exp" := Int(AccessExpiry(s, delta, now))],
           s.secretKey)
  }

  /** `create_refresh_token(data, expires_delta, remember_me)`; the flag is
      recorded verbatim in the claims. */
  function CreateRefreshToken(s: Settings, data: Payload, delta: Option<int>, rememberMe: Value,
                              jti: string, now: int): (t: Token)
    ensures t.Signed? && t.key == s.secretKey
    ensures Extends(t.payload, data,
                    map["jti" := Str(jti), "type" := RefreshType, "remember_me" := rememberMe,
                        "exp" := Int(RefreshExpiry(s, delta, rememberMe, now))])
  {
    Signed(data["jti" := Str(jti)]["type" := RefreshType]["remember_me" := rememberMe]
               ["exp" := Int(RefreshExpiry(s, delta, rememberMe, now))],
           s.secretKey)
  }

  /** `decode_token(token)`: signature and expiry via `jwt.decode`, then
      the revocation check for a truthy `jti`. The token's type is not
      examined here. */
  function DecodeToken(s: Settings, store: RedisStore.Store, t: Token, now: int): (r: Option<Payload>)
    ensures r.Some? <==>
              && t.Signed? && t.key == s.secretKey && ClaimsTyped(t.payload) && Unexpired(t.payload, now)
              && !(Truthy(Get(t.payload, "jti"))
                   && RedisStore.IsTokenRevoked(store, Render(Get(t.payload, "jti")), now))
    ensures r.Some? ==> r.value == t.payload
  {
    match JwtDecode(t, s.secretKey, now, true)
    case None => None
    case Some(p) =>
      var jti := Get(p, "jti");
      if Truthy(jti) && RedisStore.IsTokenRevoked(store, Render(jti), now) then None else Some(p)
  }

  /** `revoke_token(token)`: decodes without the expiry check and, when the
      claims carry a truthy `jti` and `exp` with time left, stores a
      revocation entry living exactly until `exp`. */
  function RevokeToken(s: Settings, store: RedisStore.Store, t: Token, now: int): (r: RedisStore.Reply<bool>)
    ensures r.result <==>
              && t.Signed? && t.key == s.secretKey && ClaimsTyped(t.payload)
              && Truthy(Get(t.payload, "jti")) && Truthy(Get(t.payload, "exp")) && Get(t.payload, "exp").Int?
              && Get(t.payload, "exp").i > now && store.available
    ensures !r.result ==> r.store == store
    ensures r.result ==>
              var key := RedisStore.RevocationKey(Render(Get(t.payload, "jti")));
              && r.store.entries == store.entries[key := RedisStore.Entry("1", Get(t.payload, "exp").i)]
              && r.store.available
  {
    match JwtDecode(t, s.secretKey, now, false)
    case None => RedisStore.Reply(false, store)
    case Some(p) =>
      var jti := Get(p, "jti");
      var exp := Get(p, "exp");
      if Truthy(jti) && Truthy(exp) && exp.Int? then
        var seconds := exp.i - now;
        if seconds > 0 then RedisStore.RevokeToken(store, Render(jti), seconds, now)
        else RedisStore.Reply(false, store)
      else RedisStore.Reply(false, store)
  }

  /** A freshly minted access token decodes to its own claims exactly while
      it is unexpired and its identifier is not revoked, provided the
      caller's `sub`, if any, is a string. */
  lemma DecodeFreshAccessToken(s: Settings, store: RedisStore.Store, data: Payload, delta: Option<int>,
                               jti: string, issued: int, now: int)
    requires jti != ""
    ensures var t := CreateAccessToken(s, data, delta, jti, issued);
            DecodeToken(s, store, t, now) == (
              if ("sub" !in data || data["sub"].Str?)
                 && now < AccessExpiry(s, delta, issued) && !RedisStore.IsTokenRevoked(store, jti, now)
              then Some(t.payload) else None)
  {
    var t := CreateAccessToken(s, data, delta, jti, issued);
    assert Get(t.payload, "jti") == Str(jti);
  }

  /** Refresh tokens carry their remember-me flag, and the remember-me tier
      outlasts the default tier whenever the settings order them so. */
  lemma RefreshTierPrecedence(s: Settings, data: Payload, jti: string, now: int)
    requires s.refreshTokenExpiresMinutes < s.rememberMeRefreshTokenExpiresMinutes
    ensures var long := CreateRefreshToken(s, data, None, Bool(true), jti, now);
            var short := CreateRefreshToken(s, data, None, Bool(false), jti, now);
            && long.payload["remember_me"] == Bool(true)
            && short.payload["remember_me"] == Bool(false)
            && short.payload["exp"].i < long.payload["exp"].i
  {
  }

  /** With the loaded settings, an access token expires before a default
      refresh token, which expires before a remember-me one. The access
      cookie is dropped by the browser before its token expires, and the
      refresh cookie outlives its default-tier token. */
  lemma LoadedLifetimesOrdered(secretKey: string, dbUser: string, dbPassword: string, dbHost: string,
                               dbPort: int, dbName: string, now: int)
    requires LoadSettings(secretKey, dbUser, dbPassword, dbHost, dbPort, dbName).Ok?
    ensures var s := LoadSettings(secretKey, dbUser, dbPassword, dbHost, dbPort, dbName).value;
            && AccessExpiry(s, None, now) < RefreshExpiry(s, None, Bool(false), now)
            && RefreshExpiry(s, None, Bool(false), now) < RefreshExpiry(s, None, Bool(true), now)
            && now + s.accessCookieMaxAge < AccessExpiry(s, None, now)
            && RefreshExpiry(s, None, Bool(false), now) < now + s.refreshCookieMaxAge
  {
  }

  /** Once a token has been revoked, it never decodes again: before its
      `exp` the revocation entry is live, after it the token has expired. */
  lemma RevokedTokenNeverDecodes(s: Settings, store: RedisStore.Store, t: Token, now: int, later: int)
    requires RevokeToken(s, store, t, now).result
    requires now <= later
    ensures DecodeToken(s, RevokeToken(s, store, t, now).store, t, later).None?
  {
  }

  /** The revocation entry never outlives the token: it expires exactly at
      the token's own `exp`. */
  lemma RevocationEntryEndsAtExp(s: Settings, store: RedisStore.Store, t: Token, now: int, later: int)
    requires RevokeToken(s, store, t, now).result
    ensures var store' := RevokeToken(s, store, t, now).store;
            var jti := Render(Get(t.payload, "jti"));
            RedisStore.IsTokenRevoked(store', jti, later) <==> later < t.payload["exp"].i
  {
  }

  /** With the store down, no token carrying a truthy `jti` decodes. */
  lemma DecodeFailsClosed(s: Settings, store: RedisStore.Store, t: Token, now: int)
    requires !store.available
    requires t.Signed? && Truthy(Get(t.payload, "jti"))
    ensures DecodeToken(s, store, t, now).None?
  {
  }
}

/** The authentication routes (`app/routers/auth.py`): login, token refresh
    and logout, with the cookies they set. The fresh token identifiers
    (`str(uuid.uuid4())`) are parameters: `jtiA` for the access token and
    `jtiR` for the refresh token. */
module AuthRouter {
  import opened Wrappers
  import opened Tokens
  import opened Http
  import opened Schema
  import opened Dependencies
  import opened Config
  import Passwords
  import UserCrud
  import RedisStore

  /** The `LoginRequest` body. */
  datatype LoginRequest = LoginRequest(usernameOrEmail: string, password: string, rememberMe: bool)

  /** The length bounds the `LoginRequest` schema puts on the password. */
  predicate ValidLogin(c: LoginRequest) {
    6 <= |c.password| <= 60
  }

  datatype Cookie = Cookie(name: string, token: Token, maxAge: int)

  /** The cookies a successful login or refresh sets, and the `user_id`
      and `email` of its JSON body. */
  datatype AuthResponse = AuthResponse(access: Cookie, refresh: Cookie, userId: Value, email: Value)

  const IncorrectCredentials: HttpError := HttpError(Unauthorized, "Incorrect email/username or password")
  const UserDisabled: HttpError := HttpError(Forbidden, "User is disabled")
  const MissingRefreshToken: HttpError := HttpError(Unauthorized, "Missing refresh token - not authenticated")
  const InvalidRefreshToken: HttpError := HttpError(Unauthorized, "Invalid or expired refresh token")

  /** `_set_auth_cookies`: the access cookie always lives
      `ACCESS_COOKIE_MAX_AGE`; the refresh cookie the given age, or
      `REFRESH_COOKIE_MAX_AGE` when none is given. */
  function SetAuthCookies(s: Settings, access: Token, refresh: Token, refreshMaxAge: Option<int>): (r: (Cookie, Cookie))
    ensures r.0 == Cookie("access_token", access, s.accessCookieMaxAge)
    ensures r.1.name == "refresh_token" && r.1.token == refresh
    ensures r.1.maxAge == refreshMaxAge.GetOr(s.refreshCookieMaxAge)
  {
    (Cookie("access_token", access, s.accessCookieMaxAge),
     Cookie("refresh_token", refresh, if refreshMaxAge.None? then s.refreshCookieMaxAge else refreshMaxAge.value))
  }

  /** The refresh-cookie age chosen by login and refresh: the remember-me
      tier in seconds when the flag is truthy, otherwise left to the default. */
  function RefreshCookieAge(s: Settings, rememberMe: Value): (r: Option<int>)
    ensures r.Some? <==> Truthy(rememberMe)
  {
    if Truthy(rememberMe) then Some(s.rememberMeRefreshTokenExpiresMinutes * 60) else None
  }

  /** The user a login names: the one with that email, and only when there
      is none, the one with that username. */
  function LoginUser(db: Db, name: string): (r: Option<User>)
    ensures r.None? <==> forall i :: 0 <= i < |db.users| ==> db.users[i].email != name && db.users[i].username != name
    ensures r.Some? ==> r.value in db.users
    ensures r.Some? && r.value.email != name ==>
              r.value.username == name && forall i :: 0 <= i < |db.users| ==> db.users[i].email != name
    ensures (exists i :: 0 <= i < |db.users| && db.users[i].email == name) ==> r.Some? && r.value.email == name
  {
    match UserCrud.GetUserByEmail(db, name)
    case Some(u) => Some(u)
    case None => UserCrud.GetUserByUsername(db, name)
  }

  /** The claims both tokens of a session carry. */
  function SessionClaims(email: Value, userId: Value): Payload {
    map["sub" := email, "user_id" := userId]
  }

  /** `login`: an unknown user and a wrong password give the same 401; a
      disabled account is reported, with 403, only after the password has
      verified; otherwise both tokens are minted for the user's email and id. */
  function Login(s: Settings, db: Db, c: LoginRequest, jtiA: string, jtiR: string, now: int): (r: Result<AuthResponse, HttpError>)
    requires ValidLogin(c)
    ensures var u := LoginUser(db, c.usernameOrEmail);
            && (u.None? ==> r == Err(IncorrectCredentials))
            && (u.Some? && !Passwords.VerifyPassword(c.password, u.value.hashedPassword) ==> r == Err(IncorrectCredentials))
            && (u.Some? && Passwords.VerifyPassword(c.password, u.value.hashedPassword) && u.value.disabled ==>
                  r == Err(UserDisabled))
            && (r.Ok? <==> u.Some? && Passwords.VerifyPassword(c.password, u.value.hashedPassword) && !u.value.disabled)
    ensures r.Ok? ==>
              var u := LoginUser(db, c.usernameOrEmail).value;
              var claims := SessionClaims(Str(u.email), Int(u.id));
              && r.value.access == Cookie("access_token", CreateAccessToken(s, claims, None, jtiA, now), s.accessCookieMaxAge)
              && r.value.refresh.token == CreateRefreshToken(s, claims, None, Bool(c.rememberMe), jtiR, now)
              && r.value.refresh.maxAge ==
                   (if c.rememberMe then s.rememberMeRefreshTokenExpiresMinutes * 60 else s.refreshCookieMaxAge)
              && r.value.userId == Int(u.id) && r.value.email == Str(u.email)
  {
    match LoginUser(db, c.usernameOrEmail)
    case None => Err(IncorrectCredentials)
    case Some(u) =>
      if !Passwords.VerifyPassword(c.password, u.hashedPassword) then Err(IncorrectCredentials)
      else if u.disabled then Err(UserDisabled)
      else
        var claims := SessionClaims(Str(u.email), Int(u.id));
        var access := CreateAccessToken(s, claims, None, jtiA, now);
        var refresh := CreateRefreshToken(s, claims, None, Bool(c.rememberMe), jtiR, now);
        var cookies := SetAuthCookies(s, access, refresh, RefreshCookieAge(s, Bool(c.rememberMe)));
        Ok(AuthResponse(cookies.0, cookies.1, Int(u.id), Str(u.email)))
  }

  /** `payload.get("remember_me", False)`: a missing claim reads as `False`,
      an explicit `null` as `None`. */
  function RememberMeClaim(p: Payload): (v: Value)
    ensures "remember_me" !in p ==> v == Bool(false)
    ensures "remember_me" in p ==> v == p["remember_me"]
  {
    if "remember_me" in p then p["remember_me"] else Bool(false)
  }

  /** `refresh_token`: the refresh cookie must be present, decode, be a
      refresh token and carry `sub` and `user_id`; then both tokens are
      minted again with the same claims and remember-me flag. The old
      refresh token is not revoked and the account is not looked up. */
  function Refresh(req: Request, jtiA: string, jtiR: string): (r: Result<AuthResponse, HttpError>)
    ensures !Present(req.refreshCookie) ==> r == Err(MissingRefreshToken)
    ensures Present(req.refreshCookie) ==>
              var d := DecodeToken(req.settings, req.store, req.refreshCookie.value, req.now);
              && (d.None? || Get(d.value, "type") != RefreshType ==> r == Err(InvalidRefreshToken))
              && (d.Some? && Get(d.value, "type") == RefreshType ==>
                    (r.Ok? <==> Get(d.value, "sub") != Null && Get(d.value, "user_id") != Null))
    ensures r.Err? ==> r.error.status == Unauthorized
    ensures r.Ok? ==>
              var p := req.refreshCookie.value.payload;
              var claims := SessionClaims(Get(p, "sub"), Get(p, "user_id"));
              && Present(req.refreshCookie)
              && DecodeToken(req.settings, req.store, req.refreshCookie.value, req.now) == Some(p)
              && r.value.access == Cookie("access_token", CreateAccessToken(req.settings, claims, None, jtiA, req.now),
                                          req.settings.accessCookieMaxAge)
              && r.value.refresh.token == CreateRefreshToken(req.settings, claims, None, RememberMeClaim(p), jtiR, req.now)
              && r.value.refresh.maxAge ==
                   (if Truthy(RememberMeClaim(p)) then req.settings.rememberMeRefreshTokenExpiresMinutes * 60
                    else req.settings.refreshCookieMaxAge)
              && r.value.userId == Get(p, "user_id") && r.value.email == Get(p, "sub")
  {
    if !Present(req.refreshCookie) then Err(MissingRefreshToken)
    else match DecodeToken(req.settings, req.store, req.refreshCookie.value, req.now)
      case None => Err(InvalidRefreshToken)
      case Some(p) =>
        if Get(p, "type") != RefreshType then Err(InvalidRefreshToken)
        else
          var email := Get(p, "sub");
          var userId := Get(p, "user_id");
          var rememberMe := RememberMeClaim(p);
          if email == Null || userId == Null then Err(InvalidPayload)
          else
            var claims := SessionClaims(email, userId);
            var access := CreateAccessToken(req.settings, claims, None, jtiA, req.now);
            var refresh := CreateRefreshToken(req.settings, claims, None, rememberMe, jtiR, req.now);
            var cookies := SetAuthCookies(req.settings, access, refresh, RefreshCookieAge(req.settings, rememberMe));
            Ok(AuthResponse(cookies.0, cookies.1, userId, email))
  }

  /** `logout`: authentication runs first; then the access token is revoked
      if present, whatever the outcome, and both cookies are cleared. The
      reply carries the names of the cleared cookies and the store afterwards. */
  function Logout(req: Request): (r: Result<RedisStore.Reply<seq<string>>, HttpError>)
    ensures r.Err? <==> GetCurrentUser(req).Err?
    ensures r.Err? ==> r.error == GetCurrentUser(req).error
    ensures r.Ok? ==>
              && r.value.result == ["access_token", "refresh_token"]
              && r.value.store == Tokens.RevokeToken(req.settings, req.store, req.accessCookie.value, req.now).store
  {
    var _ :- GetCurrentUser(req);
    var store := if Present(req.accessCookie)
                 then Tokens.RevokeToken(req.settings, req.store, req.accessCookie.value, req.now).store
                 else req.store;
    Ok(RedisStore.Reply(["access_token", "refresh_token"], store))
  }

  /** After a successful login the access token authenticates as the
      user's id and email until it expires, as long as it is not revoked. */
  lemma LoginThenAuthenticate(s: Settings, db: Db, c: LoginRequest, jtiA: string, jtiR: string, issued: int,
                              req: Request)
    requires ValidLogin(c) && jtiA != ""
    requires Login(s, db, c, jtiA, jtiR, issued).Ok?
    requires req.settings == s
    requires req.accessCookie == Some(Login(s, db, c, jtiA, jtiR, issued).value.access.token)
    requires req.now < issued + s.accessTokenExpiresMinutes * 60
    requires !RedisStore.IsTokenRevoked(req.store, jtiA, req.now)
    ensures var u := LoginUser(db, c.usernameOrEmail).value;
            GetCurrentUser(req) == Ok(TokenData(u.id, u.email))
  {
    var u := LoginUser(db, c.usernameOrEmail).value;
    FreshAccessTokenAuthenticates(req, u.id, u.email, None, jtiA, issued);
  }

  /** Logging out ends the session: once the access token has been
      revoked, it is refused at every later instant, for as long as the
      store keeps the revocation entry. */
  lemma LogoutEndsSession(req: Request, later: Request)
    requires GetCurrentUser(req).Ok?
    requires req.now >= 0
    requires "exp" in req.accessCookie.value.payload
    requires Truthy(Get(req.accessCookie.value.payload, "jti"))
    requires later.settings == req.settings && later.accessCookie == req.accessCookie
    requires later.store == Logout(req).value.store && req.now <= later.now
    ensures GetCurrentUser(later).Err? && GetCurrentUser(later).error.status == Unauthorized
  {
    var t := req.accessCookie.value;
    assert req.store.available;
    assert Tokens.RevokeToken(req.settings, req.store, t, req.now).result;
    RevokedTokenNeverDecodes(req.settings, req.store, t, req.now, later.now);
  }

  /** A refresh token minted for a session refreshes it while unexpired
      and unrevoked, keeping the session's claims and remember-me flag;
      an email that is not a string makes the token undecodable. */
  lemma MintedRefreshTokenRefreshes(req: Request, email: Value, userId: Value, rememberMe: Value, jti: string,
                                    issued: int, jtiA: string, jtiR: string)
    requires jti != "" && email != Null && userId != Null
    requires req.refreshCookie ==
             Some(CreateRefreshToken(req.settings, SessionClaims(email, userId), None, rememberMe, jti, issued))
    requires req.now < RefreshExpiry(req.settings, None, rememberMe, issued)
    requires !RedisStore.IsTokenRevoked(req.store, jti, req.now)
    ensures Refresh(req, jtiA, jtiR).Ok? <==> email.Str?
    ensures var r := Refresh(req, jtiA, jtiR);
            email.Str? ==>
            && r.Ok?
            && r.value.refresh.token.payload["remember_me"] == rememberMe
            && r.value.refresh.maxAge == SetAuthCookies(req.settings, r.value.access.token, r.value.refresh.token,
                                                        RefreshCookieAge(req.settings, rememberMe)).1.maxAge
            && r.value.userId == userId && r.value.email == email
  {
    var p := req.refreshCookie.value.payload;
    assert Get(p, "jti") == Str(jti);
    assert Get(p, "type") == RefreshType;
    assert Get(p, "sub") == email && Get(p, "user_id") == userId;
    assert RememberMeClaim(p) == rememberMe;
    if email.Str? {
      assert ClaimsTyped(p);
      assert DecodeToken(req.settings, req.store, req.refreshCookie.value, req.now) == Some(p);
    } else {
      assert !ClaimsTyped(p);
    }
  }

  /** The remember-me choice made at login survives a refresh: the new
      refresh token records the same flag and its cookie gets the same age. */
  lemma RememberMeSurvivesRefresh(s: Settings, db: Db, c: LoginRequest, jtiA: string, jtiR: string, issued: int,
                                  req: Request, jtiA': string, jtiR': string)
    requires ValidLogin(c) && jtiR != ""
    requires Login(s, db, c, jtiA, jtiR, issued).Ok?
    requires req.settings == s
    requires req.refreshCookie == Some(Login(s, db, c, jtiA, jtiR, issued).value.refresh.token)
    requires req.now < RefreshExpiry(s, None, Bool(c.rememberMe), issued)
    requires !RedisStore.IsTokenRevoked(req.store, jtiR, req.now)
    ensures var first := Login(s, db, c, jtiA, jtiR, issued).value;
            var again := Refresh(req, jtiA', jtiR');
            && again.Ok?
            && again.value.refresh.token.payload["remember_me"] == Bool(c.rememberMe)
            && again.value.refresh.maxAge == first.refresh.maxAge
            && again.value.userId == first.userId && again.value.email == first.email
  {
    var u := LoginUser(db, c.usernameOrEmail).value;
    MintedRefreshTokenRefreshes(req, Str(u.email), Int(u.id), Bool(c.rememberMe), jtiR, issued, jtiA', jtiR');
  }

  /** An access token cannot be used to refresh a session. */
  lemma AccessTokenCannotRefresh(req: Request, data: Payload, delta: Option<int>, jti: string, issued: int,
                                 jtiA: string, jtiR: string)
    requires req.refreshCookie == Some(CreateAccessToken(req.settings, data, delta, jti, issued))
    ensures Refresh(req, jtiA, jtiR) == Err(InvalidRefreshToken)
  {
    assert req.refreshCookie.value.payload["type"] == AccessType;
  }
}

/** The authentication dependency `get_current_user` (`app/dependencies.py`):
    the access-token cookie is checked for presence, decoded (signature,
    expiry, revocation), checked to be an access token, and its `user_id`
    and `sub` claims turned into a `TokenData`. */
module Dependencies {
  import opened Wrappers
  import opened Tokens
  import opened Http
  import Config
  import RedisStore

  /** The `TokenData` schema: an integer user id and a string subject. */
  datatype TokenData = TokenData(userId: int, sub: string)

  const MissingAccessToken: HttpError := HttpError(Unauthorized, "Not authenticated - missing access token")
  const InvalidOrExpired: HttpError := HttpError(Unauthorized, "Invalid or expired token")
  const InvalidTokenType: HttpError := HttpError(Unauthorized, "Invalid token type")
  const InvalidPayload: HttpError := HttpError(Unauthorized, "Invalid token payload")

  /** `get_current_user`. A `user_id` that is not an integer fails
      validation of `TokenData`, an exception the dependency does not catch;
      a `sub` that is not a string never gets that far, because decoding
      refuses it. */
  function GetCurrentUser(req: Request): (r: Result<TokenData, HttpError>)
    ensures !Present(req.accessCookie) ==> r == Err(MissingAccessToken)
    ensures Present(req.accessCookie) && DecodeToken(req.settings, req.store, req.accessCookie.value, req.now).None? ==>
              r == Err(InvalidOrExpired)
    ensures Present(req.accessCookie) && DecodeToken(req.settings, req.store, req.accessCookie.value, req.now).Some? ==>
              var p := DecodeToken(req.settings, req.store, req.accessCookie.value, req.now).value;
              && (Get(p, "type") != AccessType ==> r == Err(InvalidTokenType))
              && (Get(p, "type") == AccessType && (Get(p, "user_id") == Null || Get(p, "sub") == Null) ==>
                    r == Err(InvalidPayload))
    ensures r.Ok? <==>
              && Present(req.accessCookie)
              && DecodeToken(req.settings, req.store, req.accessCookie.value, req.now).Some?
              && var p := req.accessCookie.value.payload;
                 Get(p, "type") == AccessType && Get(p, "user_id").Int? && Get(p, "sub").Str?
    ensures r.Ok? ==>
              var p := req.accessCookie.value.payload;
              Get(p, "user_id") == Int(r.value.userId) && Get(p, "sub") == Str(r.value.sub)
    ensures r.Err? ==> r.error.status in {Unauthorized, InternalServerError}
  {
    if !Present(req.accessCookie) then Err(MissingAccessToken)
    else match DecodeToken(req.settings, req.store, req.accessCookie.value, req.now)
      case None => Err(InvalidOrExpired)
      case Some(p) =>
        if Get(p, "type") != AccessType then Err(InvalidTokenType)
        else
          var userId := Get(p, "user_id");
          var sub := Get(p, "sub");
          if userId == Null || sub == Null then Err(InvalidPayload)
          else if userId.Int? && sub.Str? then Ok(TokenData(userId.i, sub.s))
          else Err(ServerFault)
  }

  /** A refresh token, however fresh, never authenticates a request: its
      `type` claim is not `"access"`. */
  lemma RefreshTokenNeverAuthenticates(req: Request, data: Payload, delta: Option<int>, rememberMe: Value,
                                       jti: string, issued: int)
    requires req.accessCookie == Some(CreateRefreshToken(req.settings, data, delta, rememberMe, jti, issued))
    ensures GetCurrentUser(req).Err?
    ensures GetCurrentUser(req).error.status == Unauthorized
  {
    var t := req.accessCookie.value;
    assert t.payload["type"] == RefreshType;
  }

  /** An access token minted for `(user_id, sub)` authenticates as exactly
      that pair while it is unexpired and its identifier is not revoked. */
  lemma FreshAccessTokenAuthenticates(req: Request, userId: int, sub: string, delta: Option<int>,
                                      jti: string, issued: int)
    requires jti != ""
    requires req.accessCookie ==
             Some(CreateAccessToken(req.settings, map["sub" := Str(sub), "user_id" := Int(userId)], delta, jti, issued))
    requires req.now < AccessExpiry(req.settings, delta, issued)
    requires !RedisStore.IsTokenRevoked(req.store, jti, req.now)
    ensures GetCurrentUser(req) == Ok(TokenData(userId, sub))
  {
    var data := map["sub" := Str(sub), "user_id" := Int(userId)];
    var t := req.accessCookie.value;
    DecodeFreshAccessToken(req.settings, req.store, data, delta, jti, issued, req.now);
    assert Get(t.payload, "user_id") == Int(userId);
    assert Get(t.payload, "sub") == Str(sub);
    assert Get(t.payload, "type") == AccessType;
  }
}

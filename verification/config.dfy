/** Application settings (`app/core/config.py`): token lifetimes, cookie
    lifetimes, secret-key validation and the connection URLs built from the
    settings. Values that come from the environment are plain fields. */
module Config {
  import opened Wrappers
  import opened Text

  datatype Settings = Settings(
    secretKey: string,
    algorithm: string,
    accessTokenExpiresMinutes: int,
    refreshTokenExpiresMinutes: int,
    rememberMeRefreshTokenExpiresMinutes: int,
    accessCookieMaxAge: int,
    refreshCookieMaxAge: int,
    dbUser: string,
    dbPassword: string,
    dbHost: string,
    dbPort: int,
    dbName: string,
    redisHost: string,
    redisPort: int,
    redisPassword: string,
    redisDb: int
  )

  datatype ConfigError = SecretKeyTooShort

  const MinSecretKeyLength: nat := 32

  /** Token lifetimes, in minutes. */
  const AccessTokenExpiresMinutes: int := 30
  const RefreshTokenExpiresMinutes: int := 24 * 60
  const RememberMeRefreshTokenExpiresMinutes: int := 30 * 24 * 60

  /** Cookie lifetimes, in seconds; deliberately not derived from the token lifetimes. */
  const AccessCookieMaxAge: int := 15 * 60
  const RefreshCookieMaxAge: int := 7 * 24 * 60 * 60

  /** The `SECRET_KEY` validator: too-short keys are refused, others kept as given. */
  function ValidateSecretKey(v: string): (r: Result<string, ConfigError>)
    ensures r.Ok? <==> |v| >= MinSecretKeyLength
    ensures r.Ok? ==> r.value == v
    ensures r.Err? ==> r.error == SecretKeyTooShort
  {
    if |v| < MinSecretKeyLength then Err(SecretKeyTooShort) else Ok(v)
  }

  /** Settings built from the environment-provided values, every other field
      at its declared default; fails exactly when the secret key is refused. */
  function LoadSettings(secretKey: string, dbUser: string, dbPassword: string, dbHost: string,
                        dbPort: int, dbName: string): (r: Result<Settings, ConfigError>)
    ensures r.Ok? <==> |secretKey| >= MinSecretKeyLength
    ensures r.Ok? ==> r.value.secretKey == secretKey
    ensures r.Ok? ==> 0 < r.value.accessTokenExpiresMinutes < r.value.refreshTokenExpiresMinutes
                         < r.value.rememberMeRefreshTokenExpiresMinutes
    ensures r.Ok? ==> r.value.accessCookieMaxAge != r.value.accessTokenExpiresMinutes * 60
                      && r.value.refreshCookieMaxAge != r.value.refreshTokenExpiresMinutes * 60
  {
    var key :- ValidateSecretKey(secretKey);
    Ok(Settings(
      secretKey := key,
      algorithm := "HS256",
      accessTokenExpiresMinutes := AccessTokenExpiresMinutes,
      refreshTokenExpiresMinutes := RefreshTokenExpiresMinutes,
      rememberMeRefreshTokenExpiresMinutes := RememberMeRefreshTokenExpiresMinutes,
      accessCookieMaxAge := AccessCookieMaxAge,
      refreshCookieMaxAge := RefreshCookieMaxAge,
      dbUser := dbUser,
      dbPassword := dbPassword,
      dbHost := dbHost,
      dbPort := dbPort,
      dbName := dbName,
      redisHost := "localhost",
      redisPort := 6379,
      redisPassword := "Pass123",
      redisDb := 0))
  }

  /** Validation keeps what it accepts, so a validated key validates again
      to itself, and settings load exactly for the keys it accepts. */
  lemma ValidatedKeyRevalidates(v: string, dbUser: string, dbPassword: string, dbHost: string,
                                dbPort: int, dbName: string)
    ensures ValidateSecretKey(v).Ok? ==> ValidateSecretKey(ValidateSecretKey(v).value) == ValidateSecretKey(v)
    ensures LoadSettings(v, dbUser, dbPassword, dbHost, dbPort, dbName).Ok? <==> ValidateSecretKey(v).Ok?
  {
  }

  /** No rendered integer contains `/`. */
  lemma NoSlashInInt(i: int)
    ensures '/' !in IntToString(i)
  {
    var r := IntToString(i);
    forall k | 0 <= k < |r|
      ensures r[k] != '/'
    {
      if i >= 0 {
        assert IsDigit(r[k]);
      } else if k > 0 {
        assert IsDigit(r[1..][k - 1]);
      }
    }
  }

  /** `REDIS_URL`: the scheme with an empty user name, and the database
      number as the last path segment, as `str()` renders it. */
  function RedisUrl(s: Settings): (u: string)
    ensures |u| > 9 && u[..9] == "redis://:"
    ensures var parts := Split(u, '/');
            parts[|parts| - 1] == IntToString(s.redisDb)
  {
    var head := "redis://:" + s.redisPassword + "@" + s.redisHost + ":" + IntToString(s.redisPort);
    var db := IntToString(s.redisDb);
    NoSlashInInt(s.redisDb);
    SplitAppend(head, '/', db);
    head + "/" + db
  }

  /** `DATABASE_URL`: the `postgresql` scheme, and the database name as the
      last path segment whenever the name contains no `/`. */
  function DatabaseUrl(s: Settings): (u: string)
    ensures |u| > 13 && u[..13] == "postgresql://"
    ensures '/' !in s.dbName ==>
              var parts := Split(u, '/');
              parts[|parts| - 1] == s.dbName
  {
    var head := "postgresql://" + s.dbUser + ":" + s.dbPassword + "@" + s.dbHost + ":" + IntToString(s.dbPort);
    var u := head + "/" + s.dbName;
    if '/' !in s.dbName then
      SplitAppend(head, '/', s.dbName);
      u
    else u
  }

  /** The Redis database number reads back from the last `/`-separated
      segment of the Redis URL. */
  lemma RedisUrlSelectsDb(s: Settings)
    requires s.redisDb >= 0
    ensures var parts := Split(RedisUrl(s), '/');
            ParseDigits(parts[|parts| - 1]) == Some(s.redisDb)
  {
    RenderParses(s.redisDb);
  }
}

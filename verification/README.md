# Bird-registry backend: authentication, band IDs and account bookkeeping in Dafny

This project is a Dafny model of the core of a FastAPI/SQLAlchemy backend for a bird-breeding registry. The model covers three parts.

- **Token lifecycle.** This part covers:
  - settings (`app/core/config.py`);
  - the 72-byte password truncation shared by `hash_password` and `verify_password`;
  - creation, verification and revocation of access and refresh JWTs (`app/core/security.py`);
  - the Redis side-store, which holds revocation entries and the cache (`app/core/redis_client.py`);
  - the `get_current_user` dependency;
  - the `login`, `refresh` and `logout` routes (`app/routers/auth.py`).
- **Bird creation and update** (`app/crud/bird_crud.py`). This part covers:
  - the band-ID format `<breeder code>-<year:04d>-<number:02d>` and how it is read back by splitting on `-`;
  - deriving a missing breeder, year or number from the band ID;
  - resolving parents, which checks an existing parent's sex and creates a missing parent;
  - the default date of birth;
  - the uniqueness and foreign-key constraints the database enforces;
  - `update_bird`.
- **Account and role bookkeeping.** This part covers:
  - the user and role repositories (`app/crud/user_crud.py`, `app/crud/role_crud.py`);
  - the admin guard and the admin routes (`app/internal/admin.py`);
  - the role routes and user routes (`app/routers/role.py`, `app/routers/users.py`).

How the model represents the system:

- **Tables.** The relational tables are sequences of rows in one `Schema.Db`. SQLAlchemy's `.first()` is the first matching row. A rolled-back transaction leaves the `Db` unchanged. An `IntegrityError` that the source does not catch is `Schema.Fault`, which the routes turn into HTTP 500.
- **Redis.** The store is a map from key to (value, expiry instant) plus an `available` flag, over an integer clock in seconds.
- **Tokens.** A JWT is its claims together with the key that signed it. Every route is a pure function from a `Http.Request` (settings, store, clock, cookies) and the database to its result and the database afterwards.

Modules, one per source file of the core:

- `Config`
- `Passwords` and `Utf8`
- `Tokens`
- `RedisStore`
- `Dependencies`
- `AuthRouter`
- `BandId` and `Text`
- `BirdCrud`
- `UserCrud`
- `RoleCrud`
- `Admin`
- `RoleRouter`
- `UsersRouter`

Shared modules:

- `Schema` holds the tables and the lookup helpers.
- `Http` holds status codes and the request.
- `Wrappers` holds `Option` and `Result`.
- `Email` holds what the `EmailStr` type of `UserCreate` does to an address: it strips surrounding whitespace, then lower-cases the domain.

Behaviours of the code worth stating:

- A revoked token is rejected exactly like a bad or expired one. `decode_token` returns `None` in all three cases, and `get_current_user` answers the same 401 for each. There is no separate revocation error.
- Bird creation decides whether a value is missing by Python truthiness. A breeder id, year or number of 0 counts as missing. A negative year or number is present, and it is formatted with its sign.
- The refresh route does not revoke the refresh token it consumes. `REFRESH_TOKEN_ROTATION` is never read.
- Registration accepts any password of at least 8 characters, but the login request caps passwords at 60. An account registered with a longer password can never log in by password: the login request is refused with 422 before the password is checked.
- Registration stores the email as the `EmailStr` type hands it over: stripped of surrounding whitespace, with the domain lower-cased. Login compares its plain-string email exactly. An account registered as `a@EXAMPLE.com` logs in as `a@example.com`. Both `a@EXAMPLE.com` and ` a@example.com` are then refused as duplicates of it.

## Model

| member | source | states |
|---|---|---|
| Config.ValidateSecretKey | app/core/config.py:63-68 | A key shorter than 32 characters is refused. Any other key is returned unchanged. |
| Config.LoadSettings | app/core/config.py:26-37 | Loading fails exactly when the secret key is refused. Otherwise the key is kept. The three token lifetimes are strictly increasing: access, then refresh, then remember-me. The cookie max-ages differ from the corresponding token lifetimes. |
| Config.ValidatedKeyRevalidates | app/core/config.py:63-68 | A validated key validates again to itself, and settings load exactly for the keys the validator accepts. |
| Config.RedisUrl | app/core/config.py:59-61 | The Redis URL starts with `redis://:`. Its last `/` segment is the database number as `str()` renders it, negative numbers included. |
| Config.RedisUrlSelectsDb | app/core/config.py:59-61 | For a non-negative database number, the last `/` segment of the Redis URL reads back as that number. |
| Config.DatabaseUrl | app/core/config.py:55-57 | The database URL starts with `postgresql://`. Its last `/` segment is the database name, when the name has no `/`. |
| Passwords.TruncatePassword | app/core/security.py:24-25 | The truncated password is the longest prefix of the password whose UTF-8 encoding fits in 72 bytes. |
| Passwords.DecodeTakeIsFitPrefix | app/core/security.py:25-26 | Take the first 72 bytes of the UTF-8 encoding, then decode them ignoring errors. The result is the longest prefix of the password whose encoding fits in 72 bytes. |
| Passwords.TruncationKeepsFittingPrefix | app/core/security.py:19-26 | The truncated password's encoding is a prefix of the original's and is at most 72 bytes long. A password whose encoding fits is kept whole. |
| Passwords.HashPassword | app/core/security.py:22-27 | The hash is bcrypt under the salt it was given. |
| Passwords.VerifyPassword | app/core/security.py:30-35 | A candidate verifies exactly when hashing it under the stored hash's own salt gives the stored hash. |
| Passwords.VerifyOwnHash | app/core/security.py:22-35 | A password verifies against its own hash, whatever the salt. |
| Passwords.VerifyIffSameTruncation | app/core/security.py:22-35 | A candidate verifies against the hash of `p` if and only if the two truncate to the same text. |
| Passwords.SharedPrefixVerifiesAlike | app/core/security.py:22-35 | Two passwords with the same first 72 encoded bytes verify alike against any hash, and they hash alike. |
| Tokens.JwtDecode | app/core/security.py:78 | Decoding succeeds exactly for a token signed with the server secret whose `sub` and `jti`, where present, are strings, and which is unexpired when expiry is checked. It then returns the signed claims. |
| Tokens.AccessExpiry | app/core/security.py:44-47 | The access expiry is `now + delta` for a truthy delta. Otherwise it is `now` plus the configured access lifetime. |
| Tokens.RefreshExpiry | app/core/security.py:61-68 | The refresh expiry follows this precedence: an explicit delta, then the remember-me tier, then the default tier. |
| Tokens.CreateAccessToken | app/core/security.py:38-51 | The token is signed with the secret. Its claims are the caller's claims plus `jti`, `type = "access"` and `exp`. |
| Tokens.CreateRefreshToken | app/core/security.py:54-72 | The token is signed with the secret. Its claims are the caller's claims plus `jti`, `type = "refresh"`, `remember_me` (recorded verbatim) and the tiered `exp`. |
| Tokens.DecodeToken | app/core/security.py:75-85 | The result is the payload, unchanged, exactly when all of these hold: the signature is good, `sub` and `jti` are strings where present, the token is unexpired, and a truthy `jti` is not revoked. The type is not checked. |
| Tokens.RevokeToken | app/core/security.py:88-103 | A revocation entry is written exactly when all of these hold: the signature is good (expiry is ignored), `sub` and `jti` are strings where present, `jti` and `exp` are truthy, `exp` is still in the future, and the store is up. The entry is stored under `revoked_token:<jti>` and lives until `exp`. In every other case the store is unchanged. |
| Tokens.DecodeFreshAccessToken | app/core/security.py:38-85 | A freshly minted access token decodes to its own claims exactly while it is unexpired and its `jti` is not revoked, provided the caller's `sub`, if any, is a string. |
| Tokens.RefreshTierPrecedence | app/core/security.py:54-72 | Refresh tokens record their remember-me flag. A remember-me token outlives a default one. |
| Tokens.LoadedLifetimesOrdered | app/core/config.py:26-37 | With the loaded settings, an access token expires before a default refresh token, which expires before a remember-me one. The access cookie ends before its token, and the refresh cookie outlives a default refresh token. |
| Tokens.RevokedTokenNeverDecodes | app/core/security.py:75-103 | On the whole-second clock, once a token has been revoked it never decodes again at any later instant. |
| Tokens.RevocationEntryEndsAtExp | app/core/security.py:91-100 | On the whole-second clock, the revocation entry reads as revoked exactly until the token's own `exp`. |
| Tokens.DecodeFailsClosed | app/core/security.py:80-82 | While the store is down, no token with a truthy `jti` decodes. |
| RedisStore.SetEx | app/core/redis_client.py:49 | `SETEX` succeeds only on a reachable store with a positive lifetime. It then sets that key alone to expire at `now + seconds`. On failure the store is unchanged. |
| RedisStore.RevokeToken | app/core/redis_client.py:34-53 | On success, the `jti` reads as revoked exactly until `now + seconds`. Every other key's liveness is unchanged. On failure the store is unchanged. |
| RedisStore.IsTokenRevoked | app/core/redis_client.py:56-72 | A token counts as revoked whenever the store is down. Otherwise it counts as revoked exactly when a read of its `revoked_token:` key finds a live entry. |
| RedisStore.CacheGet | app/core/redis_client.py:75-90 | The stored value is returned exactly when the store is up and the key is live. |
| RedisStore.CacheSet | app/core/redis_client.py:93-111 | On success, a read of the key at once returns the value. Reads of every other key are unchanged. The default lifetime is 3600 s. |
| RedisStore.CacheDelete | app/core/redis_client.py:114-130 | Deleting reports success whenever the store is up, including for a missing key. It removes that key only. |
| RedisStore.RevokeIdempotent | app/core/redis_client.py:49 | Revoking the same `jti` twice has the same effect as revoking it once. |
| RedisStore.RevokeIsolated | app/core/redis_client.py:34-72 | Revoking one `jti` leaves the revocation status of every other `jti` unchanged. |
| RedisStore.UnavailablePolicy | app/core/redis_client.py:34-130 | While the store is down, the revocation check fails closed. Revoke, get, set and delete fail open and leave the store unchanged. |
| RedisStore.GetClient | app/core/redis_client.py:16-31 | The client is created from the URL on first use. After that the stored client is returned. |
| RedisStore.GetClientOnce | app/core/redis_client.py:16-31 | A second call returns the same client and the same handle, whatever URL it is given. |
| Dependencies.GetCurrentUser | app/dependencies.py:8-47 | The checks run in this order: a missing cookie gives 401, a failed decode gives 401, a non-access type gives 401, missing claims give 401. Success returns exactly `(user_id, sub)` from the payload. |
| Dependencies.RefreshTokenNeverAuthenticates | app/dependencies.py:31-36 | A refresh token never authenticates a request. |
| Dependencies.FreshAccessTokenAuthenticates | app/dependencies.py:8-47 | An unexpired, unrevoked access token yields the `user_id` and `sub` it was minted with. |
| AuthRouter.SetAuthCookies | app/routers/auth.py:22-52 | The access cookie always has the access max-age. The refresh cookie has the given max-age, or the default one when none is given. |
| AuthRouter.RefreshCookieAge | app/routers/auth.py:87-89 | A specific refresh cookie age is chosen exactly when `remember_me` is truthy. |
| AuthRouter.LoginUser | app/routers/auth.py:63-65 | The login name is looked up by email first and by username only as a fallback. There is no result exactly when no user has that email or username. |
| AuthRouter.Login | app/routers/auth.py:55-102 | An unknown user and a wrong password give the same 401 with no tokens. A disabled account gives 403, and only after the password verifies. Success mints an access token and a refresh token carrying `sub = email`, `user_id = id` and the request's `remember_me`, and sets the matching cookie ages. |
| AuthRouter.RememberMeClaim | app/routers/auth.py:129 | `remember_me` defaults to `False` when it is absent. |
| AuthRouter.Refresh | app/routers/auth.py:105-163 | Every rejection is a 401, checked in this order: no cookie, failed decode, non-refresh type, missing `sub` or `user_id`. Success mints two tokens that carry `sub`, `user_id` and `remember_me` forward. The old token is not revoked, and `disabled` is not re-checked. |
| AuthRouter.Logout | app/routers/auth.py:166-193 | Authentication comes first. The access token is then revoked, and both cookies are cleared whatever the revocation returned. |
| AuthRouter.LoginThenAuthenticate | app/routers/auth.py:55-102 | The access token from a successful login authenticates as that user while it is unexpired and unrevoked. |
| AuthRouter.LogoutEndsSession | app/routers/auth.py:171-174 | On the whole-second clock, after logout the same access cookie is rejected with 401 at every later instant. |
| AuthRouter.MintedRefreshTokenRefreshes | app/routers/auth.py:119-152 | An unexpired, unrevoked refresh token with `sub` and `user_id` refreshes exactly when its `sub` is a string, and then carries its claims forward. |
| AuthRouter.RememberMeSurvivesRefresh | app/routers/auth.py:127-152 | Refreshing the token from a login keeps the login's `remember_me` flag and its refresh cookie age. |
| AuthRouter.AccessTokenCannotRefresh | app/routers/auth.py:119-125 | An access token presented as a refresh token is refused with 401. |
| BandId.FormatInt | app/crud/bird_crud.py:68 | Zero-padded formatting of a non-negative number gives digits only, at least as many as the width, and they parse back to the number. A negative number begins with `-`. |
| BandId.FormatBandId | app/crud/bird_crud.py:68 | For a non-negative year and number, splitting the band ID on `-` gives the parts of the breeder code, then the padded year, then the padded number. The ID is at least 8 characters longer than the code. |
| BandId.BreederCodeOf | app/crud/bird_crud.py:74-78 | A breeder code is derived exactly when the band ID has at least three `-`-separated parts. |
| BandId.YearPartOf | app/crud/bird_crud.py:91-93 | A year part exists exactly when there are at least two parts, and it contains no `-`. |
| BandId.NumberPartOf | app/crud/bird_crud.py:102-104 | The last part contains no `-`. |
| BandId.BandIdRoundTrip | app/crud/bird_crud.py:68-104 | Reading a generated band ID back gives the breeder code (dashes included), the year and the number it was made from. |
| BirdCrud.ResolveBandId | app/crud/bird_crud.py:52-68 | A truthy band ID is kept. Otherwise the checks run in this order: breeder, year, number, unknown breeder. Success gives `code-YYYY-NN` for the breeder's code. |
| BirdCrud.DeriveBreederId | app/crud/bird_crud.py:70-85 | A missing breeder id is taken from the breeder whose code is the band ID minus its last two parts. An unknown code is an error. |
| BirdCrud.DeriveYear | app/crud/bird_crud.py:87-95 | A missing year is the integer value of the second-to-last part. A non-numeric part is an error. |
| BirdCrud.DeriveNumber | app/crud/bird_crud.py:97-106 | A missing number is the integer value of the last part. A non-numeric part is an error. |
| BirdCrud.Derive | app/crud/bird_crud.py:46-106 | The derivations run in this order: band ID, breeder, year, number. The first failure is the error. Success carries each stage's result, with a non-empty band ID and a number. |
| BirdCrud.ResolveParent | app/crud/bird_crud.py:111-143 | An existing parent of the wrong sex is an error. An existing parent of the right sex is linked. A missing parent is inserted with the required sex and the child's breeder and owner, unless its row is refused. |
| BirdCrud.DefaultDob | app/crud/bird_crud.py:145-153 | A given date of birth is kept, and a falsy year leaves it empty. A truthy year from 1 to 9999 gives January 1 of that year. Any other year that fits a C `int` leaves the date empty. A year beyond a C `int` is an uncaught overflow error. |
| BirdCrud.InsertBird | app/crud/bird_crud.py:155-171 | A band ID longer than 100 characters is an uncaught data error. Otherwise the new bird is stored exactly when its band ID and every reference are accepted. If not, the whole transaction, parents included, is rolled back. |
| BirdCrud.CreateWithFather | app/crud/bird_crud.py:127-171 | With the father linked, the checks run in this order: a mother of the wrong sex is an error, a refused mother row rolls back, an overflowing year is an error, and then the insert decides. A created bird keeps both parent links. |
| BirdCrud.CreateBird | app/crud/bird_crud.py:20-171 | A derivation error comes first, then a father of the wrong sex. A refused father row rolls back. Otherwise the outcome is that of the mother stage. A rollback leaves the database unchanged. A created bird carries the derived band ID and breeder, the defaulted date of birth and the linked parents. |
| BirdCrud.ResolveParentKeepsUnique | app/crud/bird_crud.py:111-143 | Resolving a parent keeps bird ids and band IDs unique. |
| BirdCrud.CreateBirdKeepsUnique | app/crud/bird_crud.py:20-171 | Creating a bird, together with any parents it inserts, keeps bird ids and band IDs unique. |
| BirdCrud.GeneratedBandRederives | app/crud/bird_crud.py:52-106 | Submitting a generated band ID again without breeder, year or number re-derives the same breeder, year and number. |
| BirdCrud.SameBandParentsRejected | app/crud/bird_crud.py:111-143 | A father and mother given the same new band ID are rejected: the father is created as `M`, and the mother check then finds `M`. |
| BirdCrud.CreateBirdInserts | app/crud/bird_crud.py:20-171 | A bird is inserted as the one new row when it has a new band ID of at most 100 characters, an existing breeder, a valid owner, a year, a number and no parents. |
| BirdCrud.WrongSexParentRejected | app/crud/bird_crud.py:111-125 | An existing father that is not male is refused, reporting the sex found, before anything is written. |
| BirdCrud.PatchBird | app/crud/bird_crud.py:319-322 | Only the fields that were sent change, and each takes the value sent. Sending `band_id = null` leaves no valid row. |
| BirdCrud.UpdateBird | app/crud/bird_crud.py:303-332 | An unknown id gives `None` with no change. For a known id the update succeeds exactly when the patched row exists and the constraints accept it. The stored row is then replaced in place. A refused row rolls back. |
| BirdCrud.EmptyUpdateChangesNothing | app/crud/bird_crud.py:315-332 | In a consistent database, an update that sends no fields returns the bird and changes nothing. |
| BirdCrud.UpdateBirdIdempotent | app/crud/bird_crud.py:315-332 | Sending the same update twice has the same effect as sending it once. |
| UserCrud.GetUserByEmail | app/crud/user_crud.py:65-76 | A user is found exactly when some row has that email, and the row found has it. |
| UserCrud.GetUserByUsername | app/crud/user_crud.py:79-90 | A user is found exactly when some row has that username, and the row found has it. |
| UserCrud.CreateUser | app/crud/user_crud.py:19-48 | A clashing email or username rolls back and gives `None`. Otherwise the new row has a fresh id, the hash of the password, `disabled = False` and `full_name = username`. |
| UserCrud.ApplyChanges | app/crud/user_crud.py:139-143 | Each allowed field with a non-None value takes that value. Every other field is unchanged. |
| UserCrud.UpdateUser | app/crud/user_crud.py:123-151 | An unknown id gives `None` with no change. A unique-key clash rolls back. Otherwise the row is replaced in place by the changed row. |
| UserCrud.UpdateUserPassword | app/crud/user_crud.py:154-173 | An unknown id gives `None` with no change. For an existing user, only that row changes, and its hash becomes the hash of the new password. |
| UserCrud.VerifyUserPassword | app/crud/user_crud.py:176-192 | The result is false for an unknown user. Otherwise it is the password check against the stored hash. |
| UserCrud.DisableUser | app/crud/user_crud.py:195-206 | The result is the user with `disabled = True`, for an existing user. |
| UserCrud.EnableUser | app/crud/user_crud.py:209-220 | The result is the user with `disabled = False`. `False` is applied because it is not `None`. |
| UserCrud.DeleteUser | app/crud/user_crud.py:223-240 | The result is `False` for an unknown id. A user still referenced by a role row violates the foreign key, which is not caught. Otherwise exactly that row is removed, and the other rows and tables are unchanged. |
| UserCrud.CountUsers | app/crud/user_crud.py:291-301 | The count is the number of user rows. |
| UserCrud.CountActiveUsers | app/crud/user_crud.py:304-314 | The count plus the number of disabled users is the number of users. It equals the number of users when no user is disabled. |
| UserCrud.CountAll | app/crud/user_crud.py:304-314 | When no user is disabled, every user counts as active. |
| UserCrud.ActiveAndDisabledPartition | app/crud/user_crud.py:304-314 | Active users plus disabled users add up to all users. |
| UserCrud.CreateUserKeepsUnique | app/crud/user_crud.py:19-48 | Creating a user keeps ids, usernames and emails unique. |
| UserCrud.CreatedUserVerifies | app/crud/user_crud.py:19-48 | A newly created user's password verifies against the stored hash. |
| UserCrud.PasswordChangeTakesEffect | app/crud/user_crud.py:154-173 | After a password change the new password verifies. |
| UserCrud.IgnoredChangesChangeNothing | app/crud/user_crud.py:140-143 | A key outside the allow-list, or a `None` value, has no effect. |
| UserCrud.ApplyChangesIdempotent | app/crud/user_crud.py:140-143 | Applying the same changes twice has the same effect as applying them once. No changes leave the user as it was. |
| UserCrud.DisableEnableRestores | app/crud/user_crud.py:195-220 | Disabling and then re-enabling an active user restores the database. |
| RoleCrud.GetRoleByName | app/crud/role_crud.py:59-70 | A role is found exactly when some row has that name, and the row found has it. |
| RoleCrud.RoleExistsByName | app/crud/role_crud.py:160-171 | The result is true exactly when some role has that name. |
| RoleCrud.CreateRole | app/crud/role_crud.py:20-42 | A duplicate name gives `None` with no change. Otherwise the role is appended with a fresh id. |
| RoleCrud.AssignRoleToUser | app/crud/role_crud.py:187-207 | A row is appended without checking for duplicates, exactly when the user and the role exist. Otherwise the foreign key rolls the insert back. |
| RoleCrud.RemoveRoleFromUser | app/crud/role_crud.py:210-231 | The result is true exactly when a matching row exists, and then one such row is removed (as a multiset). Otherwise nothing changes. |
| RoleCrud.RowsOf | app/crud/role_crud.py:234-246 | The result holds exactly the assignment rows of that user, in table order. |
| RoleCrud.GetUserRoles | app/crud/role_crud.py:234-246 | There is one entry per assignment row of the user, in order. Entry k is the stored role whose id is that row's `role_id`. It is present exactly when such a role exists. |
| RoleCrud.UserHasRole | app/crud/role_crud.py:249-269 | The result is false when no role has the name. Otherwise it is true exactly when a row links the user to that role. |
| RoleCrud.DeleteRole | app/crud/role_crud.py:120-137 | The result is `False` for an unknown id. A role that is still assigned violates the foreign key. Otherwise exactly that role is removed, and with unique ids no role with that id remains. |
| RoleCrud.HasRoleIffListed | app/crud/role_crud.py:234-269 | With unique roles, `user_has_role` holds exactly when the role appears in `get_user_roles`. |
| RoleCrud.CreateRoleKeepsUnique | app/crud/role_crud.py:20-42 | Creating a role keeps role ids and names unique. |
| RoleCrud.AssignThenRemove | app/crud/role_crud.py:187-231 | After assigning a role the user holds it. Removing it again restores the assignment rows as a multiset. |
| Admin.CheckAdminRole | app/internal/admin.py:23-53 | A missing or disabled caller gets 403 before the role check. A caller without the admin role gets 403. Otherwise the caller is returned unchanged. |
| Admin.RequireAdmin | app/internal/admin.py:23-53 | Authentication errors come first, then the admin check. |
| Admin.DisableUserRoute | app/internal/admin.py:109-132 | The caller's own id gets 400 before any lookup. An unknown user gets 404. Otherwise the user is disabled. |
| Admin.EnableUserRoute | app/internal/admin.py:135-152 | There is no self-check. An unknown user gets 404. Otherwise the user is enabled. |
| Admin.DisableSparesCaller | app/internal/admin.py:119-123 | An admin can never disable their own account through the route. |
| Admin.Stats | app/internal/admin.py:56-82 | For an admin, the reported counts are the number of users and the number of active users, and the disabled count is the number of disabled users. |
| Admin.ScannedKeys | app/internal/admin.py:216 | The scan yields exactly the live keys that match `revoked_token:*`. |
| Admin.DeleteEach | app/internal/admin.py:216-219 | Deleting each scanned key removes exactly those keys and counts them. |
| Admin.FlushCache | app/internal/admin.py:200-232 | The admin check comes first. An unavailable store gives 503. Success deletes exactly the revocation keys, leaves every other key untouched, and reports the number deleted. Afterwards no `jti` reads as revoked. |
| Admin.GrantedAdminPasses | app/internal/admin.py:39-53 | An enabled user who has been assigned the admin role passes the admin check. |
| RoleRouter.CreateRoleRoute | app/routers/role.py:18-42 | The admin check comes first. An existing name gives 400 before the insert. Otherwise the role is created. |
| RoleRouter.DeleteRoleRoute | app/routers/role.py:121-146 | The admin check comes first. An unknown role gives 404. A role that is still assigned gives 500. Otherwise the role is deleted, and with unique ids it can no longer be found. |
| RoleRouter.AssignRoleRoute | app/routers/role.py:149-195 | The checks run in this order: admin, then role exists (404), then user exists (404), then not already held (400). |
| RoleRouter.AssignGrantsRoleOnce | app/routers/role.py:177-195 | After a successful assignment the user holds the role through exactly one assignment row. |
| RoleRouter.UnassignRoleRoute | app/routers/role.py:198-228 | The admin check comes first. A missing role, or a user who does not hold it, gives 404. Otherwise one assignment row is removed. |
| RoleRouter.UserRolesRoute | app/routers/role.py:231-251 | Only authentication is needed. An unknown user gives 404. Otherwise the result is the user's roles, one per assignment row. |
| RoleRouter.MutationsNeedAdmin | app/routers/role.py:18-228 | Without the admin guard passing, every mutating role route fails with the guard's error and changes nothing. |
| Email.Normalize | app/schemas/user.py:5 | The address keeps its length, its local part and its last `@`. The domain after it is in lower case. An address without `@` is unchanged. |
| Email.NormalizeOnlyCase | app/schemas/user.py:5 | Normalisation changes letter case only. |
| Email.NormalizeIdempotent | app/schemas/user.py:5 | Normalising a normalised address changes nothing. |
| Email.DomainCaseIgnored | app/schemas/user.py:5 | Two addresses that differ only in the case of their domain normalise to the same address. |
| Email.Strip | app/schemas/user.py:5 | Python's `str.strip()`: the result is no longer than the input and neither starts nor ends with whitespace. |
| Email.StripLeftCut | app/schemas/user.py:5 | What left-stripping cuts off the front is whitespace. |
| Email.StripRightCut | app/schemas/user.py:5 | What right-stripping cuts off the end is whitespace. |
| Email.StripSlice | app/schemas/user.py:5 | The stripped text is a slice of the input, and everything cut from either end is whitespace. |
| Email.StripPadding | app/schemas/user.py:5 | Whitespace added around an address does not change what stripping keeps. |
| Email.StripTrimmed | app/schemas/user.py:5 | An address that starts and ends with a non-space is kept whole. |
| Email.StripIdempotent | app/schemas/user.py:5 | Stripping twice is stripping once. |
| Email.Canonical | app/schemas/user.py:5 | The address handed to the route is no longer than the input and equals the stripped input up to letter case. |
| Email.CanonicalStripped | app/schemas/user.py:5 | A canonical address has no surrounding whitespace left to strip. |
| Email.CanonicalIdempotent | app/schemas/user.py:5 | Canonicalising a canonical address changes nothing. |
| Email.SameCanonical | app/schemas/user.py:5 | Every address that differs from a canonical address only in the case of its domain and in surrounding whitespace has that address as its canonical form. |
| UsersRouter.View | app/routers/users.py:39-45 | The response carries the id, username, email, full name and disabled flag, and never the hash. |
| UsersRouter.Register | app/routers/users.py:11-45 | Both duplicate checks and the insert use the email as `EmailStr` stripped and normalised it. A duplicate email is reported before a duplicate username. Registration succeeds exactly when neither is taken. It then creates the user and returns its public view, with the normalised email. |
| UsersRouter.DomainCaseVariantRejected | app/routers/users.py:18-22 | With a canonical address stored, registering any address that differs from it only in the case of its domain and in surrounding whitespace is refused as a duplicate email, and the database is unchanged. |
| UsersRouter.RegisterThenLogin | app/routers/auth.py:55-81 | A newly registered account can log in with its own password and its email as stored, that is, stripped and normalised. The session belongs to the new account. |
| UsersRouter.RegisterThenLoginAsTyped | app/routers/auth.py:63-70 | Login compares the email exactly as typed. When normalisation changed the address and nothing else uses the typed string, logging in with it is refused with 401. |
| UsersRouter.UnknownLoginRefused | app/routers/auth.py:63-70 | A login that names no account's email or username is refused with 401. |
| UsersRouter.FullNameChange | app/routers/users.py:123 | Only `full_name` is passed, and it applies only when it is given. |
| UsersRouter.UpdateUserInfo | app/routers/users.py:108-133 | Another user's id gets 403. Otherwise only the full name is updated. |
| UsersRouter.MissingFullNameChangesNothing | app/routers/users.py:123 | An update without a full name leaves the database unchanged. |
| UsersRouter.DeleteUserRoute | app/routers/users.py:136-154 | Another user's id gets 403. An unknown id gets 404. A user who still holds roles gets 500. Otherwise exactly that user is deleted. |

## Left out

- JWT signing, HS256 and `python-jose` decoding are foreign crypto. A token is its claims plus its signing key: a signature is valid exactly when the key is the server secret, and any malformed string is `Garbage`.
- Tokens.Unexpired accepts a token strictly before `exp`. The library also accepts it during the second of `exp` itself. Leeway is not modelled. The integer clock drops the sub-second part of `datetime`.
- Tokens.RevokedTokenNeverDecodes holds on the whole-second clock only. The source sets the entry's lifetime to `int(exp - now)` on a sub-second clock, which truncates. The library accepts the token until the second after `exp`. A revoked token therefore decodes again for up to about two seconds around `exp`.
- Tokens.RevocationEntryEndsAtExp holds on the whole-second clock only. With the sub-second clock the entry ends up to one second before `exp`, through the same truncation.
- AuthRouter.LogoutEndsSession holds on the whole-second clock only. It inherits the same window of up to about two seconds around `exp`.
- Tokens.JwtDecode checks the signature, `exp`, `sub` and `jti`. The `iat`, `nbf`, `aud` and `iss` checks are not modelled. The library converts a non-integer `exp` with `int()`: a numeric string or a boolean is accepted, and `null` raises an uncaught `TypeError`. Here any non-integer `exp` is refused.
- Bcrypt and passlib are modelled as an injective uninterpreted hash over (salt, truncated password). The random salt is a parameter.
- `uuid4` identifiers and the current time are parameters of the operations that use them.
- I/O to Redis is not modelled: network errors, timeouts, keep-alive and `health_check`. The store's availability is one flag fixed for the whole call.
- Admin.FlushCache: the SCAN cursor mechanics, keys reported twice by SCAN, and a connection lost part-way through the flush are not modelled. The flush deletes either all matching keys or none.
- Dependencies.GetCurrentUser: pydantic's lax coercion is not modelled. A numeric-string or boolean `user_id` answers 500 as a validation failure would. A non-string `sub` never reaches this check, because decoding refuses it.
- BirdCrud.DeriveYear and BirdCrud.DeriveNumber parse digit-only strings. Python `int()` also accepts surrounding whitespace, a sign, `_` separators and non-ASCII decimal digits; those inputs are treated as non-numeric here.
- BirdCrud.DefaultDob models `datetime(bird_year, 1, 1)` as a plain date.
- The field lengths of `BirdCreate` are not checked here. The schema caps the band IDs at 100 characters and the name at 80, matching the columns. So only a generated band ID can be too long for its column.
- Request validation by pydantic appears only as preconditions:
  - password length 6 to 60 at login (`AuthRouter.ValidLogin`);
  - at least 8 characters at registration (`UsersRouter.ValidRegistration`).
- Email.Normalize models only the ASCII lower-casing of the domain. Other parts of the `EmailStr` check are not modelled:
  - stripping a display name;
  - IDNA and Unicode case folding of the domain;
  - Unicode normalisation (NFC) of the local part;
  - the lower-casing that email-validator 2.1 and later apply to the local parts that are role mailbox names of RFC 2142, such as `info`, `support` and `postmaster`;
  - the 422 answer for a malformed address.
  The library is not part of this model. For those addresses the model keeps the local part as written.
- The bird `sex` pattern is not checked.
- UserCrud.UpdateUser requires every allowed key to carry a value of its column's type, since the callers only ever pass such values.
- Serial primary keys are one more than the largest key in use. The `user_role` row id, `assigned_at` and the `created_at`/`updated_at` timestamps are not modelled.
- The source filters falsy rows out of `get_user_roles`; rows are never falsy, so that filter is omitted.
- Routes outside the core are not modelled, because they are thin ORM reads:
  - the list, search and paginated routes;
  - `get_role`, `get_role_by_name` and `update_role`;
  - `read_users`, `read_user_me`, `read_user` and `/auth/me`;
  - the admin user list, Redis info, cache stats and the health endpoints;
  - `delete_bird` and the other bird getters and counts.
- The breeder, owner, organization and pairs modules are not modelled. `breeder_crud.py` refers to columns the breeder model does not have.
- Cookie attributes are not modelled (`httponly`, `secure`, `samesite`, `domain`), nor are response bodies, CORS or the framework's routing.
- The clustered-store fallback, cache-key namespacing and refresh-token rotation are absent from the code and are not modelled.
- Concurrency between requests and transaction isolation are not modelled. Each operation runs alone on one database value.

/** The user routes (`app/routers/users.py`): registration, and the
    owner-only profile update and account deletion. */
module UsersRouter {
  import opened Wrappers
  import opened Http
  import opened Schema
  import opened Dependencies
  import opened UserCrud
  import Passwords
  import Email
  import AuthRouter

  /** The user as the routes return it: every column but the password hash. */
  datatype UserView = UserView(id: int, username: string, email: string, fullName: Option<string>, disabled: bool)

  function View(u: User): (v: UserView)
    ensures v.id == u.id && v.username == u.username && v.email == u.email
    ensures v.fullName == u.fullName && v.disabled == u.disabled
  {
    UserView(u.id, u.username, u.email, u.fullName, u.disabled)
  }

  const EmailRegistered: HttpError := HttpError(BadRequest, "Email already registered")
  const UsernameTaken: HttpError := HttpError(BadRequest, "Username already taken")
  const CouldNotCreateUser: HttpError := HttpError(BadRequest, "Could not create user")
  const OwnProfileOnly: HttpError := HttpError(Forbidden, "You can only update your own profile")
  const OwnAccountOnly: HttpError := HttpError(Forbidden, "You can only delete your own account")
  const UserNotFound: HttpError := HttpError(NotFound, "User not found")

  /** The length bound the `UserCreate` schema puts on the password. */
  predicate ValidRegistration(data: UserCreate) {
    |data.password| >= 8
  }

  /** The request body as the route sees it: `EmailStr` has stripped and
      normalised the address; the username and password arrive as sent. */
  function Validated(data: UserCreate): (v: UserCreate)
    ensures v.username == data.username && v.password == data.password
    ensures v.email == Email.Canonical(data.email)
  {
    data.(email := Email.Canonical(data.email))
  }

  /** `POST /users/register`: a taken email is reported before a taken
      username; both checks and the insert see the normalised address.
      `salt` is the salt bcrypt draws. */
  function Register(db: Db, data: UserCreate, salt: nat): (r: Outcome<Result<UserView, HttpError>>)
    requires ValidRegistration(data)
    ensures var v := Validated(data);
            GetUserByEmail(db, v.email).Some? ==> r == Outcome(Err(EmailRegistered), db)
    ensures var v := Validated(data);
            GetUserByEmail(db, v.email).None? && GetUserByUsername(db, v.username).Some? ==>
              r == Outcome(Err(UsernameTaken), db)
    ensures r.result.Err? ==> r.db == db
    ensures var v := Validated(data);
            r.result.Ok? <==> GetUserByEmail(db, v.email).None? && GetUserByUsername(db, v.username).None?
    ensures var v := Validated(data);
            r.result.Ok? ==>
              && CreateUser(db, v, salt).result.Some?
              && r.result.value == View(CreateUser(db, v, salt).result.value)
              && r.db == CreateUser(db, v, salt).db
              && r.result.value.username == data.username && r.result.value.email == Email.Canonical(data.email)
              && r.result.value.fullName == Some(data.username) && !r.result.value.disabled
  {
    var v := Validated(data);
    if GetUserByEmail(db, v.email).Some? then Outcome(Err(EmailRegistered), db)
    else if GetUserByUsername(db, v.username).Some? then Outcome(Err(UsernameTaken), db)
    else
      var c := CreateUser(db, v, salt);
      if c.result.None? then Outcome(Err(CouldNotCreateUser), db) else Outcome(Ok(View(c.result.value)), c.db)
  }

  /** An address that differs from a registered one only in the case of
      its domain and in surrounding whitespace is refused as already
      registered. The stored address is canonical, as registration stores
      it. */
  lemma DomainCaseVariantRejected(db: Db, u: User, data: UserCreate, salt: nat,
                                  pre: string, typed: string, post: string, k: nat)
    requires ValidRegistration(data)
    requires u in db.users && u.email == Email.Canonical(u.email)
    requires data.email == pre + typed + post && Email.AllSpace(pre) && Email.AllSpace(post)
    requires |typed| == |u.email| && k < |u.email|
    requires u.email[..k + 1] == typed[..k + 1] && u.email[k] == Email.At && Email.At !in u.email[k + 1..]
    requires Email.LowerAscii(u.email[k + 1..]) == Email.LowerAscii(typed[k + 1..])
    ensures Register(db, data, salt) == Outcome(Err(EmailRegistered), db)
  {
    Email.SameCanonical(pre, typed, post, u.email, k);
    var i :| 0 <= i < |db.users| && db.users[i] == u;
    assert GetUserByEmail(db, Validated(data).email).Some?;
  }

  /** A newly registered account can log in at once with its password and
      its email as stored, that is, stripped and normalised; the session belongs to the
      new account. The password bound is the login schema's: registration
      accepts longer passwords, and such an account can never log in by
      password, since the login request is refused before any lookup. */
  lemma RegisterThenLogin(db: Db, data: UserCreate, salt: nat, s: AuthRouter.Config.Settings,
                          rememberMe: bool, jtiA: string, jtiR: string, now: int)
    requires ValidRegistration(data) && |data.password| <= 60
    requires Register(db, data, salt).result.Ok?
    ensures var r := Register(db, data, salt);
            var e := Email.Canonical(data.email);
            var login := AuthRouter.Login(s, r.db, AuthRouter.LoginRequest(e, data.password, rememberMe),
                                          jtiA, jtiR, now);
            && login.Ok?
            && login.value.userId == AuthRouter.Tokens.Int(r.result.value.id)
            && login.value.email == AuthRouter.Tokens.Str(e)
  {
    var v := Validated(data);
    var r := Register(db, data, salt);
    var u := CreateUser(db, v, salt).result.value;
    assert r.db.users == db.users + [u];
    assert r.db.users[|db.users|] == u;
    assert AuthRouter.LoginUser(r.db, v.email) == Some(u) by {
      var f := FirstIndex(r.db.users, (x: User) => x.email == v.email);
      assert f.Some?;
    }
    Passwords.VerifyOwnHash(data.password, salt);
  }

  /** Appending a row that does not carry `name` keeps `name` unused. */
  lemma NoRowNamed(users: seq<User>, before: seq<User>, name: string)
    requires |users| == |before| + 1 && users[..|before|] == before
    requires forall i :: 0 <= i < |before| ==> before[i].email != name && before[i].username != name
    requires users[|before|].email != name && users[|before|].username != name
    ensures forall i :: 0 <= i < |users| ==> users[i].email != name && users[i].username != name
  {
    forall i | 0 <= i < |before|
      ensures users[i] == before[i]
    {
      assert users[i] == users[..|before|][i];
    }
  }

  /** A successful registration appends exactly one row, holding the
      username as sent and the email as normalised. */
  lemma RegisteredRow(db: Db, data: UserCreate, salt: nat)
    requires ValidRegistration(data)
    requires Register(db, data, salt).result.Ok?
    ensures var users := Register(db, data, salt).db.users;
            && |users| == |db.users| + 1 && users[..|db.users|] == db.users
            && users[|db.users|].email == Email.Canonical(data.email)
            && users[|db.users|].username == data.username
  {
    var u := CreateUser(db, Validated(data), salt).result.value;
    assert Register(db, data, salt).db.users == db.users + [u];
  }

  /** A login naming no account's email or username fails with 401. */
  lemma UnknownLoginRefused(s: AuthRouter.Config.Settings, db: Db, c: AuthRouter.LoginRequest,
                            jtiA: string, jtiR: string, now: int)
    requires AuthRouter.ValidLogin(c)
    requires forall i :: 0 <= i < |db.users| ==>
               db.users[i].email != c.usernameOrEmail && db.users[i].username != c.usernameOrEmail
    ensures AuthRouter.Login(s, db, c, jtiA, jtiR, now) == Err(AuthRouter.IncorrectCredentials)
  {
  }

  /** Login compares the email exactly as typed: when normalisation changed
      the address, logging in with the address as registered fails with
      401, unless some other account happens to use that string. */
  lemma RegisterThenLoginAsTyped(db: Db, data: UserCreate, salt: nat, s: AuthRouter.Config.Settings,
                                 rememberMe: bool, jtiA: string, jtiR: string, now: int)
    requires ValidRegistration(data) && |data.password| <= 60
    requires Register(db, data, salt).result.Ok?
    requires Email.Canonical(data.email) != data.email && data.username != data.email
    requires forall i :: 0 <= i < |db.users| ==> db.users[i].email != data.email && db.users[i].username != data.email
    ensures var r := Register(db, data, salt);
            AuthRouter.Login(s, r.db, AuthRouter.LoginRequest(data.email, data.password, rememberMe), jtiA, jtiR, now)
              == Err(AuthRouter.IncorrectCredentials)
  {
    RegisteredRow(db, data, salt);
    NoRowNamed(Register(db, data, salt).db.users, db.users, data.email);
    UnknownLoginRefused(s, Register(db, data, salt).db, AuthRouter.LoginRequest(data.email, data.password, rememberMe),
                        jtiA, jtiR, now);
  }

  /** The keyword arguments `update_user_info` passes: `full_name` only. */
  function FullNameChange(fullName: Option<string>): (kw: Changes)
    ensures WellTyped(kw) && kw.Keys == {"full_name"}
    ensures Applies(kw, "full_name") <==> fullName.Some?
  {
    map["full_name" := if fullName.Some? then Text(fullName.value) else NoneValue]
  }

  /** `PUT /users/{user_id}?full_name=...`: only the account's owner may
      update it (403); an unknown account gives 404. */
  function UpdateUserInfo(req: Request, db: Db, userId: int, fullName: Option<string>): (r: Outcome<Result<UserView, HttpError>>)
    ensures GetCurrentUser(req).Err? ==> r == Outcome(Err(GetCurrentUser(req).error), db)
    ensures GetCurrentUser(req).Ok? && GetCurrentUser(req).value.userId != userId ==> r == Outcome(Err(OwnProfileOnly), db)
    ensures r.result.Err? ==> r.db == db
    ensures GetCurrentUser(req).Ok? && GetCurrentUser(req).value.userId == userId && UsersUnique(db.users) ==>
              (r.result.Ok? <==> UserById(db, userId).Some?)
    ensures r.result.Ok? ==>
              && GetCurrentUser(req).Ok? && GetCurrentUser(req).value.userId == userId
              && UserById(db, userId).Some?
              && var old_ := UserById(db, userId).value;
                 r.result.value == View(old_.(fullName := if fullName.Some? then fullName else old_.fullName))
    ensures r.result.Ok? ==> r.db == UpdateUser(db, userId, FullNameChange(fullName)).db
  {
    match GetCurrentUser(req)
    case Err(e) => Outcome(Err(e), db)
    case Ok(caller) =>
      if caller.userId != userId then Outcome(Err(OwnProfileOnly), db)
      else
        var u := UpdateUser(db, userId, FullNameChange(fullName));
        if u.result.None? then Outcome(Err(UserNotFound), db) else Outcome(Ok(View(u.result.value)), u.db)
  }

  /** Leaving out `full_name` changes nothing: the route answers with the
      account as stored. */
  lemma MissingFullNameChangesNothing(req: Request, db: Db, userId: int)
    ensures UpdateUserInfo(req, db, userId, None).db == db
  {
    var r := UpdateUserInfo(req, db, userId, None);
    if r.result.Ok? {
      var kw := FullNameChange(None);
      var i :| 0 <= i < |db.users| && db.users[i].id == userId
               && UpdateUser(db, userId, kw).result.value == ApplyChanges(db.users[i], kw)
               && UpdateUser(db, userId, kw).db == db.(users := db.users[i := UpdateUser(db, userId, kw).result.value]);
      assert ApplyChanges(db.users[i], kw) == db.users[i];
      assert db.users[i := db.users[i]] == db.users;
    }
  }

  /** `DELETE /users/{user_id}`: only the owner may delete the account
      (403); an unknown account gives 404; an account that still holds a
      role cannot be deleted and the foreign-key error escapes as a 500. */
  function DeleteUserRoute(req: Request, db: Db, userId: int): (r: Outcome<Result<(), HttpError>>)
    ensures GetCurrentUser(req).Err? ==> r == Outcome(Err(GetCurrentUser(req).error), db)
    ensures GetCurrentUser(req).Ok? && GetCurrentUser(req).value.userId != userId ==> r == Outcome(Err(OwnAccountOnly), db)
    ensures GetCurrentUser(req).Ok? && GetCurrentUser(req).value.userId == userId && UserById(db, userId).None? ==>
              r == Outcome(Err(UserNotFound), db)
    ensures GetCurrentUser(req).Ok? && GetCurrentUser(req).value.userId == userId && UserById(db, userId).Some?
            && UserReferenced(db, userId) ==>
              r == Outcome(Err(ServerFault), db)
    ensures r.result.Err? ==> r.db == db
    ensures r.result.Ok? <==>
              && GetCurrentUser(req).Ok? && GetCurrentUser(req).value.userId == userId
              && UserById(db, userId).Some? && !UserReferenced(db, userId)
    ensures r.result.Ok? ==> DeleteUser(db, userId) == Ok(Outcome(true, r.db))
  {
    match GetCurrentUser(req)
    case Err(e) => Outcome(Err(e), db)
    case Ok(caller) =>
      if caller.userId != userId then Outcome(Err(OwnAccountOnly), db)
      else match DeleteUser(db, userId)
        case Err(_) => Outcome(Err(ServerFault), db)
        case Ok(d) => if !d.result then Outcome(Err(UserNotFound), db) else Outcome(Ok(()), d.db)
  }
}

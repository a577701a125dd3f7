/** The administration routes (`app/internal/admin.py`): the admin guard,
    account disabling and enabling, user statistics and the revocation-list
    flush. Every route runs the guard first and acts only when it passes. */
module Admin {
  import opened Wrappers
  import opened Http
  import opened Schema
  import opened Dependencies
  import opened RedisStore
  import Enums
  import UserCrud
  import RoleCrud

  const AccountDisabled: HttpError := HttpError(Forbidden, "User account is disabled")
  const AdminRequired: HttpError := HttpError(Forbidden, "Admin role required")
  const CannotDisableSelf: HttpError := HttpError(BadRequest, "Cannot disable your own account")
  const UserNotFound: HttpError := HttpError(NotFound, "User not found")
  const FlushFailed: HttpError := HttpError(ServiceUnavailable, "Could not flush cache")

  /** `check_admin_role`: a missing or disabled account is refused before
      the admin role is looked at; an admin's identity passes unchanged. */
  function CheckAdminRole(db: Db, caller: TokenData): (r: Result<TokenData, HttpError>)
    ensures UserById(db, caller.userId).None? ==> r == Err(AccountDisabled)
    ensures UserById(db, caller.userId).Some? && UserById(db, caller.userId).value.disabled ==> r == Err(AccountDisabled)
    ensures r.Ok? <==>
              && UserById(db, caller.userId).Some? && !UserById(db, caller.userId).value.disabled
              && RoleCrud.UserHasRole(db, caller.userId, Enums.Admin)
    ensures r.Err? ==> r.error.status == Forbidden
    ensures r.Ok? ==> r.value == caller
  {
    match UserById(db, caller.userId)
    case None => Err(AccountDisabled)
    case Some(user) =>
      if user.disabled then Err(AccountDisabled)
      else if !RoleCrud.UserHasRole(db, caller.userId, Enums.Admin) then Err(AdminRequired)
      else Ok(caller)
  }

  /** The dependency chain of an admin route: authentication, then the
      admin guard. */
  function RequireAdmin(req: Request, db: Db): (r: Result<TokenData, HttpError>)
    ensures GetCurrentUser(req).Err? ==> r == Err(GetCurrentUser(req).error)
    ensures GetCurrentUser(req).Ok? ==> r == CheckAdminRole(db, GetCurrentUser(req).value)
  {
    var caller :- GetCurrentUser(req);
    CheckAdminRole(db, caller)
  }

  /** `POST /admin/users/{user_id}/disable`: an admin cannot disable their
      own account (400, before any lookup); an unknown account gives 404. */
  function DisableUserRoute(req: Request, db: Db, userId: int): (r: Outcome<Result<User, HttpError>>)
    ensures RequireAdmin(req, db).Err? ==> r == Outcome(Err(RequireAdmin(req, db).error), db)
    ensures RequireAdmin(req, db).Ok? && userId == RequireAdmin(req, db).value.userId ==>
              r == Outcome(Err(CannotDisableSelf), db)
    ensures r.result.Err? ==> r.db == db
    ensures RequireAdmin(req, db).Ok? && userId != RequireAdmin(req, db).value.userId && UsersUnique(db.users) ==>
              (r.result.Ok? <==> UserById(db, userId).Some?)
    ensures RequireAdmin(req, db).Ok? && userId != RequireAdmin(req, db).value.userId && r.result.Err? ==>
              r.result.error == UserNotFound
    ensures r.result.Ok? ==>
              && UserById(db, userId).Some?
              && r.result.value == UserById(db, userId).value.(disabled := true)
              && r == Outcome(Ok(r.result.value), UserCrud.DisableUser(db, userId).db)
  {
    match RequireAdmin(req, db)
    case Err(e) => Outcome(Err(e), db)
    case Ok(caller) =>
      if userId == caller.userId then Outcome(Err(CannotDisableSelf), db)
      else
        var d := UserCrud.DisableUser(db, userId);
        if d.result.None? then Outcome(Err(UserNotFound), db) else Outcome(Ok(d.result.value), d.db)
  }

  /** `POST /admin/users/{user_id}/enable`: no self check; an unknown
      account gives 404. */
  function EnableUserRoute(req: Request, db: Db, userId: int): (r: Outcome<Result<User, HttpError>>)
    ensures RequireAdmin(req, db).Err? ==> r == Outcome(Err(RequireAdmin(req, db).error), db)
    ensures r.result.Err? ==> r.db == db
    ensures RequireAdmin(req, db).Ok? && UsersUnique(db.users) ==> (r.result.Ok? <==> UserById(db, userId).Some?)
    ensures RequireAdmin(req, db).Ok? && r.result.Err? ==> r.result.error == UserNotFound
    ensures r.result.Ok? ==>
              && UserById(db, userId).Some?
              && r.result.value == UserById(db, userId).value.(disabled := false)
              && r == Outcome(Ok(r.result.value), UserCrud.EnableUser(db, userId).db)
  {
    match RequireAdmin(req, db)
    case Err(e) => Outcome(Err(e), db)
    case Ok(caller) =>
      var d := UserCrud.EnableUser(db, userId);
      if d.result.None? then Outcome(Err(UserNotFound), db) else Outcome(Ok(d.result.value), d.db)
  }

  /** An admin's own account row is never changed by the disable route. */
  lemma DisableSparesCaller(req: Request, db: Db, userId: int)
    requires RequireAdmin(req, db).Ok?
    ensures var caller := RequireAdmin(req, db).value;
            UserById(DisableUserRoute(req, db, userId).db, caller.userId) == UserById(db, caller.userId)
  {
    var caller := RequireAdmin(req, db).value;
    var r := DisableUserRoute(req, db, userId);
    if r.result.Ok? {
      var d := UserCrud.DisableUser(db, userId);
      var kw := map["disabled" := UserCrud.Flag(true)];
      assert d == UserCrud.UpdateUser(db, userId, kw);
      var i :| 0 <= i < |db.users| && db.users[i].id == userId
               && d.result.value == UserCrud.ApplyChanges(db.users[i], kw)
               && d.db == db.(users := db.users[i := d.result.value]);
      FirstUnaffected(db.users, i, d.result.value, (u: User) => u.id == caller.userId);
    }
  }

  /** The user counts of `GET /admin/stats`. */
  datatype SystemStats = SystemStats(totalUsers: int, activeUsers: int, disabledUsers: int,
                                     totalBirds: int, totalBreeders: int)

  /** `GET /admin/stats`: the disabled count is computed as total minus
      active, which is exactly the number of disabled accounts. */
  function Stats(req: Request, db: Db): (r: Result<SystemStats, HttpError>)
    ensures r.Err? <==> RequireAdmin(req, db).Err?
    ensures r.Err? ==> r.error == RequireAdmin(req, db).error
    ensures r.Ok? ==>
              && r.value.totalUsers == |db.users|
              && r.value.activeUsers == Count(db.users, UserCrud.IsActive)
              && r.value.disabledUsers == Count(db.users, UserCrud.IsDisabled)
              && r.value.totalBirds == |db.birds| && r.value.totalBreeders == |db.breeders|
  {
    var _ :- RequireAdmin(req, db);
    var total := UserCrud.CountUsers(db);
    var active := UserCrud.CountActiveUsers(db);
    UserCrud.ActiveAndDisabledPartition(db.users);
    Ok(SystemStats(total, active, total - active, |db.birds|, |db.breeders|))
  }

  /** Keys matching the pattern `revoked_token:*`. */
  predicate IsRevocationKey(k: string) {
    |RevokedTokenPrefix| <= |k| && k[..|RevokedTokenPrefix|] == RevokedTokenPrefix
  }

  /** The keys a full `SCAN ... MATCH revoked_token:*` reports: the live
      revocation entries. */
  function ScannedKeys(s: Store, now: int): (keys: set<string>)
    ensures forall k :: k in keys <==> IsRevocationKey(k) && Live(s, k, now)
  {
    set k | k in s.entries && IsRevocationKey(k) && Live(s, k, now)
  }

  /** Deletes `keys` one at a time, counting the deletions. */
  method DeleteEach(entries: map<string, Entry>, keys: set<string>) returns (rest: map<string, Entry>, deleted: nat)
    ensures rest == entries - keys
    ensures deleted == |keys|
  {
    var todo, done := keys, {};
    rest := entries;
    deleted := 0;
    while todo != {}
      invariant done + todo == keys && done !! todo
      invariant deleted == |done|
      invariant rest == entries - done
      decreases |todo|
    {
      var k :| k in todo;
      RemoveOneMore(entries, done, k);
      rest := rest - {k};
      todo, done := todo - {k}, done + {k};
      deleted := deleted + 1;
    }
  }

  lemma RemoveOneMore(entries: map<string, Entry>, done: set<string>, k: string)
    ensures entries - (done + {k}) == (entries - done) - {k}
  {
  }

  /** `POST /admin/cache/flush`: deletes every revocation entry the scan
      reports, counting them, and leaves every other key alone; a store
      that does not answer gives 503. */
  method FlushCache(req: Request, db: Db) returns (r: Result<nat, HttpError>, store: Store)
    ensures RequireAdmin(req, db).Err? ==> r == Err(RequireAdmin(req, db).error) && store == req.store
    ensures RequireAdmin(req, db).Ok? && !req.store.available ==> r == Err(FlushFailed) && store == req.store
    ensures r.Ok? <==> RequireAdmin(req, db).Ok? && req.store.available
    ensures r.Ok? ==> r.value == |ScannedKeys(req.store, req.now)|
    ensures r.Ok? ==> forall k :: Live(store, k, req.now) <==> Live(req.store, k, req.now) && !IsRevocationKey(k)
    ensures forall k :: !IsRevocationKey(k) ==> (k in store.entries <==> k in req.store.entries)
    ensures forall k :: !IsRevocationKey(k) && k in store.entries ==> store.entries[k] == req.store.entries[k]
    ensures store.available == req.store.available
    ensures r.Ok? ==> forall jti :: !IsTokenRevoked(store, jti, req.now)
  {
    var guard := RequireAdmin(req, db);
    if guard.Err? {
      return Err(guard.error), req.store;
    }
    if !req.store.available {
      return Err(FlushFailed), req.store;
    }
    var keys := ScannedKeys(req.store, req.now);
    var rest, deleted := DeleteEach(req.store.entries, keys);
    store := req.store.(entries := rest);
    r := Ok(deleted);
    forall jti ensures !IsTokenRevoked(store, jti, req.now) {
      RevocationKeyMatches(jti);
    }
  }

  lemma RevocationKeyMatches(jti: string)
    ensures IsRevocationKey(RevocationKey(jti))
  {
    assert RevocationKey(jti)[..|RevokedTokenPrefix|] == RevokedTokenPrefix;
  }

  /** Granting the admin role to an enabled account makes the guard pass
      for it. */
  lemma GrantedAdminPasses(db: Db, caller: TokenData, admin: Role)
    requires RolesUnique(db.roles)
    requires admin in db.roles && admin.roleName == Enums.Admin
    requires UserById(db, caller.userId).Some? && !UserById(db, caller.userId).value.disabled
    ensures var a := RoleCrud.AssignRoleToUser(db, caller.userId, admin.id);
            CheckAdminRole(a.db, caller) == Ok(caller)
  {
    RoleCrud.AssignThenRemove(db, caller.userId, admin);
  }
}

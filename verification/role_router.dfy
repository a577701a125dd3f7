/** The role routes (`app/routers/role.py`). Creating, deleting, assigning
    and unassigning roles go through the admin guard; listing a user's
    roles needs authentication only. Each route checks its conditions in a
    fixed order and answers with the first that fails. */
module RoleRouter {
  import opened Wrappers
  import opened Http
  import opened Schema
  import opened Dependencies
  import opened RoleCrud
  import Admin

  const RoleNameExists: HttpError := HttpError(BadRequest, "Role name already exists")
  const CouldNotCreateRole: HttpError := HttpError(BadRequest, "Could not create role")
  const RoleNotFound: HttpError := HttpError(NotFound, "Role not found")
  const CouldNotDeleteRole: HttpError := HttpError(BadRequest, "Could not delete role")
  const AlreadyHasRole: HttpError := HttpError(BadRequest, "User already has this role")
  const CouldNotAssignRole: HttpError := HttpError(BadRequest, "Could not assign role to user")
  const DoesNotHaveRole: HttpError := HttpError(NotFound, "User does not have this role")

  /** `POST /roles/`: an existing name is refused with 400 before anything
      is written. */
  function CreateRoleRoute(req: Request, db: Db, data: RoleCreate): (r: Outcome<Result<Role, HttpError>>)
    ensures Admin.RequireAdmin(req, db).Err? ==> r == Outcome(Err(Admin.RequireAdmin(req, db).error), db)
    ensures Admin.RequireAdmin(req, db).Ok? && RoleExistsByName(db, data.roleName) ==>
              r == Outcome(Err(RoleNameExists), db)
    ensures r.result.Err? ==> r.db == db
    ensures r.result.Ok? <==> Admin.RequireAdmin(req, db).Ok? && !RoleExistsByName(db, data.roleName)
    ensures r.result.Ok? ==> CreateRole(db, data) == Outcome(Some(r.result.value), r.db)
  {
    match Admin.RequireAdmin(req, db)
    case Err(e) => Outcome(Err(e), db)
    case Ok(_) =>
      if RoleExistsByName(db, data.roleName) then Outcome(Err(RoleNameExists), db)
      else
        var c := CreateRole(db, data);
        if c.result.None? then Outcome(Err(CouldNotCreateRole), db) else Outcome(Ok(c.result.value), c.db)
  }

  /** `DELETE /roles/{role_id}`: an unknown role gives 404; a role still
      assigned to someone cannot be deleted, and the foreign-key error
      escapes as a 500. The deleted role is returned. */
  function DeleteRoleRoute(req: Request, db: Db, roleId: int): (r: Outcome<Result<Role, HttpError>>)
    ensures Admin.RequireAdmin(req, db).Err? ==> r == Outcome(Err(Admin.RequireAdmin(req, db).error), db)
    ensures Admin.RequireAdmin(req, db).Ok? && RoleById(db, roleId).None? ==> r == Outcome(Err(RoleNotFound), db)
    ensures Admin.RequireAdmin(req, db).Ok? && RoleById(db, roleId).Some?
            && (exists j :: 0 <= j < |db.userRoles| && db.userRoles[j].roleId == roleId) ==>
              r == Outcome(Err(ServerFault), db)
    ensures r.result.Err? ==> r.db == db
    ensures r.result.Ok? <==>
              && Admin.RequireAdmin(req, db).Ok? && RoleById(db, roleId).Some?
              && forall j :: 0 <= j < |db.userRoles| ==> db.userRoles[j].roleId != roleId
    ensures r.result.Ok? ==>
              && r.result.value == RoleById(db, roleId).value
              && |r.db.roles| == |db.roles| - 1
              && r.db == DeleteRole(db, roleId).value.db
              && (RolesUnique(db.roles) ==> RoleById(r.db, roleId).None?)
  {
    match Admin.RequireAdmin(req, db)
    case Err(e) => Outcome(Err(e), db)
    case Ok(_) =>
      match RoleById(db, roleId)
      case None => Outcome(Err(RoleNotFound), db)
      case Some(role) =>
        match DeleteRole(db, roleId)
        case Err(_) => Outcome(Err(ServerFault), db)
        case Ok(d) => if !d.result then Outcome(Err(CouldNotDeleteRole), db) else Outcome(Ok(role), d.db)
  }

  /** `POST /roles/{role_id}/assign/{user_id}`: the role must exist (404),
      then the user (404), then the user must not already hold the role
      (400). */
  function AssignRoleRoute(req: Request, db: Db, roleId: int, userId: int): (r: Outcome<Result<UserRole, HttpError>>)
    ensures Admin.RequireAdmin(req, db).Err? ==> r == Outcome(Err(Admin.RequireAdmin(req, db).error), db)
    ensures Admin.RequireAdmin(req, db).Ok? && RoleById(db, roleId).None? ==> r == Outcome(Err(RoleNotFound), db)
    ensures Admin.RequireAdmin(req, db).Ok? && RoleById(db, roleId).Some? && UserById(db, userId).None? ==>
              r == Outcome(Err(Admin.UserNotFound), db)
    ensures Admin.RequireAdmin(req, db).Ok? && RoleById(db, roleId).Some? && UserById(db, userId).Some?
            && UserHasRole(db, userId, RoleById(db, roleId).value.roleName) ==>
              r == Outcome(Err(AlreadyHasRole), db)
    ensures r.result.Err? ==> r.db == db
    ensures r.result.Ok? <==>
              && Admin.RequireAdmin(req, db).Ok? && RoleById(db, roleId).Some? && UserById(db, userId).Some?
              && !UserHasRole(db, userId, RoleById(db, roleId).value.roleName)
    ensures r.result.Ok? ==>
              && r.result.value == UserRole(userId, roleId)
              && r.db == db.(userRoles := db.userRoles + [UserRole(userId, roleId)])
  {
    match Admin.RequireAdmin(req, db)
    case Err(e) => Outcome(Err(e), db)
    case Ok(_) =>
      match RoleById(db, roleId)
      case None => Outcome(Err(RoleNotFound), db)
      case Some(role) =>
        if UserById(db, userId).None? then Outcome(Err(Admin.UserNotFound), db)
        else if UserHasRole(db, userId, role.roleName) then Outcome(Err(AlreadyHasRole), db)
        else
          var a := AssignRoleToUser(db, userId, roleId);
          if a.result.None? then Outcome(Err(CouldNotAssignRole), db) else Outcome(Ok(a.result.value), a.db)
  }

  /** With role names unique, a successful assignment leaves the user
      holding the role through exactly one assignment row. */
  lemma AssignGrantsRoleOnce(req: Request, db: Db, roleId: int, userId: int)
    requires RolesUnique(db.roles)
    ensures var r := AssignRoleRoute(req, db, roleId, userId);
            r.result.Ok? ==>
              && UserHasRole(r.db, userId, RoleById(db, roleId).value.roleName)
              && multiset(r.db.userRoles)[UserRole(userId, roleId)] == 1
  {
    var r := AssignRoleRoute(req, db, roleId, userId);
    if r.result.Ok? {
      var role := RoleById(db, roleId).value;
      UniqueRoleLookup(db, role);
      assert UserRole(userId, roleId) !in db.userRoles;
      AssignThenRemove(db, userId, role);
    }
  }

  /** `DELETE /roles/{role_id}/unassign/{user_id}`: an unknown role gives
      404, and so does a user who does not hold it. */
  function UnassignRoleRoute(req: Request, db: Db, roleId: int, userId: int): (r: Outcome<Result<Role, HttpError>>)
    ensures Admin.RequireAdmin(req, db).Err? ==> r == Outcome(Err(Admin.RequireAdmin(req, db).error), db)
    ensures Admin.RequireAdmin(req, db).Ok? && RoleById(db, roleId).None? ==> r == Outcome(Err(RoleNotFound), db)
    ensures Admin.RequireAdmin(req, db).Ok? && RoleById(db, roleId).Some? && UserRole(userId, roleId) !in db.userRoles ==>
              r == Outcome(Err(DoesNotHaveRole), db)
    ensures r.result.Err? ==> r.db == db
    ensures r.result.Ok? <==>
              Admin.RequireAdmin(req, db).Ok? && RoleById(db, roleId).Some? && UserRole(userId, roleId) in db.userRoles
    ensures r.result.Ok? ==>
              && r.result.value == RoleById(db, roleId).value
              && multiset(r.db.userRoles) == multiset(db.userRoles) - multiset{UserRole(userId, roleId)}
              && r.db == db.(userRoles := r.db.userRoles)
  {
    match Admin.RequireAdmin(req, db)
    case Err(e) => Outcome(Err(e), db)
    case Ok(_) =>
      match RoleById(db, roleId)
      case None => Outcome(Err(RoleNotFound), db)
      case Some(role) =>
        var d := RemoveRoleFromUser(db, userId, roleId);
        if !d.result then Outcome(Err(DoesNotHaveRole), db) else Outcome(Ok(role), d.db)
  }

  /** `GET /roles/{user_id}/user-roles`: any authenticated caller; an
      unknown user gives 404. */
  function UserRolesRoute(req: Request, db: Db, userId: int): (r: Result<seq<Option<Role>>, HttpError>)
    ensures GetCurrentUser(req).Err? ==> r == Err(GetCurrentUser(req).error)
    ensures GetCurrentUser(req).Ok? && UserById(db, userId).None? ==> r == Err(Admin.UserNotFound)
    ensures r.Ok? <==> GetCurrentUser(req).Ok? && UserById(db, userId).Some?
    ensures r.Ok? ==> |r.value| == |RowsOf(db.userRoles, userId)|
    ensures r.Ok? ==> forall k :: 0 <= k < |r.value| ==> r.value[k] == RoleById(db, RowsOf(db.userRoles, userId)[k].roleId)
  {
    var _ :- GetCurrentUser(req);
    if UserById(db, userId).None? then Err(Admin.UserNotFound) else Ok(GetUserRoles(db, userId))
  }

  /** Without the admin guard passing, no mutating role route changes the
      database, and each answers with the guard's own error. */
  lemma MutationsNeedAdmin(req: Request, db: Db, data: RoleCreate, roleId: int, userId: int)
    requires Admin.RequireAdmin(req, db).Err?
    ensures var e := Admin.RequireAdmin(req, db).error;
            && CreateRoleRoute(req, db, data) == Outcome(Err(e), db)
            && DeleteRoleRoute(req, db, roleId) == Outcome(Err(e), db)
            && AssignRoleRoute(req, db, roleId, userId) == Outcome(Err(e), db)
            && UnassignRoleRoute(req, db, roleId, userId) == Outcome(Err(e), db)
  {
  }
}

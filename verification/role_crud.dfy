/** The role repository (`app/crud/role_crud.py`): roles and their
    assignment to users through the `user_role` table. */
module RoleCrud {
  import opened Wrappers
  import opened Schema
  import Enums

  /** The `RoleCreate` request body. */
  datatype RoleCreate = RoleCreate(roleName: Enums.RoleName, description: Option<string>)

  function GetRoleByName(db: Db, name: Enums.RoleName): (r: Option<Role>)
    ensures r.Some? <==> exists i :: 0 <= i < |db.roles| && db.roles[i].roleName == name
    ensures r.Some? ==> r.value in db.roles && r.value.roleName == name
  {
    RoleByName(db, name)
  }

  /** `role_exists_by_name` */
  function RoleExistsByName(db: Db, name: Enums.RoleName): (b: bool)
    ensures b <==> exists i :: 0 <= i < |db.roles| && db.roles[i].roleName == name
  {
    RoleByName(db, name).Some?
  }

  /** `create_role`: the unique constraint on `role_name` turns a duplicate
      into a rolled-back transaction and `None`. */
  function CreateRole(db: Db, data: RoleCreate): (r: Outcome<Option<Role>>)
    ensures r.result.None? <==> RoleExistsByName(db, data.roleName)
    ensures r.result.None? ==> r.db == db
    ensures r.result.Some? ==>
              var role := r.result.value;
              && r.db == db.(roles := db.roles + [role])
              && role.roleName == data.roleName && role.description == data.description
              && RoleById(db, role.id).None?
  {
    if RoleByName(db, data.roleName).Some? then Outcome(None, db)
    else
      var role := Role(NextId(db.roles, (x: Role) => x.id), data.roleName, data.description);
      Outcome(Some(role), db.(roles := db.roles + [role]))
  }

  /** `assign_role_to_user`: appends an assignment row without looking for
      an equal one; a user or role that does not exist violates a foreign
      key, which rolls back and yields `None`. */
  function AssignRoleToUser(db: Db, userId: int, roleId: int): (r: Outcome<Option<UserRole>>)
    ensures r.result.Some? <==> UserById(db, userId).Some? && RoleById(db, roleId).Some?
    ensures r.result.None? ==> r.db == db
    ensures r.result.Some? ==>
              && r.result.value == UserRole(userId, roleId)
              && r.db == db.(userRoles := db.userRoles + [UserRole(userId, roleId)])
  {
    if UserById(db, userId).Some? && RoleById(db, roleId).Some? then
      Outcome(Some(UserRole(userId, roleId)), db.(userRoles := db.userRoles + [UserRole(userId, roleId)]))
    else Outcome(None, db)
  }

  lemma RemoveAtMultiset<T>(s: seq<T>, i: nat)
    requires i < |s|
    ensures multiset(RemoveAt(s, i)) == multiset(s) - multiset{s[i]}
  {
    assert s == s[..i] + [s[i]] + s[i + 1..];
    assert multiset(s) == multiset(s[..i]) + multiset{s[i]} + multiset(s[i + 1..]);
  }

  /** `remove_role_from_user`: deletes the first matching assignment row
      and reports `True`, or reports `False` and changes nothing. */
  function RemoveRoleFromUser(db: Db, userId: int, roleId: int): (r: Outcome<bool>)
    ensures r.result <==> UserRole(userId, roleId) in db.userRoles
    ensures !r.result ==> r.db == db
    ensures r.result ==>
              && r.db == db.(userRoles := r.db.userRoles)
              && multiset(r.db.userRoles) == multiset(db.userRoles) - multiset{UserRole(userId, roleId)}
  {
    match FirstIndex(db.userRoles, (x: UserRole) => x.userId == userId && x.roleId == roleId)
    case None => Outcome(false, db)
    case Some(i) =>
      RemoveAtMultiset(db.userRoles, i);
      Outcome(true, db.(userRoles := RemoveAt(db.userRoles, i)))
  }

  /** The assignment rows of user `userId`, in table order. */
  function RowsOf(rows: seq<UserRole>, userId: int): (r: seq<UserRole>)
    ensures |r| <= |rows|
    ensures forall x :: x in r <==> x in rows && x.userId == userId
    decreases |rows|
  {
    if |rows| == 0 then []
    else
      var rest := RowsOf(rows[1..], userId);
      if rows[0].userId == userId then [rows[0]] + rest else rest
  }

  /** `get_user_roles`: one entry per assignment row of the user, in row
      order, each the role its `role_id` refers to. */
  function GetUserRoles(db: Db, userId: int): (r: seq<Option<Role>>)
    ensures |r| == |RowsOf(db.userRoles, userId)|
    ensures forall k :: 0 <= k < |r| ==> r[k].Some? ==> r[k].value in db.roles
    ensures forall k :: 0 <= k < |r| ==> r[k].Some? ==> r[k].value.id == RowsOf(db.userRoles, userId)[k].roleId
    ensures forall k :: 0 <= k < |r| ==>
              (r[k].Some? <==> exists i :: 0 <= i < |db.roles| && db.roles[i].id == RowsOf(db.userRoles, userId)[k].roleId)
  {
    var rows := RowsOf(db.userRoles, userId);
    seq(|rows|, k requires 0 <= k < |rows| => RoleById(db, rows[k].roleId))
  }

  /** `user_has_role`: false when no role has that name; otherwise whether
      an assignment row links the user to that role. */
  function UserHasRole(db: Db, userId: int, name: Enums.RoleName): (b: bool)
    ensures !RoleExistsByName(db, name) ==> !b
    ensures RoleExistsByName(db, name) ==>
              (b <==> UserRole(userId, RoleByName(db, name).value.id) in db.userRoles)
  {
    match RoleByName(db, name)
    case None => false
    case Some(role) =>
      First(db.userRoles, (x: UserRole) => x.userId == userId && x.roleId == role.id).Some?
  }

  /** `delete_role`: `False` for an unknown id; deleting a role that is
      still assigned violates the `user_role` foreign key, which the
      function does not catch. */
  function DeleteRole(db: Db, roleId: int): (r: Result<Outcome<bool>, Fault>)
    ensures r.Err? <==> RoleById(db, roleId).Some? && exists j :: 0 <= j < |db.userRoles| && db.userRoles[j].roleId == roleId
    ensures r.Ok? ==> (r.value.result <==> RoleById(db, roleId).Some?)
    ensures r.Ok? && !r.value.result ==> r.value.db == db
    ensures r.Ok? && r.value.result ==>
              && |r.value.db.roles| == |db.roles| - 1
              && (forall x :: x in db.roles && x != RoleById(db, roleId).value ==> x in r.value.db.roles)
              && r.value.db == db.(roles := r.value.db.roles)
              && (RolesUnique(db.roles) ==> RoleById(r.value.db, roleId).None?)
  {
    match FirstIndex(db.roles, (x: Role) => x.id == roleId)
    case None => Ok(Outcome(false, db))
    case Some(i) =>
      if exists j :: 0 <= j < |db.userRoles| && db.userRoles[j].roleId == roleId then Err(IntegrityViolation)
      else
        var roles' := RemoveAt(db.roles, i);
        assert forall k :: 0 <= k < |db.roles| && k != i ==> db.roles[k] in roles' by {
          forall k | 0 <= k < |db.roles| && k != i ensures db.roles[k] in roles' {
            if k < i { assert roles'[k] == db.roles[k]; } else { assert roles'[k - 1] == db.roles[k]; }
          }
        }
        assert RolesUnique(db.roles) ==> forall k :: 0 <= k < |roles'| ==> roles'[k].id != roleId by {
          if RolesUnique(db.roles) {
            forall k | 0 <= k < |roles'| ensures roles'[k].id != roleId {
              if k < i { assert roles'[k] == db.roles[k]; } else { assert roles'[k] == db.roles[k + 1]; }
            }
          }
        }
        Ok(Outcome(true, db.(roles := roles')))
  }

  /** With role names and ids unique, a user holds a role by name exactly
      when that role appears among the roles `get_user_roles` lists. */
  lemma {:induction false} HasRoleIffListed(db: Db, userId: int, name: Enums.RoleName)
    requires RolesUnique(db.roles)
    ensures UserHasRole(db, userId, name) <==>
              exists k :: 0 <= k < |GetUserRoles(db, userId)| && GetUserRoles(db, userId)[k].Some?
                          && GetUserRoles(db, userId)[k].value.roleName == name
  {
    var rows := RowsOf(db.userRoles, userId);
    var listed := GetUserRoles(db, userId);
    if UserHasRole(db, userId, name) {
      var role := RoleByName(db, name).value;
      var row := UserRole(userId, role.id);
      assert row in rows;
      var k :| 0 <= k < |rows| && rows[k] == row;
      UniqueRoleLookup(db, role);
      assert listed[k] == Some(role);
    }
    if exists k :: 0 <= k < |listed| && listed[k].Some? && listed[k].value.roleName == name {
      var k :| 0 <= k < |listed| && listed[k].Some? && listed[k].value.roleName == name;
      var role := listed[k].value;
      assert role in db.roles;
      UniqueRoleLookup(db, role);
      assert RoleByName(db, name) == Some(role);
      assert listed[k] == RoleById(db, rows[k].roleId);
      assert rows[k].roleId == role.id;
      assert rows[k] in rows;
    }
  }

  /** Creating a role keeps role ids and names unique. */
  lemma CreateRoleKeepsUnique(db: Db, data: RoleCreate)
    requires RolesUnique(db.roles)
    ensures RolesUnique(CreateRole(db, data).db.roles)
  {
    var r := CreateRole(db, data);
    if r.result.Some? {
      var role := r.result.value;
      forall j | 0 <= j < |db.roles|
        ensures db.roles[j].id != role.id && db.roles[j].roleName != role.roleName
      {
        assert db.roles[j] in db.roles;
      }
    }
  }

  /** Assigning and then removing the same role restores the assignment
      rows as a multiset, and the user holds the role in between. */
  lemma AssignThenRemove(db: Db, userId: int, role: Role)
    requires RolesUnique(db.roles)
    requires role in db.roles
    requires UserById(db, userId).Some?
    ensures var a := AssignRoleToUser(db, userId, role.id);
            && a.result.Some?
            && UserHasRole(a.db, userId, role.roleName)
            && multiset(RemoveRoleFromUser(a.db, userId, role.id).db.userRoles) == multiset(db.userRoles)
  {
    UniqueRoleLookup(db, role);
    var a := AssignRoleToUser(db, userId, role.id);
    assert a.db.roles == db.roles;
    assert UserRole(userId, role.id) == a.db.userRoles[|db.userRoles|];
  }
}

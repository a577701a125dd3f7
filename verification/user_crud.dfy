/** The user repository (`app/crud/user_crud.py`). Every operation takes the
    database and returns its result together with the database afterwards;
    a transaction that is rolled back leaves the database as it was. */
module UserCrud {
  import opened Wrappers
  import opened Schema
  import opened Passwords

  /** The `UserCreate` request body. */
  datatype UserCreate = UserCreate(username: string, email: string, password: string)

  /** A keyword argument of `update_user`; `NoneValue` is Python's `None`. */
  datatype FieldValue = NoneValue | Text(s: string) | Flag(b: bool) | Digest(h: PasswordHash)

  type Changes = map<string, FieldValue>

  /** The keyword arguments `update_user` applies. */
  const AllowedFields: set<string> := {"username", "email", "full_name", "disabled", "hashed_password"}

  /** Each allowed keyword carries `None` or a value of its column's type,
      as the callers pass them. */
  predicate WellTyped(kw: Changes) {
    && ("username" in kw ==> kw["username"].NoneValue? || kw["username"].Text?)
    && ("email" in kw ==> kw["email"].NoneValue? || kw["email"].Text?)
    && ("full_name" in kw ==> kw["full_name"].NoneValue? || kw["full_name"].Text?)
    && ("disabled" in kw ==> kw["disabled"].NoneValue? || kw["disabled"].Flag?)
    && ("hashed_password" in kw ==> kw["hashed_password"].NoneValue? || kw["hashed_password"].Digest?)
  }

  /** `key in allowed_fields and value is not None` */
  predicate Applies(kw: Changes, key: string) {
    key in AllowedFields && key in kw && !kw[key].NoneValue?
  }

  function GetUserByEmail(db: Db, email: string): (r: Option<User>)
    ensures r.Some? <==> exists i :: 0 <= i < |db.users| && db.users[i].email == email
    ensures r.Some? ==> r.value in db.users && r.value.email == email
  {
    First(db.users, (u: User) => u.email == email)
  }

  function GetUserByUsername(db: Db, username: string): (r: Option<User>)
    ensures r.Some? <==> exists i :: 0 <= i < |db.users| && db.users[i].username == username
    ensures r.Some? ==> r.value in db.users && r.value.username == username
  {
    First(db.users, (u: User) => u.username == username)
  }

  /** Some row other than the one at `except` already holds `username` or
      `email`, so that writing them would violate a unique constraint. */
  predicate Clashes(users: seq<User>, username: string, email: string, except: int) {
    exists j :: 0 <= j < |users| && j != except && (users[j].username == username || users[j].email == email)
  }

  /** `create_user`: stores the hash of the password, never the password,
      with the username as full name and the account enabled; a duplicate
      username or email rolls back and yields `None`. */
  function CreateUser(db: Db, data: UserCreate, salt: nat): (r: Outcome<Option<User>>)
    ensures r.result.None? <==> Clashes(db.users, data.username, data.email, -1)
    ensures r.result.None? ==> r.db == db
    ensures r.result.Some? ==>
              var u := r.result.value;
              && r.db == db.(users := db.users + [u])
              && u.username == data.username && u.email == data.email
              && u.fullName == Some(data.username) && !u.disabled
              && u.hashedPassword == HashPassword(data.password, salt)
              && UserById(db, u.id).None?
  {
    if Clashes(db.users, data.username, data.email, -1) then Outcome(None, db)
    else
      var u := User(NextId(db.users, (x: User) => x.id), data.username, data.email, Some(data.username),
                    false, HashPassword(data.password, salt));
      Outcome(Some(u), db.(users := db.users + [u]))
  }

  /** The row after the `setattr` loop of `update_user`. */
  function ApplyChanges(u: User, kw: Changes): (v: User)
    requires WellTyped(kw)
    ensures v.id == u.id
    ensures Applies(kw, "username") ==> v.username == kw["username"].s
    ensures !Applies(kw, "username") ==> v.username == u.username
    ensures Applies(kw, "email") ==> v.email == kw["email"].s
    ensures !Applies(kw, "email") ==> v.email == u.email
    ensures Applies(kw, "full_name") ==> v.fullName == Some(kw["full_name"].s)
    ensures !Applies(kw, "full_name") ==> v.fullName == u.fullName
    ensures Applies(kw, "disabled") ==> v.disabled == kw["disabled"].b
    ensures !Applies(kw, "disabled") ==> v.disabled == u.disabled
    ensures Applies(kw, "hashed_password") ==> v.hashedPassword == kw["hashed_password"].h
    ensures !Applies(kw, "hashed_password") ==> v.hashedPassword == u.hashedPassword
  {
    User(u.id,
         if Applies(kw, "username") then kw["username"].s else u.username,
         if Applies(kw, "email") then kw["email"].s else u.email,
         if Applies(kw, "full_name") then Some(kw["full_name"].s) else u.fullName,
         if Applies(kw, "disabled") then kw["disabled"].b else u.disabled,
         if Applies(kw, "hashed_password") then kw["hashed_password"].h else u.hashedPassword)
  }

  /** `update_user(db, user_id, **kwargs)`: `None` for an unknown id, and
      `None` with the transaction rolled back when the new username or
      email belongs to another user; otherwise only the addressed row
      changes. */
  function UpdateUser(db: Db, id: int, kw: Changes): (r: Outcome<Option<User>>)
    requires WellTyped(kw)
    ensures UserById(db, id).None? ==> r == Outcome(None, db)
    ensures r.result.None? ==> r.db == db
    ensures r.result.Some? ==>
              exists i :: 0 <= i < |db.users| && db.users[i].id == id
                          && r.result.value == ApplyChanges(db.users[i], kw)
                          && r.db == db.(users := db.users[i := r.result.value])
                          && UserById(db, id) == Some(db.users[i])
    ensures UserById(db, id).Some? ==>
              (r.result.None? <==>
                 var i := FirstIndex(db.users, (u: User) => u.id == id).value;
                 var v := ApplyChanges(db.users[i], kw);
                 Clashes(db.users, v.username, v.email, i))
  {
    match FirstIndex(db.users, (u: User) => u.id == id)
    case None => Outcome(None, db)
    case Some(i) =>
      var v := ApplyChanges(db.users[i], kw);
      if Clashes(db.users, v.username, v.email, i) then Outcome(None, db)
      else Outcome(Some(v), db.(users := db.users[i := v]))
  }

  /** `update_user_password`: replaces the stored hash by the hash of the
      new password; `None` for an unknown id. */
  function UpdateUserPassword(db: Db, id: int, newPassword: string, salt: nat): (r: Outcome<Option<User>>)
    ensures r.result.Some? <==> UserById(db, id).Some?
    ensures r.result.None? ==> r.db == db
    ensures r.result.Some? ==>
              && r.result.value == UserById(db, id).value.(hashedPassword := HashPassword(newPassword, salt))
              && UserById(r.db, id) == r.result
              && |r.db.users| == |db.users|
    ensures r.result.Some? ==>
              exists i :: 0 <= i < |db.users| && Some(db.users[i]) == UserById(db, id)
                          && r.db == db.(users := db.users[i := r.result.value])
  {
    match FirstIndex(db.users, (u: User) => u.id == id)
    case None => Outcome(None, db)
    case Some(i) =>
      var v := db.users[i].(hashedPassword := HashPassword(newPassword, salt));
      var db' := db.(users := db.users[i := v]);
      assert db'.users[i] == v;
      assert forall j :: 0 <= j < i ==> db'.users[j] == db.users[j];
      Outcome(Some(v), db')
  }

  /** `verify_user_password`: false for an unknown id. */
  function VerifyUserPassword(db: Db, id: int, password: string): (b: bool)
    ensures UserById(db, id).None? ==> !b
    ensures UserById(db, id).Some? ==> (b <==> VerifyPassword(password, UserById(db, id).value.hashedPassword))
  {
    match UserById(db, id)
    case None => false
    case Some(u) => VerifyPassword(password, u.hashedPassword)
  }

  /** `disable_user`: `update_user(db, user_id, disabled=True)`. */
  function DisableUser(db: Db, id: int): (r: Outcome<Option<User>>)
    ensures UsersUnique(db.users) ==> (r.result.Some? <==> UserById(db, id).Some?)
    ensures r.result.Some? ==> UserById(db, id).Some? && r.result.value == UserById(db, id).value.(disabled := true)
    ensures r.result.None? ==> r.db == db
  {
    UpdateUser(db, id, map["disabled" := Flag(true)])
  }

  /** `enable_user`: `update_user(db, user_id, disabled=False)`; `False`
      is applied because it is not `None`. */
  function EnableUser(db: Db, id: int): (r: Outcome<Option<User>>)
    ensures UsersUnique(db.users) ==> (r.result.Some? <==> UserById(db, id).Some?)
    ensures r.result.Some? ==> UserById(db, id).Some? && r.result.value == UserById(db, id).value.(disabled := false)
    ensures r.result.None? ==> r.db == db
  {
    UpdateUser(db, id, map["disabled" := Flag(false)])
  }

  /** The `user_role` rows that reference user `id`; the foreign key makes
      the database refuse to delete a user while one exists. */
  predicate UserReferenced(db: Db, id: int) {
    exists j :: 0 <= j < |db.userRoles| && db.userRoles[j].userId == id
  }

  /** `delete_user`: `False` for an unknown id; deleting a user who still
      holds a role violates the `user_role` foreign key, which the function
      does not catch. */
  function DeleteUser(db: Db, id: int): (r: Result<Outcome<bool>, Fault>)
    ensures r.Err? <==> UserById(db, id).Some? && UserReferenced(db, id)
    ensures r.Ok? ==> (r.value.result <==> UserById(db, id).Some?)
    ensures r.Ok? && !r.value.result ==> r.value.db == db
    ensures r.Ok? && r.value.result ==>
              && |r.value.db.users| == |db.users| - 1
              && (forall u :: u in db.users && u != UserById(db, id).value ==> u in r.value.db.users)
              && (UsersUnique(db.users) ==> UserById(r.value.db, id).None?)
    ensures r.Ok? && r.value.result ==>
              exists i :: 0 <= i < |db.users| && Some(db.users[i]) == UserById(db, id)
                          && r.value.db == db.(users := db.users[..i] + db.users[i + 1..])
  {
    match FirstIndex(db.users, (u: User) => u.id == id)
    case None => Ok(Outcome(false, db))
    case Some(i) =>
      if UserReferenced(db, id) then Err(IntegrityViolation)
      else
        var users' := RemoveAt(db.users, i);
        assert forall k :: 0 <= k < |db.users| && k != i ==> db.users[k] in users' by {
          forall k | 0 <= k < |db.users| && k != i ensures db.users[k] in users' {
            if k < i { assert users'[k] == db.users[k]; } else { assert users'[k - 1] == db.users[k]; }
          }
        }
        assert UsersUnique(db.users) ==> forall k :: 0 <= k < |users'| ==> users'[k].id != id by {
          if UsersUnique(db.users) {
            forall k | 0 <= k < |users'| ensures users'[k].id != id {
              if k < i { assert users'[k] == db.users[k]; } else { assert users'[k] == db.users[k + 1]; }
            }
          }
        }
        Ok(Outcome(true, db.(users := users')))
  }

  function CountUsers(db: Db): (n: nat)
    ensures n == |db.users|
  {
    |db.users|
  }

  predicate IsActive(u: User) {
    !u.disabled
  }

  predicate IsDisabled(u: User) {
    u.disabled
  }

  /** `count_active_users`: the rows with `disabled == False`. */
  function CountActiveUsers(db: Db): (n: nat)
    ensures n <= |db.users|
    ensures (forall i :: 0 <= i < |db.users| ==> !db.users[i].disabled) ==> n == |db.users|
    ensures n + Count(db.users, IsDisabled) == |db.users|
  {
    CountAll(db.users);
    ActiveAndDisabledPartition(db.users);
    Count(db.users, IsActive)
  }

  lemma {:induction false} CountAll(users: seq<User>)
    ensures (forall i :: 0 <= i < |users| ==> !users[i].disabled) ==> Count(users, IsActive) == |users|
    decreases |users|
  {
    if |users| > 0 {
      CountAll(users[1..]);
    }
  }

  /** Every row is active or disabled and none is both, so the active and
      the disabled rows together are all rows. */
  lemma {:induction false} ActiveAndDisabledPartition(users: seq<User>)
    ensures Count(users, IsActive) + Count(users, IsDisabled) == |users|
    decreases |users|
  {
    if |users| > 0 {
      ActiveAndDisabledPartition(users[1..]);
    }
  }

  /** Creating a user keeps usernames, emails and ids unique. */
  lemma CreateUserKeepsUnique(db: Db, data: UserCreate, salt: nat)
    requires UsersUnique(db.users)
    ensures UsersUnique(CreateUser(db, data, salt).db.users)
  {
    var r := CreateUser(db, data, salt);
    if r.result.Some? {
      var u := r.result.value;
      forall j | 0 <= j < |db.users|
        ensures db.users[j].id != u.id && db.users[j].username != u.username && db.users[j].email != u.email
      {
        assert db.users[j] in db.users;
      }
    }
  }

  /** A freshly registered user's password verifies against the stored row. */
  lemma CreatedUserVerifies(db: Db, data: UserCreate, salt: nat)
    requires UsersUnique(db.users)
    requires !Clashes(db.users, data.username, data.email, -1)
    ensures var r := CreateUser(db, data, salt);
            r.result.Some? && VerifyUserPassword(r.db, r.result.value.id, data.password)
  {
    var r := CreateUser(db, data, salt);
    var u := r.result.value;
    assert r.db.users[|db.users|] == u;
  }

  /** After a password change the new password verifies, and the old one
      verifies only if it truncates to the same 72 bytes. */
  lemma PasswordChangeTakesEffect(db: Db, id: int, oldPassword: string, newPassword: string, salt: nat)
    requires UserById(db, id).Some?
    ensures var r := UpdateUserPassword(db, id, newPassword, salt);
            && VerifyUserPassword(r.db, id, newPassword)
            && (VerifyUserPassword(r.db, id, oldPassword) <==> TruncatePassword(oldPassword) == TruncatePassword(newPassword))
  {
  }

  /** Keywords outside the allow-list, and `None` values, are ignored. */
  lemma IgnoredChangesChangeNothing(u: User, kw: Changes, key: string, value: FieldValue)
    requires WellTyped(kw)
    requires key !in AllowedFields || value.NoneValue?
    ensures WellTyped(kw[key := value])
    ensures ApplyChanges(u, kw[key := value]) == ApplyChanges(u, kw - {key})
  {
    var kw1 := kw[key := value];
    var kw2 := kw - {key};
    forall k | k in AllowedFields
      ensures Applies(kw1, k) == Applies(kw2, k)
      ensures Applies(kw1, k) ==> kw1[k] == kw2[k]
    {
      if k == key {
        assert !Applies(kw1, k);
      } else {
        assert (k in kw1 <==> k in kw) && (k in kw2 <==> k in kw);
        if k in kw { assert kw1[k] == kw[k] == kw2[k]; }
      }
    }
  }

  /** Applying the same changes twice is the same as applying them once,
      and an empty set of changes is the identity. */
  lemma ApplyChangesIdempotent(u: User, kw: Changes)
    requires WellTyped(kw)
    ensures ApplyChanges(ApplyChanges(u, kw), kw) == ApplyChanges(u, kw)
    ensures ApplyChanges(u, map[]) == u
  {
  }

  /** Disabling then enabling an account restores the row it started from. */
  lemma DisableEnableRestores(db: Db, id: int)
    requires UsersUnique(db.users)
    requires UserById(db, id).Some?
    requires !UserById(db, id).value.disabled
    ensures var d := DisableUser(db, id);
            d.result.Some? && EnableUser(d.db, id) == Outcome(UserById(db, id), db)
  {
    var i := FirstIndex(db.users, (u: User) => u.id == id).value;
    var d := DisableUser(db, id);
    assert d.db.users == db.users[i := db.users[i].(disabled := true)];
    assert d.db.users[i].id == id;
    var e := EnableUser(d.db, id);
    assert d.db.users[i := db.users[i]] == db.users;
  }
}

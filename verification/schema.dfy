/** Role names (`app/core/enums.py`). */
module Enums {
  datatype RoleName = Admin | User | Moderator | Breeder | Owner
}

/** The relational tables the application reads and writes
    (the models under `app/models`), each as a sequence of rows in table order, so that
    SQLAlchemy's `.first()` is "the first row that matches". */
module Schema {
  import opened Wrappers
  import Enums
  import opened Passwords

  datatype User = User(id: int, username: string, email: string, fullName: Option<string>,
                       disabled: bool, hashedPassword: PasswordHash)

  datatype Role = Role(id: int, roleName: Enums.RoleName, description: Option<string>)

  /** One row of the `user_role` assignment table. */
  datatype UserRole = UserRole(userId: int, roleId: int)

  datatype Breeder = Breeder(id: int, breederCode: string)

  /** A calendar date; only January 1 of a given year is ever constructed by the model. */
  datatype Date = Date(year: int, month: int, day: int)

  datatype Bird = Bird(id: int, bandId: string, name: Option<string>, dob: Option<Date>,
                       sex: Option<string>, fatherId: Option<int>, motherId: Option<int>,
                       breederId: Option<int>, ownerId: Option<int>)

  datatype Db = Db(users: seq<User>, roles: seq<Role>, userRoles: seq<UserRole>,
                   breeders: seq<Breeder>, birds: seq<Bird>)

  /** A repository call's return value together with the database afterwards. */
  datatype Outcome<T> = Outcome(result: T, db: Db)

  /** Index of the first element satisfying `p`. */
  function FirstIndex<T>(s: seq<T>, p: T -> bool): (r: Option<nat>)
    ensures r.Some? ==> r.value < |s| && p(s[r.value])
    ensures r.Some? ==> forall j :: 0 <= j < r.value ==> !p(s[j])
    ensures r.None? ==> forall j :: 0 <= j < |s| ==> !p(s[j])
    decreases |s|
  {
    if |s| == 0 then None
    else if p(s[0]) then Some(0)
    else match FirstIndex(s[1..], p)
      case None => None
      case Some(i) => Some(i + 1)
  }

  /** `query(...).filter(p).first()` */
  function First<T>(s: seq<T>, p: T -> bool): (r: Option<T>)
    ensures r.Some? <==> exists j :: 0 <= j < |s| && p(s[j])
    ensures r.Some? ==> r.value in s && p(r.value)
  {
    match FirstIndex(s, p)
    case None => None
    case Some(i) => Some(s[i])
  }

  /** One more than the largest key among `rows` (at least 1): the key a
      serial primary-key column hands out to the next insert, modelled as
      growing with every insert so that it is never one already in use. */
  function NextId<T>(rows: seq<T>, key: T -> int): (r: int)
    ensures r >= 1
    ensures forall i :: 0 <= i < |rows| ==> key(rows[i]) < r
    decreases |rows|
  {
    if |rows| == 0 then 1
    else
      var m := NextId(rows[..|rows| - 1], key);
      var last := key(rows[|rows| - 1]);
      if last >= m then last + 1 else m
  }

  /** An exception a repository function does not catch: it escapes to the
      web framework, which answers 500. */
  datatype Fault = IntegrityViolation

  /** `query(...).filter(p).count()` */
  function Count<T>(s: seq<T>, p: T -> bool): (n: nat)
    ensures n <= |s|
    decreases |s|
  {
    if |s| == 0 then 0 else (if p(s[0]) then 1 else 0) + Count(s[1..], p)
  }

  /** `s` with the element at `i` removed. */
  function RemoveAt<T>(s: seq<T>, i: nat): (r: seq<T>)
    requires i < |s|
    ensures |r| == |s| - 1
    ensures forall j :: 0 <= j < i ==> r[j] == s[j]
    ensures forall j :: i <= j < |r| ==> r[j] == s[j + 1]
  {
    s[..i] + s[i + 1..]
  }

  function UserById(db: Db, id: int): Option<User> {
    First(db.users, (u: User) => u.id == id)
  }

  function RoleById(db: Db, id: int): Option<Role> {
    First(db.roles, (r: Role) => r.id == id)
  }

  function RoleByName(db: Db, name: Enums.RoleName): Option<Role> {
    First(db.roles, (r: Role) => r.roleName == name)
  }

  function BreederById(db: Db, id: int): Option<Breeder> {
    First(db.breeders, (b: Breeder) => b.id == id)
  }

  function BreederByCode(db: Db, code: string): Option<Breeder> {
    First(db.breeders, (b: Breeder) => b.breederCode == code)
  }

  function BirdById(db: Db, id: int): Option<Bird> {
    First(db.birds, (b: Bird) => b.id == id)
  }

  function BirdByBandId(db: Db, bandId: string): Option<Bird> {
    First(db.birds, (b: Bird) => b.bandId == bandId)
  }

  /** The unique constraints on `users` (`id`, `username`, `email`). */
  ghost predicate UsersUnique(users: seq<User>) {
    forall i, j :: 0 <= i < j < |users| ==>
      users[i].id != users[j].id && users[i].username != users[j].username
      && users[i].email != users[j].email
  }

  /** The unique constraints on `role` (`id`, `role_name`). */
  ghost predicate RolesUnique(roles: seq<Role>) {
    forall i, j :: 0 <= i < j < |roles| ==>
      roles[i].id != roles[j].id && roles[i].roleName != roles[j].roleName
  }

  /** The unique constraints on `bird` (`id`, `band_id`). */
  ghost predicate BirdsUnique(birds: seq<Bird>) {
    forall i, j :: 0 <= i < j < |birds| ==>
      birds[i].id != birds[j].id && birds[i].bandId != birds[j].bandId
  }

  /** The unique constraints on `breeder` (`id`, `breeder_code`). */
  ghost predicate BreedersUnique(breeders: seq<Breeder>) {
    forall i, j :: 0 <= i < j < |breeders| ==>
      breeders[i].id != breeders[j].id && breeders[i].breederCode != breeders[j].breederCode
  }

  /** A row found by a unique key is the only row with that key. */
  lemma UniqueRoleLookup(db: Db, r: Role)
    requires RolesUnique(db.roles)
    requires r in db.roles
    ensures RoleById(db, r.id) == Some(r)
    ensures RoleByName(db, r.roleName) == Some(r)
  {
    var k :| 0 <= k < |db.roles| && db.roles[k] == r;
    var i := FirstIndex(db.roles, (x: Role) => x.id == r.id);
    var j := FirstIndex(db.roles, (x: Role) => x.roleName == r.roleName);
    assert i.Some? && j.Some?;
    assert i.value == k by {
      if i.value < k {} else if i.value > k {}
    }
    assert j.value == k by {
      if j.value < k {} else if j.value > k {}
    }
  }

  lemma UniqueBreederLookup(db: Db, b: Breeder)
    requires BreedersUnique(db.breeders)
    requires b in db.breeders
    ensures BreederById(db, b.id) == Some(b)
    ensures BreederByCode(db, b.breederCode) == Some(b)
  {
    var k :| 0 <= k < |db.breeders| && db.breeders[k] == b;
    var i := FirstIndex(db.breeders, (x: Breeder) => x.id == b.id);
    var j := FirstIndex(db.breeders, (x: Breeder) => x.breederCode == b.breederCode);
    assert i.Some? && j.Some?;
    assert i.value == k by {
      if i.value < k {} else if i.value > k {}
    }
    assert j.value == k by {
      if j.value < k {} else if j.value > k {}
    }
  }

  /** Overwriting an element that does not match, with one that does not
      match either, leaves `first()` as it was. */
  lemma FirstUnaffected<T>(s: seq<T>, i: nat, v: T, p: T -> bool)
    requires i < |s| && !p(s[i]) && !p(v)
    ensures First(s[i := v], p) == First(s, p)
  {
    var s' := s[i := v];
    assert forall j :: 0 <= j < |s| ==> p(s'[j]) == p(s[j]);
    var a := FirstIndex(s, p);
    var b := FirstIndex(s', p);
    if a.Some? {
      assert b.Some?;
      assert a.value == b.value;
    }
  }
}

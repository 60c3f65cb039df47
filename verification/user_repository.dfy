/** The users store: create (refusing a taken login), update (silent on an
    unknown id, keeping the stored password when none is given), delete
    (restricted by authored tasks, nulling executor references), and the
    read paths, each through the user projection. */
module UserRepository {
  import opened Wrappers
  import opened Text
  import opened Domain
  import opened Store
  import opened Projection
  import opened Ordering

  /** The store after a create, and the dto the create returns. */
  datatype Created = Created(db: Db, user: UserDto)

  /** Create a user. A taken login raises InvalidData before anything is
      written; otherwise exactly one row is added under a fresh id. The
      returned dto carries id, name, login and role; its password is left
      at the default "". */
  function CreateUser(db: Db, dto: UserDto): (r: Outcome<Created>)
    requires Valid(db)
    ensures r.Err? <==> LoginTaken(db.users, dto.login)
    ensures r.Err? ==> r.error == InvalidData
    ensures r.Ok? ==>
      var id := r.value.user.id;
      && Valid(r.value.db)
      && id > 0 && id !in db.users
      && r.value.db.users == db.users[id := UserRow(dto.name, dto.login, dto.password, dto.role)]
      && r.value.db.tasks == db.tasks
      && r.value.user == UserDto(id, dto.name, dto.login, "", dto.role)
  {
    if LoginTaken(db.users, dto.login) then Err(InvalidData)
    else
      var id := db.nextUserId;
      var db' := db.(users := db.users[id := UserRowOf(dto)], nextUserId := id + 1);
      Ok(Created(db', UserDto(id, dto.name, dto.login, "", dto.role)))
  }

  /** Update a user. A non-positive id raises; an unknown id is a silent
      no-op. Name, login and role are overwritten; the password only when
      the incoming one is non-empty. A login held by another user violates
      the unique index and the write is refused. */
  function UpdateUser(db: Db, dto: UserDto): (r: Outcome<Db>)
    requires Valid(db)
    ensures dto.id <= 0 ==> r == Err(ArgumentOutOfRange)
    ensures dto.id > 0 && dto.id !in db.users ==> r == Ok(db)
    ensures dto.id > 0 && dto.id in db.users ==>
      && (r.Err? <==> LoginTakenByOther(db.users, dto.login, dto.id))
      && (r.Err? ==> r.error == DbUpdate)
    ensures r.Ok? ==>
      && Valid(r.value)
      && r.value.tasks == db.tasks
      && r.value.users.Keys == db.users.Keys
      && forall u | u in db.users && u != dto.id :: r.value.users[u] == db.users[u]
    ensures r.Ok? && dto.id in db.users ==>
      var row := r.value.users[dto.id];
      && row.name == dto.name && row.login == dto.login && row.role == dto.role
      && row.password == (if dto.password == "" then db.users[dto.id].password else dto.password)
  {
    if dto.id <= 0 then Err(ArgumentOutOfRange)
    else if dto.id !in db.users then Ok(db)
    else if LoginTakenByOther(db.users, dto.login, dto.id) then Err(DbUpdate)
    else
      var stored := db.users[dto.id];
      var password := if dto.password != "" then dto.password else stored.password;
      Ok(db.(users := db.users[dto.id := UserRow(dto.name, dto.login, password, dto.role)]))
  }

  /** Delete a user. A non-positive id raises; an unknown id is a no-op; an
      author of any task cannot be deleted and nothing changes; otherwise
      exactly that user goes and the tasks they executed lose their executor. */
  function DeleteUser(db: Db, id: Id): (r: Outcome<Db>)
    requires Valid(db)
    ensures id <= 0 ==> r == Err(ArgumentOutOfRange)
    ensures id > 0 && id !in db.users ==> r == Ok(db)
    ensures id > 0 && id in db.users && IsAuthor(db.tasks, id) ==> r == Err(DbUpdate)
    ensures id > 0 && id in db.users && !IsAuthor(db.tasks, id) ==>
      && r.Ok?
      && r.value.users == db.users - {id}
      && r.value.tasks.Keys == db.tasks.Keys
      && (forall t | t in db.tasks && db.tasks[t].executorId == Some(id) ::
            r.value.tasks[t] == db.tasks[t].(executorId := None))
      && (forall t | t in db.tasks && db.tasks[t].executorId != Some(id) :: r.value.tasks[t] == db.tasks[t])
    ensures r.Ok? ==> Valid(r.value)
  {
    if id <= 0 then Err(ArgumentOutOfRange)
    else if id !in db.users then Ok(db)
    else if IsAuthor(db.tasks, id) then Err(DbUpdate)
    else Ok(db.(users := db.users - {id}, tasks := DetachExecutor(db.tasks, id)))
  }

  /** The role filter of a read; None selects every user. */
  predicate HasRole(row: UserRow, role: Option<Role>) {
    role.None? || row.role == role.value
  }

  /** The selected users with ids from `lo` on, in id order. */
  function UsersFrom(db: Db, lo: Id, role: Option<Role>): (r: seq<UserDto>)
    decreases db.nextUserId - lo
    ensures forall i | 0 <= i < |r| ::
      && r[i].id in db.users && lo <= r[i].id
      && r[i] == ProjectUser(r[i].id, db.users[r[i].id])
      && HasRole(db.users[r[i].id], role)
    ensures forall u | u in db.users && lo <= u < db.nextUserId && HasRole(db.users[u], role) ::
      exists i | 0 <= i < |r| :: r[i].id == u
    ensures forall i, j | 0 <= i < j < |r| :: r[i].id < r[j].id
  {
    if lo >= db.nextUserId then []
    else
      var head := if lo in db.users && HasRole(db.users[lo], role) then [ProjectUser(lo, db.users[lo])] else [];
      var rest := UsersFrom(db, lo + 1, role);
      forall u | u in db.users && lo <= u < db.nextUserId && HasRole(db.users[u], role)
        ensures exists i | 0 <= i < |head + rest| :: (head + rest)[i].id == u
      {
        if u == lo {
          assert (head + rest)[0].id == u;
        } else {
          var i :| 0 <= i < |rest| && rest[i].id == u;
          assert (head + rest)[|head| + i] == rest[i];
        }
      }
      head + rest
  }

  /** What a users read returns: every selected user exactly as projected,
      nothing else, ordered by name. */
  ghost predicate ListsUsers(db: Db, r: seq<UserDto>, role: Option<Role>) {
    && (forall i | 0 <= i < |r| ::
          r[i].id in db.users && r[i] == ProjectUser(r[i].id, db.users[r[i].id]) && HasRole(db.users[r[i].id], role))
    && (forall u | u in db.users && HasRole(db.users[u], role) :: exists i | 0 <= i < |r| :: r[i].id == u)
    && SortedByName(r)
  }

  /** A permutation of a complete listing is still complete and exact. */
  lemma PermutedListing(db: Db, role: Option<Role>, s: seq<UserDto>, t: seq<UserDto>)
    requires forall i | 0 <= i < |s| ::
      s[i].id in db.users && s[i] == ProjectUser(s[i].id, db.users[s[i].id]) && HasRole(db.users[s[i].id], role)
    requires forall u | u in db.users && HasRole(db.users[u], role) :: exists i | 0 <= i < |s| :: s[i].id == u
    requires multiset(t) == multiset(s)
    ensures forall i | 0 <= i < |t| ::
      t[i].id in db.users && t[i] == ProjectUser(t[i].id, db.users[t[i].id]) && HasRole(db.users[t[i].id], role)
    ensures forall u | u in db.users && HasRole(db.users[u], role) :: exists i | 0 <= i < |t| :: t[i].id == u
  {
    forall i | 0 <= i < |t|
      ensures t[i] in s
    {
      assert t[i] in multiset(t);
    }
    forall u | u in db.users && HasRole(db.users[u], role)
      ensures exists i | 0 <= i < |t| :: t[i].id == u
    {
      var k :| 0 <= k < |s| && s[k].id == u;
      assert s[k] in multiset(s);
      assert s[k] in t;
    }
  }

  function SortedUsers(db: Db, role: Option<Role>): (r: seq<UserDto>)
    requires Valid(db)
    ensures ListsUsers(db, r, role)
  {
    var inIdOrder := UsersFrom(db, 1, role);
    assert DistinctIds(inIdOrder);
    var sorted := SortByName(inIdOrder);
    PermutedListing(db, role, inIdOrder, sorted);
    sorted
  }

  /** Every user, ordered by name. */
  function GetAllUsers(db: Db): (r: seq<UserDto>)
    requires Valid(db)
    ensures ListsUsers(db, r, None)
  {
    SortedUsers(db, None)
  }

  /** Exactly the users holding `role`, ordered by name. */
  function GetByRole(db: Db, role: Role): (r: seq<UserDto>)
    requires Valid(db)
    ensures ListsUsers(db, r, Some(role))
  {
    SortedUsers(db, Some(role))
  }

  /** Lookup by id; a non-positive id reads as absent rather than raising. */
  function GetById(db: Db, id: Id): (r: Option<UserDto>)
    ensures id <= 0 ==> r == None
    ensures id > 0 ==> (r.Some? <==> id in db.users)
    ensures r.Some? ==> r.value == ProjectUser(id, db.users[id])
  {
    if id <= 0 then None
    else if id in db.users then Some(ProjectUser(id, db.users[id]))
    else None
  }

  /** The first id from `lo` on whose login is exactly `login`. */
  function FindLogin(db: Db, lo: Id, login: string): (r: Option<Id>)
    decreases db.nextUserId - lo
    ensures r.Some? ==> r.value in db.users && db.users[r.value].login == login
    ensures r.None? ==> forall u | u in db.users && lo <= u < db.nextUserId :: db.users[u].login != login
  {
    if lo >= db.nextUserId then None
    else if lo in db.users && db.users[lo].login == login then Some(lo)
    else FindLogin(db, lo + 1, login)
  }

  /** Lookup by login: a blank login reads as absent; otherwise the user whose
      login equals the argument exactly, if any. */
  function GetUserByLogin(db: Db, login: string): (r: Option<UserDto>)
    requires Valid(db)
    ensures Blank(login) ==> r == None
    ensures !Blank(login) ==> (r.Some? <==> LoginTaken(db.users, login))
    ensures r.Some? ==>
      && r.value.id in db.users
      && r.value == ProjectUser(r.value.id, db.users[r.value.id])
      && r.value.login == login
  {
    if Blank(login) then None
    else
      match FindLogin(db, 1, login)
      case None => None
      case Some(id) => Some(ProjectUser(id, db.users[id]))
  }
}

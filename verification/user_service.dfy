/** The users service: hashes the password on create, hashes a non-blank
    password on update, and passes reads and deletes through. */
module UserService {
  import opened Wrappers
  import opened Text
  import opened Domain
  import opened Store
  import opened PasswordHasher
  import UserRepository

  /** The caller's dto after create has overwritten its password field. */
  function HashedForCreate(digest: Digest, dto: UserDto): (r: UserDto)
    ensures r.id == dto.id && r.name == dto.name && r.login == dto.login && r.role == dto.role
    ensures Blank(dto.password) ==> r.password == ""
    ensures !Blank(dto.password) ==> Verify(digest, dto.password, r.password)
  {
    dto.(password := HashPassword(digest, dto.password))
  }

  /** The caller's dto after update: the password field is replaced by its
      hash only when it is not blank. */
  function HashedForUpdate(digest: Digest, dto: UserDto): (r: UserDto)
    ensures r.id == dto.id && r.name == dto.name && r.login == dto.login && r.role == dto.role
    ensures Blank(dto.password) ==> r.password == dto.password
    ensures !Blank(dto.password) ==> Verify(digest, dto.password, r.password)
  {
    if Blank(dto.password) then dto else dto.(password := HashPassword(digest, dto.password))
  }

  /** Create a user storing the hash of the given password; a blank password
      is stored as "", so such a user can never sign in. */
  function CreateUser(db: Db, digest: Digest, dto: UserDto): (r: Outcome<UserRepository.Created>)
    requires Valid(db)
    ensures r.Err? <==> LoginTaken(db.users, dto.login)
    ensures r.Err? ==> r.error == InvalidData
    ensures r.Ok? ==>
      var id := r.value.user.id;
      && Valid(r.value.db)
      && id > 0 && id !in db.users
      && r.value.db.users == db.users[id := UserRow(dto.name, dto.login, HashPassword(digest, dto.password), dto.role)]
      && r.value.db.tasks == db.tasks
    ensures r.Ok? && Blank(dto.password) ==> r.value.db.users[r.value.user.id].password == ""
  {
    UserRepository.CreateUser(db, HashedForCreate(digest, dto))
  }

  /** Update a user. The stored password afterwards is: unchanged for an
      empty incoming password; the incoming string itself, unhashed, when it
      is non-empty but whitespace only; its hash otherwise. */
  function UpdateUser(db: Db, digest: Digest, dto: UserDto): (r: Outcome<Db>)
    requires Valid(db)
    ensures dto.id <= 0 ==> r == Err(ArgumentOutOfRange)
    ensures dto.id > 0 && dto.id !in db.users ==> r == Ok(db)
    ensures dto.id > 0 && dto.id in db.users ==>
      (r.Err? <==> LoginTakenByOther(db.users, dto.login, dto.id))
    ensures r.Ok? ==>
      && Valid(r.value)
      && r.value.tasks == db.tasks
      && r.value.users.Keys == db.users.Keys
      && forall u | u in db.users && u != dto.id :: r.value.users[u] == db.users[u]
    ensures r.Ok? && dto.id in db.users ==>
      var row := r.value.users[dto.id];
      && row.name == dto.name && row.login == dto.login && row.role == dto.role
      && (dto.password == "" ==> row.password == db.users[dto.id].password)
      && (dto.password != "" && Blank(dto.password) ==> row.password == dto.password)
      && (!Blank(dto.password) ==> Verify(digest, dto.password, row.password))
  {
    var sent := HashedForUpdate(digest, dto);
    EmptyHashIffBlank(digest, dto.password);
    UserRepository.UpdateUser(db, sent)
  }

  /** Every user, sorted by name. */
  function GetAllUsers(db: Db): (r: seq<UserDto>)
    requires Valid(db)
    ensures UserRepository.ListsUsers(db, r, None)
  {
    UserRepository.GetAllUsers(db)
  }

  /** The users with `role`, sorted by name. */
  function GetUsersByRole(db: Db, role: Role): (r: seq<UserDto>)
    requires Valid(db)
    ensures UserRepository.ListsUsers(db, r, Some(role))
  {
    UserRepository.GetByRole(db, role)
  }

  /** Delete a user: refused for a non-positive id and for an author of a
      task; otherwise the users table loses that id, if present. */
  function DeleteUser(db: Db, id: Id): (r: Outcome<Db>)
    requires Valid(db)
    ensures r.Err? <==> id <= 0 || (id in db.users && IsAuthor(db.tasks, id))
    ensures id <= 0 ==> r == Err(ArgumentOutOfRange)
    ensures id > 0 && id in db.users && IsAuthor(db.tasks, id) ==> r == Err(DbUpdate)
    ensures id > 0 && id !in db.users ==> r == Ok(db)
    ensures r.Ok? ==>
      && Valid(r.value)
      && r.value.users == db.users - {id}
      && r.value.tasks.Keys == db.tasks.Keys
      && (forall t | t in db.tasks && db.tasks[t].executorId == Some(id) ::
            r.value.tasks[t] == db.tasks[t].(executorId := None))
      && (forall t | t in db.tasks && db.tasks[t].executorId != Some(id) :: r.value.tasks[t] == db.tasks[t])
  {
    UserRepository.DeleteUser(db, id)
  }
}

/** The relational store as declared by the application's database context:
    two tables held as maps from positive id to row, and the constraints the
    schema enforces (unique login, required author with delete restricted,
    optional executor nulled when its user is deleted). */
module Store {
  import opened Wrappers
  import opened Domain

  datatype UserRow = UserRow(name: string, login: string, password: string, role: Role)

  /** A task row: no login fields; the status is held as its integer code. */
  datatype TaskRow = TaskRow(
    title: string,
    description: string,
    createDate: Timestamp,
    status: int,
    authorId: Id,
    executorId: Option<Id>)

  /** Both tables and the ids the store will hand out next. */
  datatype Db = Db(users: map<Id, UserRow>, tasks: map<Id, TaskRow>, nextUserId: Id, nextTaskId: Id)

  /** Every key is a store-assigned positive id below the next one. */
  ghost predicate KeysBelow<V>(m: map<Id, V>, next: Id) {
    1 <= next && forall id | id in m :: 0 < id < next
  }

  /** The unique index on `login`. */
  ghost predicate LoginsUnique(users: map<Id, UserRow>) {
    forall a, b | a in users && b in users && users[a].login == users[b].login :: a == b
  }

  /** The foreign key `author_id`: required and always resolvable. */
  ghost predicate AuthorsExist(db: Db) {
    forall t | t in db.tasks :: db.tasks[t].authorId in db.users
  }

  /** The foreign key `executor_id`: optional, resolvable when present. */
  ghost predicate ExecutorsExist(db: Db) {
    forall t | t in db.tasks && db.tasks[t].executorId.Some? :: db.tasks[t].executorId.value in db.users
  }

  /** Every stored status code names an enumeration member. */
  ghost predicate StatusesValid(tasks: map<Id, TaskRow>) {
    forall t | t in tasks :: IsStatusCode(tasks[t].status)
  }

  ghost predicate Valid(db: Db) {
    && KeysBelow(db.users, db.nextUserId)
    && KeysBelow(db.tasks, db.nextTaskId)
    && LoginsUnique(db.users)
    && AuthorsExist(db)
    && ExecutorsExist(db)
    && StatusesValid(db.tasks)
  }

  /** A freshly created database: both tables empty. */
  function Empty(): (db: Db)
    ensures Valid(db)
    ensures db.users == map[] && db.tasks == map[]
  {
    Db(map[], map[], 1, 1)
  }

  predicate LoginTaken(users: map<Id, UserRow>, login: string) {
    exists u | u in users :: users[u].login == login
  }

  /** Some user other than `self` already holds `login`. */
  predicate LoginTakenByOther(users: map<Id, UserRow>, login: string, self: Id) {
    exists u | u in users && u != self :: users[u].login == login
  }

  /** The user is the author of at least one task. */
  predicate IsAuthor(tasks: map<Id, TaskRow>, userId: Id) {
    exists t | t in tasks :: tasks[t].authorId == userId
  }

  /** `ON DELETE SET NULL` for `executor_id`. */
  function DetachExecutor(tasks: map<Id, TaskRow>, userId: Id): (r: map<Id, TaskRow>)
    ensures r.Keys == tasks.Keys
    ensures forall t | t in tasks && tasks[t].executorId == Some(userId) :: r[t] == tasks[t].(executorId := None)
    ensures forall t | t in tasks && tasks[t].executorId != Some(userId) :: r[t] == tasks[t]
  {
    map t | t in tasks :: if tasks[t].executorId == Some(userId) then tasks[t].(executorId := None) else tasks[t]
  }
}

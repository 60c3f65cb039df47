/** The tasks store: create (the store assigns id and creation date), update
    (title, description, status and executor only; silent on an unknown id),
    delete, and the reads through the task projection, listed in id order. */
module TaskRepository {
  import opened Wrappers
  import opened Domain
  import opened Store
  import opened Projection

  /** The store's foreign keys accept the dto's author and executor. */
  predicate ReferencesResolve(users: map<Id, UserRow>, authorId: Id, executorId: Option<Id>) {
    authorId in users && (executorId.Some? ==> executorId.value in users)
  }

  /** Create a task from the dto's title, description, status, author and
      executor; the dto's id and creation date are ignored: the row gets the
      next id and the store's current time `now`. A dangling author or
      executor makes the store refuse the insert. */
  function CreateTask(db: Db, dto: TaskDto, now: Timestamp): (r: Outcome<Db>)
    requires Valid(db)
    ensures r.Err? <==> !ReferencesResolve(db.users, dto.authorId, dto.executorId)
    ensures r.Err? ==> r.error == DbUpdate
    ensures r.Ok? ==>
      && Valid(r.value)
      && r.value.users == db.users
      && db.nextTaskId > 0 && db.nextTaskId !in db.tasks
      && r.value.tasks == db.tasks[db.nextTaskId :=
           TaskRow(dto.title, dto.description, now, StatusCode(dto.status), dto.authorId, dto.executorId)]
  {
    if !ReferencesResolve(db.users, dto.authorId, dto.executorId) then Err(DbUpdate)
    else
      var row := TaskRowOf(dto).(createDate := now);
      Ok(db.(tasks := db.tasks[db.nextTaskId := row], nextTaskId := db.nextTaskId + 1))
  }

  /** Update a task. A non-positive id raises; an unknown id is a silent
      no-op; otherwise title, description, status and executor are written
      and the author and creation date are kept, whatever the dto says. */
  function UpdateTask(db: Db, dto: TaskDto): (r: Outcome<Db>)
    requires Valid(db)
    ensures dto.id <= 0 ==> r == Err(ArgumentOutOfRange)
    ensures dto.id > 0 && dto.id !in db.tasks ==> r == Ok(db)
    ensures dto.id > 0 && dto.id in db.tasks ==>
      && (r.Err? <==> !ReferencesResolve(db.users, db.tasks[dto.id].authorId, dto.executorId))
      && (r.Err? ==> r.error == DbUpdate)
    ensures r.Ok? ==>
      && Valid(r.value)
      && r.value.users == db.users
      && r.value.tasks.Keys == db.tasks.Keys
      && forall t | t in db.tasks && t != dto.id :: r.value.tasks[t] == db.tasks[t]
    ensures r.Ok? && dto.id in db.tasks ==>
      var before := db.tasks[dto.id];
      var after := r.value.tasks[dto.id];
      && after.title == dto.title
      && after.description == dto.description
      && after.status == StatusCode(dto.status)
      && after.executorId == dto.executorId
      && after.authorId == before.authorId
      && after.createDate == before.createDate
  {
    if dto.id <= 0 then Err(ArgumentOutOfRange)
    else if dto.id !in db.tasks then Ok(db)
    else if dto.executorId.Some? && dto.executorId.value !in db.users then Err(DbUpdate)
    else
      var before := db.tasks[dto.id];
      var after := before.(title := dto.title, description := dto.description,
                           status := StatusCode(dto.status), executorId := dto.executorId);
      Ok(db.(tasks := db.tasks[dto.id := after]))
  }

  /** Delete a task: a non-positive id raises, an unknown id is a no-op,
      otherwise only that task is removed. */
  function DeleteTask(db: Db, id: Id): (r: Outcome<Db>)
    requires Valid(db)
    ensures id <= 0 ==> r == Err(ArgumentOutOfRange)
    ensures id > 0 ==> r == Ok(db.(tasks := db.tasks - {id}))
    ensures r.Ok? ==> Valid(r.value) && r.value.users == db.users
  {
    if id <= 0 then Err(ArgumentOutOfRange)
    else Ok(db.(tasks := db.tasks - {id}))
  }

  /** The `Where` of a tasks read. */
  datatype TaskQuery = AllTasks | ByAuthor(authorId: Id) | ByExecutor(executorId: Id)

  predicate Selects(q: TaskQuery, row: TaskRow) {
    match q
    case AllTasks => true
    case ByAuthor(a) => row.authorId == a
    case ByExecutor(e) => row.executorId == Some(e)
  }

  /** The ids of the selected tasks from `lo` on, in increasing order. */
  function SelectedIds(db: Db, lo: Id, q: TaskQuery): (r: seq<Id>)
    decreases db.nextTaskId - lo
    ensures forall i | 0 <= i < |r| :: r[i] in db.tasks && lo <= r[i] && Selects(q, db.tasks[r[i]])
    ensures forall t | t in db.tasks && lo <= t < db.nextTaskId && Selects(q, db.tasks[t]) :: t in r
    ensures forall i, j | 0 <= i < j < |r| :: r[i] < r[j]
  {
    if lo >= db.nextTaskId then []
    else if lo in db.tasks && Selects(q, db.tasks[lo]) then [lo] + SelectedIds(db, lo + 1, q)
    else SelectedIds(db, lo + 1, q)
  }

  /** The projections of the given stored tasks, in the given order. */
  function ProjectAll(db: Db, ids: seq<Id>): (r: seq<TaskDto>)
    requires StatusesValid(db.tasks)
    requires forall i | 0 <= i < |ids| :: ids[i] in db.tasks
  {
    seq(|ids|, i requires 0 <= i < |ids| => ProjectTask(db.users, ids[i], db.tasks[ids[i]]))
  }

  /** The selected tasks, projected, in id order. */
  function Select(db: Db, q: TaskQuery): (r: seq<TaskDto>)
    requires Valid(db)
    ensures ListsTasks(db, r, q)
  {
    var ids := SelectedIds(db, 1, q);
    var r := ProjectAll(db, ids);
    assert forall t | t in db.tasks && Selects(q, db.tasks[t]) :: exists i | 0 <= i < |r| :: r[i].id == t by {
      forall t | t in db.tasks && Selects(q, db.tasks[t])
        ensures exists i | 0 <= i < |r| :: r[i].id == t
      {
        assert t in ids;
        var k :| 0 <= k < |ids| && ids[k] == t;
        assert r[k].id == t;
      }
    }
    r
  }

  /** What a tasks read returns: every selected task exactly once, as
      projected, nothing else, in id order. */
  ghost predicate ListsTasks(db: Db, r: seq<TaskDto>, q: TaskQuery)
    requires StatusesValid(db.tasks)
  {
    && (forall i | 0 <= i < |r| ::
          && r[i].id in db.tasks
          && r[i] == ProjectTask(db.users, r[i].id, db.tasks[r[i].id])
          && Selects(q, db.tasks[r[i].id]))
    && (forall i, j | 0 <= i < j < |r| :: r[i].id < r[j].id)
    && (forall t | t in db.tasks && Selects(q, db.tasks[t]) :: exists i | 0 <= i < |r| :: r[i].id == t)
  }

  /** Every task; no order is promised, the model lists them by id. */
  function GetAllTasks(db: Db): (r: seq<TaskDto>)
    requires Valid(db)
    ensures ListsTasks(db, r, AllTasks)
  {
    Select(db, AllTasks)
  }

  /** Lookup by id: a non-positive id raises, an unknown one reads as absent. */
  function GetTaskById(db: Db, id: Id): (r: Outcome<Option<TaskDto>>)
    requires Valid(db)
    ensures id <= 0 ==> r == Err(ArgumentOutOfRange)
    ensures id > 0 ==> r.Ok? && (r.value.Some? <==> id in db.tasks)
    ensures r.Ok? && r.value.Some? ==> r.value.value == ProjectTask(db.users, id, db.tasks[id])
  {
    if id <= 0 then Err(ArgumentOutOfRange)
    else if id in db.tasks then Ok(Some(ProjectTask(db.users, id, db.tasks[id])))
    else Ok(None)
  }

  /** The tasks written by `authorId`; a non-positive id raises. */
  function GetTasksByAuthorId(db: Db, authorId: Id): (r: Outcome<seq<TaskDto>>)
    requires Valid(db)
    ensures authorId <= 0 ==> r == Err(ArgumentOutOfRange)
    ensures authorId > 0 ==> r.Ok? && ListsTasks(db, r.value, ByAuthor(authorId))
  {
    if authorId <= 0 then Err(ArgumentOutOfRange)
    else Ok(Select(db, ByAuthor(authorId)))
  }

  /** The tasks assigned to `executorId`; a non-positive id raises. */
  function GetTasksByExecutorId(db: Db, executorId: Id): (r: Outcome<seq<TaskDto>>)
    requires Valid(db)
    ensures executorId <= 0 ==> r == Err(ArgumentOutOfRange)
    ensures executorId > 0 ==> r.Ok? && ListsTasks(db, r.value, ByExecutor(executorId))
  {
    if executorId <= 0 then Err(ArgumentOutOfRange)
    else Ok(Select(db, ByExecutor(executorId)))
  }

  /** Creating a task and reading it back returns what was written: the
      dto's fields and status, the store's id and creation time, and the
      logins of its author and executor. */
  lemma CreateThenRead(db: Db, dto: TaskDto, now: Timestamp)
    requires Valid(db)
    requires ReferencesResolve(db.users, dto.authorId, dto.executorId)
    ensures CreateTask(db, dto, now).Ok?
    ensures
      var db' := CreateTask(db, dto, now).value;
      var read := GetTaskById(db', db.nextTaskId);
      && read.Ok? && read.value.Some?
      && read.value.value == TaskDto(
           db.nextTaskId, dto.title, dto.description, now, dto.status,
           dto.authorId, dto.executorId,
           db.users[dto.authorId].login,
           if dto.executorId.Some? then db.users[dto.executorId.value].login else "")
  {
    StatusCodeRoundTrip(dto.status);
  }
}

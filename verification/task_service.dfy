/** The tasks service: validates a create, a delete and a by-author read
    before reaching the store, passes updates through, and changes a task's
    status by reading the task and writing it back. */
module TaskService {
  import opened Wrappers
  import opened Text
  import opened Domain
  import opened Store
  import opened Projection
  import TaskRepository

  /** Create a task. A blank title or a blank description is refused before
      the store is reached; otherwise the store adds the row. */
  function CreateTask(db: Db, dto: TaskDto, now: Timestamp): (r: Outcome<Db>)
    requires Valid(db)
    ensures Blank(dto.title) || Blank(dto.description) ==> r == Err(Argument)
    ensures !Blank(dto.title) && !Blank(dto.description) ==>
      (r.Err? <==> !TaskRepository.ReferencesResolve(db.users, dto.authorId, dto.executorId))
    ensures r.Ok? ==>
      && Valid(r.value)
      && r.value.users == db.users
      && db.nextTaskId !in db.tasks
      && r.value.tasks == db.tasks[db.nextTaskId :=
           TaskRow(dto.title, dto.description, now, StatusCode(dto.status), dto.authorId, dto.executorId)]
  {
    if Blank(dto.title) then Err(Argument)
    else if Blank(dto.description) then Err(Argument)
    else TaskRepository.CreateTask(db, dto, now)
  }

  /** Delete a task; a non-positive id is refused by the service itself. */
  function DeleteTask(db: Db, id: Id): (r: Outcome<Db>)
    requires Valid(db)
    ensures id <= 0 ==> r == Err(Argument)
    ensures id > 0 ==> r.Ok? && Valid(r.value) && r.value.users == db.users && r.value.tasks == db.tasks - {id}
  {
    if id <= 0 then Err(Argument)
    else TaskRepository.DeleteTask(db, id)
  }

  function GetAllTasks(db: Db): (r: seq<TaskDto>)
    requires Valid(db)
    ensures TaskRepository.ListsTasks(db, r, TaskRepository.AllTasks)
  {
    TaskRepository.GetAllTasks(db)
  }

  /** The tasks of an author; the service refuses a non-positive id. */
  function GetTasksByAuthorId(db: Db, authorId: Id): (r: Outcome<seq<TaskDto>>)
    requires Valid(db)
    ensures authorId <= 0 ==> r == Err(Argument)
    ensures authorId > 0 ==> r.Ok? && TaskRepository.ListsTasks(db, r.value, TaskRepository.ByAuthor(authorId))
  {
    if authorId <= 0 then Err(Argument)
    else TaskRepository.GetTasksByAuthorId(db, authorId)
  }

  /** The tasks of an executor; no service check, so a non-positive id
      reaches the store and raises there. */
  function GetTasksByExecutorId(db: Db, executorId: Id): (r: Outcome<seq<TaskDto>>)
    requires Valid(db)
    ensures executorId <= 0 ==> r == Err(ArgumentOutOfRange)
    ensures executorId > 0 ==> r.Ok? && TaskRepository.ListsTasks(db, r.value, TaskRepository.ByExecutor(executorId))
  {
    TaskRepository.GetTasksByExecutorId(db, executorId)
  }

  /** Update a task with no validation: a blank title or description is
      written like any other, and the author and creation date are kept. */
  function UpdateTask(db: Db, dto: TaskDto): (r: Outcome<Db>)
    requires Valid(db)
    ensures dto.id <= 0 ==> r == Err(ArgumentOutOfRange)
    ensures dto.id > 0 && dto.id !in db.tasks ==> r == Ok(db)
    ensures dto.id > 0 && dto.id in db.tasks ==>
      (r.Ok? <==> dto.executorId.None? || dto.executorId.value in db.users)
    ensures r.Ok? && dto.id in db.tasks ==>
      && r.value.users == db.users
      && r.value.tasks == db.tasks[dto.id := db.tasks[dto.id].(
           title := dto.title, description := dto.description,
           status := StatusCode(dto.status), executorId := dto.executorId)]
  {
    TaskRepository.UpdateTask(db, dto)
  }

  /** Change a task's status by reading it and writing it back. A
      non-positive id raises in the read; an unknown id is a no-op; otherwise
      the status is the only stored field that changes. */
  function UpdateTaskStatus(db: Db, id: Id, status: TaskStatus): (r: Outcome<Db>)
    requires Valid(db)
    ensures id <= 0 ==> r == Err(ArgumentOutOfRange)
    ensures id > 0 && id !in db.tasks ==> r == Ok(db)
    ensures id > 0 && id in db.tasks ==>
      r == Ok(db.(tasks := db.tasks[id := db.tasks[id].(status := StatusCode(status))]))
    ensures r.Ok? ==> Valid(r.value)
  {
    match TaskRepository.GetTaskById(db, id)
    case Err(e) => Err(e)
    case Ok(None) => Ok(db)
    case Ok(Some(model)) =>
      TaskProjectionFaithful(db, id);
      TaskRepository.UpdateTask(db, model.(status := status))
  }

  /** Applying the same status change twice is the same as applying it once. */
  lemma StatusUpdateIdempotent(db: Db, id: Id, status: TaskStatus)
    requires Valid(db)
    requires UpdateTaskStatus(db, id, status).Ok?
    ensures UpdateTaskStatus(UpdateTaskStatus(db, id, status).value, id, status) == UpdateTaskStatus(db, id, status)
  {
    var db1 := UpdateTaskStatus(db, id, status).value;
    if id in db.tasks {
      assert db1.tasks[id].status == StatusCode(status);
      assert db1.tasks[id := db1.tasks[id].(status := StatusCode(status))] == db1.tasks;
    }
  }

  /** Reading a task back after a status change gives the dto read before,
      with the new status and nothing else different. */
  lemma StatusUpdateReadBack(db: Db, id: Id, status: TaskStatus)
    requires Valid(db) && id > 0 && id in db.tasks
    ensures UpdateTaskStatus(db, id, status).Ok?
    ensures
      var before := TaskRepository.GetTaskById(db, id).value.value;
      var after := TaskRepository.GetTaskById(UpdateTaskStatus(db, id, status).value, id);
      after == Ok(Some(before.(status := status)))
  {
    StatusCodeRoundTrip(status);
  }
}

/** The ordinary user's tasks list: exactly the tasks assigned to the
    signed-in user, in the service's order, and a card per task whose save
    reloads the list. */
module UserListVm {
  import opened Wrappers
  import opened Domain
  import opened Store
  import opened Presentation
  import opened CurrentUser
  import opened UserCardVm
  import TaskService
  import TaskRepository

  datatype UserList = UserList(tasks: seq<TaskDto>, busy: bool, notice: Notice)

  function Initial(): (l: UserList)
    ensures CanRun(l)
  {
    UserList([], false, NoNotice)
  }

  predicate CanRun(l: UserList) {
    !l.busy
  }

  /** The card command needs an idle list and a selected task. */
  predicate CanCard(l: UserList, task: Option<TaskDto>) {
    !l.busy && task.Some?
  }

  /** Reload: the list is emptied, then filled with the user's assigned
      tasks; a non-positive id makes the store raise and leaves it empty. */
  function Reload(l: UserList, db: Db, userId: Id): (r: UserList)
    requires Valid(db)
    ensures userId > 0 ==> TaskRepository.ListsTasks(db, r.tasks, TaskRepository.ByExecutor(userId))
    ensures userId <= 0 ==> r.tasks == []
    ensures r.busy == l.busy && r.notice == l.notice
  {
    match TaskService.GetTasksByExecutorId(db, userId)
    case Ok(tasks) => l.(tasks := tasks)
    case Err(_) => l.(tasks := [])
  }

  /** The load command: the error line is cleared, then set when the reload
      fails; the busy flag is down afterwards. */
  function Load(l: UserList, db: Db, session: Session): (r: UserList)
    requires Valid(db)
    ensures !r.busy
    ensures r.tasks == Reload(l, db, session.userId).tasks
    ensures session.userId > 0 <==> r.notice == NoNotice
    ensures session.userId <= 0 ==> r.tasks == [] && r.notice == Failed(ArgumentOutOfRange)
  {
    var r := Reload(l.(busy := false, notice := NoNotice), db, session.userId);
    if session.userId <= 0 then r.(notice := Failed(ArgumentOutOfRange)) else r
  }

  /** The card command: no task, no card. */
  function ShowCard(l: UserList, task: Option<TaskDto>): (r: Option<UserCard>)
    ensures task.None? ==> r.None?
    ensures task.Some? ==> r == Some(LoadEdit(task.value)) && !CanSave(r.value)
  {
    if task.None? then None else Some(LoadEdit(task.value))
  }

  datatype CardStep = CardStep(list: UserList, card: UserCard, db: Db, closed: bool)

  /** A card's save followed by this list's reload and the card's closing; a
      failed reload shows its error on the card, which stays open. */
  function SaveCard(l: UserList, c: UserCard, db: Db, session: Session): (r: CardStep)
    requires Valid(db)
    ensures Valid(r.db)
    ensures var s := UserCardVm.Save(c, db);
      && r.db == s.db
      && (!s.saved ==> r.list == l && r.card == s.card && !r.closed)
      && (s.saved ==> r.list == Reload(l, s.db, session.userId))
      && (s.saved ==> (r.closed <==> session.userId > 0))
      && (s.saved && session.userId <= 0 ==> r.card.notice == Failed(ArgumentOutOfRange))
  {
    var s := UserCardVm.Save(c, db);
    if !s.saved then CardStep(l, s.card, db, false)
    else
      var list := Reload(l, s.db, session.userId);
      if session.userId <= 0 then CardStep(list, s.card.(notice := Failed(ArgumentOutOfRange)), s.db, false)
      else CardStep(list, s.card, s.db, true)
  }

  /** After a status change through the card, the reloaded list shows the
      task with its new status and everything else as before. */
  lemma {:induction false} SavedStatusIsListed(db: Db, session: Session, task: TaskDto, s: TaskStatus)
    requires Valid(db) && session.userId > 0
    requires task.id > 0 && task.id in db.tasks && db.tasks[task.id].executorId == Some(session.userId)
    ensures var step := SaveCard(Initial(), SelectStatus(LoadEdit(task), s), db, session);
      && step.closed
      && exists i | 0 <= i < |step.list.tasks| ::
           step.list.tasks[i] == TaskRepository.GetTaskById(db, task.id).value.value.(status := s)
  {
    var step := SaveCard(Initial(), SelectStatus(LoadEdit(task), s), db, session);
    var db' := step.db;
    assert db'.tasks[task.id] == db.tasks[task.id].(status := StatusCode(s));
    assert TaskRepository.Selects(TaskRepository.ByExecutor(session.userId), db'.tasks[task.id]);
    var i :| 0 <= i < |step.list.tasks| && step.list.tasks[i].id == task.id;
    TaskService.StatusUpdateReadBack(db, task.id, s);
    assert step.list.tasks[i] == TaskRepository.GetTaskById(db', task.id).value.value;
  }
}

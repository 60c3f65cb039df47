/** The ordinary user's task card: everything is read-only except the
    status, and saving sends only the task id and the chosen status. A card
    is built afresh each time it is opened. */
module UserCardVm {
  import opened Domain
  import opened Store
  import opened Presentation
  import TaskService

  datatype UserCard = UserCard(
    taskId: Id,
    title: string,
    description: string,
    executorLogin: string,
    createDate: Timestamp,
    original: TaskStatus,
    selected: TaskStatus,
    busy: bool,
    notice: Notice)

  /** The status fields start at the enumeration's zero, New. */
  function Fresh(): UserCard {
    UserCard(0, "", "", "", UnsetDate, New, New, false, NoNotice)
  }

  predicate CanCancel(c: UserCard) {
    !c.busy
  }

  /** Saving needs a real task and a status other than the loaded one. */
  predicate CanSave(c: UserCard) {
    !c.busy && c.taskId > 0 && c.selected != c.original
  }

  /** Fill the card from `task`; the loaded status is remembered and
      selected, so nothing can be saved yet. */
  function LoadEdit(task: TaskDto): (r: UserCard)
    ensures r.taskId == task.id && r.title == task.title && r.description == task.description
    ensures r.executorLogin == task.executorLogin && r.createDate == task.createDate
    ensures r.original == task.status && r.selected == task.status
    ensures !CanSave(r) && CanCancel(r)
  {
    Fresh().(taskId := task.id, title := task.title, description := task.description,
             executorLogin := task.executorLogin, createDate := task.createDate,
             original := task.status, selected := task.status)
  }

  /** The status picker is the card's only writable field. */
  function SelectStatus(c: UserCard, s: TaskStatus): (r: UserCard)
    ensures r == c.(selected := s)
    ensures CanSave(r) <==> !c.busy && c.taskId > 0 && s != c.original
  {
    c.(selected := s)
  }

  datatype CardSaved = CardSaved(card: UserCard, db: Db, saved: bool)

  /** Save sends the task id and the selected status to the status update:
      on success only that task's status has changed in the store; on
      failure the error is shown and the store is unchanged. Closing after a
      success is up to the owner, which reloads its list first. */
  function Save(c: UserCard, db: Db): (r: CardSaved)
    requires Valid(db)
    ensures !r.card.busy && Valid(r.db) && r.db.users == db.users
    ensures c.taskId <= 0 ==> !r.saved && r.db == db && r.card.notice == Failed(ArgumentOutOfRange)
    ensures c.taskId > 0 ==> r.saved && r.card == c.(busy := false, notice := NoNotice)
    ensures c.taskId > 0 && c.taskId !in db.tasks ==> r.db == db
    ensures c.taskId > 0 && c.taskId in db.tasks ==>
      && r.db.tasks.Keys == db.tasks.Keys
      && r.db.tasks[c.taskId] == db.tasks[c.taskId].(status := StatusCode(c.selected))
      && forall t | t in db.tasks && t != c.taskId :: r.db.tasks[t] == db.tasks[t]
  {
    var cleared := c.(notice := NoNotice);
    match TaskService.UpdateTaskStatus(db, c.taskId, c.selected)
    case Ok(db') => CardSaved(cleared.(busy := false), db', true)
    case Err(e) => CardSaved(cleared.(busy := false, notice := Failed(e)), db, false)
  }
}

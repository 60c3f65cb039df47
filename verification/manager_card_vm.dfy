/** The manager's task card: load for create or edit (offering only users
    with role User as executors), the command predicates, and save through
    the tasks service. A card is built afresh each time it is opened. */
module ManagerCardVm {
  import opened Wrappers
  import opened Text
  import opened Domain
  import opened Store
  import opened Presentation
  import opened CurrentUser
  import UserService
  import UserRepository
  import TaskService

  datatype ManagerCard = ManagerCard(
    createMode: bool,
    taskId: Id,
    authorId: Id,
    createDate: Timestamp,
    title: string,
    description: string,
    status: TaskStatus,
    executors: seq<UserDto>,
    selected: Option<UserDto>,
    busy: bool,
    notice: Notice)

  function Fresh(): ManagerCard {
    ManagerCard(false, 0, 0, UnsetDate, "", "", New, [], None, false, NoNotice)
  }

  predicate CanCancel(c: ManagerCard) {
    !c.busy
  }

  /** A title and an executor are required, and an edit needs a real id. */
  predicate CanSave(c: ManagerCard) {
    && !c.busy
    && !Blank(c.title)
    && c.selected.Some?
    && (c.createMode || c.taskId > 0)
  }

  /** Offer the users with role User and preselect the default. */
  function LoadExecutors(c: ManagerCard, db: Db, preferred: Id): (r: ManagerCard)
    requires Valid(db)
    ensures UserRepository.ListsUsers(db, r.executors, Some(User))
    ensures forall i | 0 <= i < |r.executors| :: r.executors[i].role == User
    ensures r.selected == DefaultExecutor(r.executors, preferred)
    ensures !r.busy && r.notice == NoNotice
    ensures r == c.(executors := r.executors, selected := r.selected, busy := false, notice := NoNotice)
  {
    var users := UserService.GetUsersByRole(db, User);
    c.(executors := users, selected := DefaultExecutor(users, preferred), busy := false, notice := NoNotice)
  }

  /** A create card: the signed-in user is the author and the preferred
      executor, the date is the moment of opening, title and description are
      empty and the status is New. */
  function LoadCreate(db: Db, session: Session, now: Timestamp): (r: ManagerCard)
    requires Valid(db)
    ensures r.createMode && r.taskId == 0 && r.authorId == session.userId && r.createDate == now
    ensures r.title == "" && r.description == "" && r.status == New
    ensures UserRepository.ListsUsers(db, r.executors, Some(User))
    ensures r.selected == DefaultExecutor(r.executors, session.userId)
    ensures !CanSave(r)
  {
    var c := Fresh().(createMode := true, taskId := 0, authorId := session.userId, createDate := now,
                      title := "", description := "", status := New);
    LoadExecutors(c, db, session.userId)
  }

  /** An edit card filled from `task`; its executor is preferred, or id 0
      (no one) when it has none. */
  function LoadEdit(db: Db, task: TaskDto): (r: ManagerCard)
    requires Valid(db)
    ensures !r.createMode && r.taskId == task.id && r.authorId == task.authorId && r.createDate == task.createDate
    ensures r.title == task.title && r.description == task.description && r.status == task.status
    ensures UserRepository.ListsUsers(db, r.executors, Some(User))
    ensures r.selected == DefaultExecutor(r.executors, task.executorId.GetOr(0))
  {
    var c := Fresh().(createMode := false, taskId := task.id, authorId := task.authorId,
                      createDate := task.createDate, title := task.title,
                      description := task.description, status := task.status);
    LoadExecutors(c, db, task.executorId.GetOr(0))
  }

  /** The dto the card sends, built from its fields. */
  function Sent(c: ManagerCard): TaskDto
    requires c.selected.Some?
  {
    TaskDto(c.taskId, c.title, c.description, c.createDate, c.status, c.authorId, Some(c.selected.value.id), "", "")
  }

  /** What the tasks service makes of the save, as a store outcome. With no
      executor selected the dto cannot be built. */
  function Submit(c: ManagerCard, db: Db, now: Timestamp): (r: Outcome<Db>)
    requires Valid(db)
    ensures r.Ok? ==> Valid(r.value) && r.value.users == db.users
    ensures c.selected.None? ==> r == Err(NullReference)
    ensures c.selected.Some? && c.createMode ==>
      && (Blank(c.title) || Blank(c.description) ==> r == Err(Argument))
      && (!Blank(c.title) && !Blank(c.description) ==>
            (r.Ok? <==> c.authorId in db.users && c.selected.value.id in db.users))
      && (r.Ok? ==>
            r.value.tasks == db.tasks[db.nextTaskId :=
              TaskRow(c.title, c.description, now, StatusCode(c.status), c.authorId, Some(c.selected.value.id))])
    ensures c.selected.Some? && !c.createMode ==>
      && (c.taskId <= 0 ==> r == Err(ArgumentOutOfRange))
      && (c.taskId > 0 && c.taskId !in db.tasks ==> r == Ok(db))
      && (c.taskId > 0 && c.taskId in db.tasks ==>
            && (r.Ok? <==> c.selected.value.id in db.users)
            && (r.Ok? ==> r.value.tasks == db.tasks[c.taskId := db.tasks[c.taskId].(
                 title := c.title, description := c.description,
                 status := StatusCode(c.status), executorId := Some(c.selected.value.id))]))
  {
    if c.selected.None? then Err(NullReference)
    else if c.createMode then TaskService.CreateTask(db, Sent(c), now)
    else TaskService.UpdateTask(db, Sent(c))
  }

  datatype CardSaved = CardSaved(card: ManagerCard, db: Db, saved: bool)

  /** Save: the error line is cleared; on failure the error is shown and the
      store is unchanged. Closing after a success is up to the owner, which
      reloads its list first. The busy flag is down afterwards. */
  function Save(c: ManagerCard, db: Db, now: Timestamp): (r: CardSaved)
    requires Valid(db)
    ensures !r.card.busy && Valid(r.db)
    ensures r.saved <==> Submit(c, db, now).Ok?
    ensures r.saved ==> r.db == Submit(c, db, now).value && r.card == c.(busy := false, notice := NoNotice)
    ensures !r.saved ==> r.db == db && r.card == c.(busy := false, notice := Failed(Submit(c, db, now).error))
  {
    var cleared := c.(notice := NoNotice);
    match Submit(c, db, now)
    case Ok(db') => CardSaved(cleared.(busy := false), db', true)
    case Err(e) => CardSaved(cleared.(busy := false, notice := Failed(e)), db, false)
  }

  /** A create card saved with only a title typed in never creates: with
      an executor preselected the service refuses the empty description,
      and with none the dto cannot be built. */
  lemma CreateWithTitleOnlyFails(db: Db, session: Session, openedAt: Timestamp, title: string, now: Timestamp)
    requires Valid(db)
    ensures var c := LoadCreate(db, session, openedAt).(title := title);
      && !Save(c, db, now).saved
      && Save(c, db, now).db == db
      && Save(c, db, now).card.notice == Failed(if c.selected.Some? then Argument else NullReference)
  {
  }
}

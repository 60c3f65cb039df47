/** The manager's tasks list: the tasks the signed-in user wrote followed by
    the tasks assigned to them, with no duplicates removed; opening cards for
    create and edit, deleting after confirmation, and reloading after a card
    saves. */
module ManagerListVm {
  import opened Wrappers
  import opened Domain
  import opened Store
  import opened Presentation
  import opened CurrentUser
  import opened ManagerCardVm
  import TaskService
  import TaskRepository

  datatype ManagerList = ManagerList(tasks: seq<TaskDto>, busy: bool, notice: Notice)

  function Initial(): (l: ManagerList)
    ensures CanRun(l)
  {
    ManagerList([], false, NoNotice)
  }

  /** Load and create need an idle list. */
  predicate CanRun(l: ManagerList) {
    !l.busy
  }

  /** Edit, delete and card also need a selected task. */
  predicate CanTaskRun(l: ManagerList, task: Option<TaskDto>) {
    !l.busy && task.Some?
  }

  /** The user's tasks as the list shows them: authored ones first, then
      assigned ones. The service refuses a non-positive id. */
  function Fetch(db: Db, userId: Id): (r: Outcome<seq<TaskDto>>)
    requires Valid(db)
    ensures userId <= 0 ==> r == Err(Argument)
    ensures userId > 0 ==> r.Ok?
    ensures r.Ok? ==> exists k | 0 <= k <= |r.value| ::
      && TaskRepository.ListsTasks(db, r.value[..k], TaskRepository.ByAuthor(userId))
      && TaskRepository.ListsTasks(db, r.value[k..], TaskRepository.ByExecutor(userId))
  {
    match TaskService.GetTasksByAuthorId(db, userId)
    case Err(e) => Err(e)
    case Ok(authored) =>
      match TaskService.GetTasksByExecutorId(db, userId)
      case Err(e) => Err(e)
      case Ok(executed) =>
        var all := authored + executed;
        assert all[..|authored|] == authored && all[|authored|..] == executed;
        Ok(all)
  }

  /** The list is emptied before fetching, so a failed fetch leaves it empty. */
  function Refresh(l: ManagerList, fetched: Outcome<seq<TaskDto>>): (r: ManagerList)
    ensures fetched.Ok? ==> r.tasks == fetched.value
    ensures fetched.Err? ==> r.tasks == []
    ensures r.busy == l.busy && r.notice == l.notice
  {
    l.(tasks := if fetched.Ok? then fetched.value else [])
  }

  /** The load command: the error line is cleared, then set when the fetch
      fails; a non-positive user id always fails and leaves the list empty. */
  function Load(l: ManagerList, db: Db, session: Session): (r: ManagerList)
    requires Valid(db)
    ensures !r.busy
    ensures var fetched := Fetch(db, session.userId);
      && (fetched.Ok? ==> r.tasks == fetched.value && r.notice == NoNotice)
      && (fetched.Err? ==> r.tasks == [] && r.notice == Failed(fetched.error))
    ensures session.userId <= 0 ==> r.tasks == [] && r.notice == Failed(Argument)
  {
    var fetched := Fetch(db, session.userId);
    var r := Refresh(l.(busy := false, notice := NoNotice), fetched);
    if fetched.Err? then r.(notice := Failed(fetched.error)) else r
  }

  datatype Opened = Opened(list: ManagerList, card: Option<ManagerCard>)

  /** The create command opens a create card; the list itself is untouched. */
  function OpenCreate(l: ManagerList, db: Db, session: Session, now: Timestamp): (r: Opened)
    requires Valid(db)
    ensures r.list == l && r.card == Some(LoadCreate(db, session, now))
  {
    Opened(l, Some(LoadCreate(db, session, now)))
  }

  /** The edit and card commands: the error line is cleared and, for a
      selected task, an edit card for it opens. */
  function OpenEdit(l: ManagerList, db: Db, task: Option<TaskDto>): (r: Opened)
    requires Valid(db)
    ensures r.list.tasks == l.tasks && r.list.notice == NoNotice
    ensures task.None? ==> r.card.None? && r.list.busy == l.busy
    ensures task.Some? ==> r.card == Some(LoadEdit(db, task.value)) && !r.list.busy
  {
    var cleared := l.(notice := NoNotice);
    if task.None? then Opened(cleared, None)
    else Opened(cleared.(busy := false), Some(LoadEdit(db, task.value)))
  }

  datatype Step = Step(list: ManagerList, db: Db)

  /** Delete: the error line is cleared; with no task or a declined
      confirmation nothing else happens; otherwise the service deletes and
      the list reloads, and a failure of either is shown. */
  function Delete(l: ManagerList, db: Db, session: Session, task: Option<TaskDto>, confirmed: bool): (r: Step)
    requires Valid(db)
    ensures Valid(r.db)
    ensures task.None? || !confirmed ==> r == Step(l.(notice := NoNotice), db)
    ensures task.Some? && confirmed ==>
      && !r.list.busy
      && (task.value.id <= 0 ==> r == Step(l.(busy := false, notice := Failed(Argument)), db))
      && (task.value.id > 0 ==>
            && r.db == db.(tasks := db.tasks - {task.value.id})
            && r.list == Load(l, r.db, session))
  {
    var cleared := l.(notice := NoNotice);
    if task.None? || !confirmed then Step(cleared, db)
    else
      match TaskService.DeleteTask(db, task.value.id)
      case Err(e) => Step(cleared.(busy := false, notice := Failed(e)), db)
      case Ok(db') => Step(Load(cleared, db', session), db')
  }

  datatype CardStep = CardStep(list: ManagerList, card: ManagerCard, db: Db, closed: bool)

  /** A card's save followed by this list's reload and the card's closing. A
      reload that fails shows its error on the card, which stays open, even
      though the save itself went through. */
  function SaveCard(l: ManagerList, c: ManagerCard, db: Db, session: Session, now: Timestamp): (r: CardStep)
    requires Valid(db)
    ensures Valid(r.db)
    ensures var s := ManagerCardVm.Save(c, db, now);
      && r.db == s.db
      && (!s.saved ==> r.list == l && r.card == s.card && !r.closed)
      && (s.saved ==>
            var fetched := Fetch(s.db, session.userId);
            && r.list == Refresh(l, fetched)
            && (r.closed <==> fetched.Ok?)
            && (fetched.Err? ==> r.card == s.card.(notice := Failed(fetched.error))))
  {
    var s := ManagerCardVm.Save(c, db, now);
    if !s.saved then CardStep(l, s.card, db, false)
    else
      var fetched := Fetch(s.db, session.userId);
      var list := Refresh(l, fetched);
      if fetched.Err? then CardStep(list, s.card.(notice := Failed(fetched.error)), s.db, false)
      else CardStep(list, s.card, s.db, true)
  }

  /** A task the user both wrote and executes is listed twice. */
  lemma {:induction false} NoDeduplication(db: Db, session: Session, t: Id)
    requires Valid(db) && session.userId > 0
    requires t in db.tasks && db.tasks[t].authorId == session.userId && db.tasks[t].executorId == Some(session.userId)
    ensures var shown := Load(Initial(), db, session).tasks;
      exists i, j | 0 <= i < j < |shown| :: shown[i].id == t && shown[j].id == t
  {
    var shown := Load(Initial(), db, session).tasks;
    var k :| 0 <= k <= |shown|
      && TaskRepository.ListsTasks(db, shown[..k], TaskRepository.ByAuthor(session.userId))
      && TaskRepository.ListsTasks(db, shown[k..], TaskRepository.ByExecutor(session.userId));
    InBothHalves(db, shown, k, session.userId, t);
  }

  lemma InBothHalves(db: Db, shown: seq<TaskDto>, k: int, userId: Id, t: Id)
    requires StatusesValid(db.tasks) && 0 <= k <= |shown|
    requires TaskRepository.ListsTasks(db, shown[..k], TaskRepository.ByAuthor(userId))
    requires TaskRepository.ListsTasks(db, shown[k..], TaskRepository.ByExecutor(userId))
    requires t in db.tasks && db.tasks[t].authorId == userId && db.tasks[t].executorId == Some(userId)
    ensures exists i, j | 0 <= i < j < |shown| :: shown[i].id == t && shown[j].id == t
  {
    assert TaskRepository.Selects(TaskRepository.ByAuthor(userId), db.tasks[t]);
    assert TaskRepository.Selects(TaskRepository.ByExecutor(userId), db.tasks[t]);
    var i :| 0 <= i < k && shown[..k][i].id == t;
    var j :| 0 <= j < |shown| - k && shown[k..][j].id == t;
    assert shown[..k][i] == shown[i] && shown[k..][j] == shown[k + j];
    assert 0 <= i < k + j < |shown| && shown[i].id == t && shown[k + j].id == t;
  }

  /** The tasks of `userId`: written by or assigned to them. */
  predicate Involves(row: TaskRow, userId: Id) {
    row.authorId == userId || row.executorId == Some(userId)
  }

  /** Every listed task involves the user, and every task that involves the
      user is listed. */
  lemma {:induction false} ListedTasksBelongToUser(db: Db, session: Session)
    requires Valid(db) && session.userId > 0
    ensures var shown := Load(Initial(), db, session).tasks;
      && (forall i | 0 <= i < |shown| :: shown[i].id in db.tasks && Involves(db.tasks[shown[i].id], session.userId))
      && (forall t | t in db.tasks && Involves(db.tasks[t], session.userId) ::
            exists i | 0 <= i < |shown| :: shown[i].id == t)
  {
    var shown := Load(Initial(), db, session).tasks;
    var k :| 0 <= k <= |shown|
      && TaskRepository.ListsTasks(db, shown[..k], TaskRepository.ByAuthor(session.userId))
      && TaskRepository.ListsTasks(db, shown[k..], TaskRepository.ByExecutor(session.userId));
    HalvesSound(db, shown, k, session.userId);
    HalvesComplete(db, shown, k, session.userId);
  }

  lemma HalvesSound(db: Db, shown: seq<TaskDto>, k: int, userId: Id)
    requires StatusesValid(db.tasks) && 0 <= k <= |shown|
    requires TaskRepository.ListsTasks(db, shown[..k], TaskRepository.ByAuthor(userId))
    requires TaskRepository.ListsTasks(db, shown[k..], TaskRepository.ByExecutor(userId))
    ensures forall i | 0 <= i < |shown| :: shown[i].id in db.tasks && Involves(db.tasks[shown[i].id], userId)
  {
    forall i | 0 <= i < |shown|
      ensures shown[i].id in db.tasks && Involves(db.tasks[shown[i].id], userId)
    {
      if i < k {
        assert shown[..k][i] == shown[i];
      } else {
        assert shown[k..][i - k] == shown[i];
      }
    }
  }

  lemma HalvesComplete(db: Db, shown: seq<TaskDto>, k: int, userId: Id)
    requires StatusesValid(db.tasks) && 0 <= k <= |shown|
    requires TaskRepository.ListsTasks(db, shown[..k], TaskRepository.ByAuthor(userId))
    requires TaskRepository.ListsTasks(db, shown[k..], TaskRepository.ByExecutor(userId))
    ensures forall t | t in db.tasks && Involves(db.tasks[t], userId) :: exists i | 0 <= i < |shown| :: shown[i].id == t
  {
    forall t | t in db.tasks && Involves(db.tasks[t], userId)
      ensures exists i | 0 <= i < |shown| :: shown[i].id == t
    {
      if db.tasks[t].authorId == userId {
        assert TaskRepository.Selects(TaskRepository.ByAuthor(userId), db.tasks[t]);
        var i :| 0 <= i < k && shown[..k][i].id == t;
        assert shown[i].id == t;
      } else {
        assert TaskRepository.Selects(TaskRepository.ByExecutor(userId), db.tasks[t]);
        var j :| 0 <= j < |shown| - k && shown[k..][j].id == t;
        assert shown[k + j].id == t;
      }
    }
  }
}

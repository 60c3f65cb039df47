/** The administrator's create/edit task form: show for create or edit
    (loading every user as a possible executor), hide, the command
    predicates, and save through the tasks service. The administrator's id
    is read once, when the form is built. */
module TaskFormVm {
  import opened Wrappers
  import opened Text
  import opened Domain
  import opened Store
  import opened Presentation
  import UserService
  import UserRepository
  import TaskService

  datatype TaskForm = TaskForm(
    visible: bool,
    editMode: bool,
    editTaskId: Id,
    title: string,
    description: string,
    status: TaskStatus,
    executors: seq<UserDto>,
    selected: Option<UserDto>,
    busy: bool,
    notice: Notice,
    adminId: Id)

  function Initial(adminId: Id): (f: TaskForm)
    ensures CanShow(f) && !CanSave(f) && f.adminId == adminId
  {
    TaskForm(false, false, 0, "", "", New, [], None, false, NoNotice, adminId)
  }

  predicate CanShow(f: TaskForm) {
    !f.busy && !f.visible
  }

  predicate CanCancel(f: TaskForm) {
    !f.busy && f.visible
  }

  /** Only the title is checked: the description and the executor are not. */
  predicate CanSave(f: TaskForm) {
    !f.busy && f.visible && !Blank(f.title)
  }

  /** Load every user as a candidate executor and preselect the default. */
  function LoadExecutors(f: TaskForm, db: Db, preferred: Id): (r: TaskForm)
    requires Valid(db)
    ensures UserRepository.ListsUsers(db, r.executors, None)
    ensures r.selected == DefaultExecutor(r.executors, preferred)
    ensures r.selected.None? <==> db.users == map[]
    ensures !r.busy && r.notice == NoNotice
    ensures r == f.(executors := r.executors, selected := r.selected, busy := false, notice := NoNotice)
  {
    var users := UserService.GetAllUsers(db);
    assert db.users != map[] ==> users != [] by {
      if db.users != map[] {
        var u :| u in db.users;
        assert UserRepository.HasRole(db.users[u], None);
      }
    }
    f.(executors := users, selected := DefaultExecutor(users, preferred), busy := false, notice := NoNotice)
  }

  /** An empty create form, shown, with the administrator preferred as executor. */
  function ShowCreate(f: TaskForm, db: Db): (r: TaskForm)
    requires Valid(db)
    ensures r.visible && !r.editMode && r.editTaskId == 0
    ensures r.title == "" && r.description == "" && r.status == New && r.adminId == f.adminId
    ensures UserRepository.ListsUsers(db, r.executors, None)
    ensures r.selected == DefaultExecutor(r.executors, f.adminId)
    ensures !CanSave(r) && CanCancel(r)
  {
    var shown := f.(editMode := false, editTaskId := 0, title := "", description := "", status := New, visible := true);
    LoadExecutors(shown, db, f.adminId)
  }

  /** The form filled from `task`, shown; its executor is preferred, or the
      administrator when it has none. */
  function ShowEdit(f: TaskForm, db: Db, task: TaskDto): (r: TaskForm)
    requires Valid(db)
    ensures r.visible && r.editMode && r.editTaskId == task.id
    ensures r.title == task.title && r.description == task.description && r.status == task.status
    ensures r.adminId == f.adminId
    ensures UserRepository.ListsUsers(db, r.executors, None)
    ensures r.selected == DefaultExecutor(r.executors, task.executorId.GetOr(f.adminId))
    ensures CanSave(r) <==> !Blank(task.title)
  {
    var shown := f.(editMode := true, editTaskId := task.id, title := task.title,
                    description := task.description, status := task.status, visible := true);
    LoadExecutors(shown, db, task.executorId.GetOr(f.adminId))
  }

  /** Hidden and reset: fields, candidates, selection, edit mode and id. */
  function Hide(f: TaskForm): (r: TaskForm)
    ensures !r.visible && !r.editMode && r.editTaskId == 0
    ensures r.title == "" && r.description == "" && r.status == New
    ensures r.executors == [] && r.selected.None?
    ensures r.busy == f.busy && r.notice == f.notice && r.adminId == f.adminId
  {
    f.(visible := false, title := "", description := "", status := New, executors := [],
       selected := None, editMode := false, editTaskId := 0)
  }

  /** A blank description is sent as "". */
  function SentDescription(description: string): (r: string)
    ensures Blank(r) <==> Blank(description)
    ensures !Blank(description) ==> r == description
  {
    if Blank(description) then "" else description
  }

  /** What the tasks service makes of the save, as a store outcome. A create
      always sends status New and the administrator as author. */
  function Submit(f: TaskForm, db: Db, now: Timestamp): (r: Outcome<Db>)
    requires Valid(db)
    ensures r.Ok? ==> Valid(r.value) && r.value.users == db.users
    ensures f.selected.None? ==> r == Err(Argument)
    ensures f.selected.Some? && !f.editMode ==>
      && (Blank(f.title) || Blank(f.description) ==> r == Err(Argument))
      && (!Blank(f.title) && !Blank(f.description) ==>
            (r.Ok? <==> f.adminId in db.users && f.selected.value.id in db.users))
      && (r.Ok? ==>
            r.value.tasks == db.tasks[db.nextTaskId :=
              TaskRow(f.title, f.description, now, StatusCode(New), f.adminId, Some(f.selected.value.id))])
    ensures f.selected.Some? && f.editMode ==>
      && (f.editTaskId <= 0 ==> r == Err(ArgumentOutOfRange))
      && (f.editTaskId > 0 && f.editTaskId !in db.tasks ==> r == Ok(db))
      && (f.editTaskId > 0 && f.editTaskId in db.tasks ==>
            && (r.Ok? <==> f.selected.value.id in db.users)
            && (r.Ok? ==> r.value.tasks == db.tasks[f.editTaskId := db.tasks[f.editTaskId].(
                 title := f.title, description := SentDescription(f.description),
                 status := StatusCode(f.status), executorId := Some(f.selected.value.id))]))
  {
    if f.selected.None? then Err(Argument)
    else if !f.editMode then
      TaskService.CreateTask(db, TaskDto(0, f.title, SentDescription(f.description), UnsetDate, New,
                                         f.adminId, Some(f.selected.value.id), "", ""), now)
    else
      TaskService.UpdateTask(db, TaskDto(f.editTaskId, f.title, SentDescription(f.description), UnsetDate,
                                         f.status, f.adminId, Some(f.selected.value.id), "", ""))
  }

  datatype FormSaved = FormSaved(form: TaskForm, db: Db, saved: bool)

  /** Save: the error line is cleared; on success the form hides (the owner
      then reloads its list); on failure the error is shown, the form keeps
      its fields and the store is unchanged. The busy flag is down afterwards. */
  function Save(f: TaskForm, db: Db, now: Timestamp): (r: FormSaved)
    requires Valid(db)
    ensures !r.form.busy && Valid(r.db)
    ensures r.saved <==> Submit(f, db, now).Ok?
    ensures r.saved ==> r.db == Submit(f, db, now).value && r.form == Hide(f).(busy := false, notice := NoNotice)
    ensures !r.saved ==> r.db == db && r.form == f.(busy := false, notice := Failed(Submit(f, db, now).error))
  {
    var cleared := f.(notice := NoNotice);
    match Submit(f, db, now)
    case Ok(db') => FormSaved(Hide(cleared).(busy := false), db', true)
    case Err(e) => FormSaved(cleared.(busy := false, notice := Failed(e)), db, false)
  }

  /** The save button accepts a blank description, but creating with one
      always fails with the service's argument error and stores nothing. */
  lemma BlankDescriptionNeverCreates(f: TaskForm, db: Db, now: Timestamp)
    requires Valid(db) && !f.editMode && Blank(f.description)
    ensures !Save(f, db, now).saved
    ensures Save(f, db, now).db == db
    ensures Save(f, db, now).form.notice == Failed(Argument)
  {
  }

  /** A freshly shown create form whose only edit is a title can be saved
      according to the button, yet the save fails. */
  lemma CreateWithTitleOnlyFails(f: TaskForm, db: Db, title: string, now: Timestamp)
    requires Valid(db) && !f.busy && !Blank(title)
    ensures CanSave(ShowCreate(f, db).(title := title))
    ensures Save(ShowCreate(f, db).(title := title), db, now).form.notice == Failed(Argument)
  {
    BlankDescriptionNeverCreates(ShowCreate(f, db).(title := title), db, now);
  }

  /** Editing, by contrast, stores a blank description as "". */
  lemma EditStoresBlankDescription(f: TaskForm, db: Db, now: Timestamp)
    requires Valid(db) && f.editMode && Blank(f.description)
    requires f.selected.Some? && f.selected.value.id in db.users
    requires f.editTaskId > 0 && f.editTaskId in db.tasks
    ensures Save(f, db, now).saved
    ensures Save(f, db, now).db.tasks[f.editTaskId].description == ""
  {
  }
}

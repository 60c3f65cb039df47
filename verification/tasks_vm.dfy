/** The administrator's tasks list: load every task, search, edit through
    the task form, delete after confirmation, and reload after the form saves. */
module TasksVm {
  import opened Wrappers
  import opened Domain
  import opened Store
  import opened Presentation
  import opened SearchFilter
  import opened TaskFormVm
  import TaskService
  import TaskRepository

  datatype TasksList = TasksList(
    tasks: seq<TaskDto>,
    filtered: seq<TaskDto>,
    search: string,
    busy: bool,
    notice: Notice,
    form: TaskForm)

  /** The list on screen is the filter of the loaded tasks. */
  predicate Consistent(l: TasksList) {
    l.filtered == FilterTasks(l.tasks, l.search)
  }

  function Initial(adminId: Id): (l: TasksList)
    ensures Consistent(l) && CanLoad(l)
  {
    TasksList([], [], "", false, NoNotice, TaskFormVm.Initial(adminId))
  }

  predicate CanLoad(l: TasksList) {
    !l.busy
  }

  /** Edit and delete need an idle list and a selected task. */
  predicate CanEditOrDelete(l: TasksList, task: Option<TaskDto>) {
    !l.busy && task.Some?
  }

  /** Typing in the search box re-applies the filter. */
  function SetSearch(l: TasksList, text: string): (r: TasksList)
    ensures Consistent(r) && r.search == text && r.tasks == l.tasks
    ensures r.busy == l.busy && r.notice == l.notice && r.form == l.form
  {
    l.(search := text, filtered := FilterTasks(l.tasks, text))
  }

  /** Replace the tasks with the service's list and re-apply the filter. */
  function Reload(l: TasksList, db: Db): (r: TasksList)
    requires Valid(db)
    ensures TaskRepository.ListsTasks(db, r.tasks, TaskRepository.AllTasks)
    ensures Consistent(r)
    ensures r.search == l.search && r.busy == l.busy && r.notice == l.notice && r.form == l.form
  {
    var tasks := TaskService.GetAllTasks(db);
    l.(tasks := tasks, filtered := FilterTasks(tasks, l.search))
  }

  /** The load command; the error line is left as it was. */
  function Load(l: TasksList, db: Db): (r: TasksList)
    requires Valid(db)
    ensures TaskRepository.ListsTasks(db, r.tasks, TaskRepository.AllTasks) && Consistent(r)
    ensures !r.busy && r.notice == l.notice
  {
    Reload(l.(busy := false), db)
  }

  /** Edit opens the form for the given task; no task, no change. */
  function Edit(l: TasksList, db: Db, task: Option<TaskDto>): (r: TasksList)
    requires Valid(db)
    ensures task.None? ==> r == l
    ensures task.Some? ==>
      && r == l.(busy := false, form := ShowEdit(l.form, db, task.value))
      && r.form.visible && r.form.editMode && r.form.editTaskId == task.value.id
    ensures Consistent(l) ==> Consistent(r)
  {
    if task.None? then l else l.(busy := false, form := ShowEdit(l.form, db, task.value))
  }

  datatype Step = Step(list: TasksList, db: Db)

  /** Delete: the error line is cleared; with no task or a declined
      confirmation nothing else happens; otherwise the service deletes and
      the list reloads, or the failure is shown and nothing changes. */
  function Delete(l: TasksList, db: Db, task: Option<TaskDto>, confirmed: bool): (r: Step)
    requires Valid(db)
    ensures Valid(r.db)
    ensures task.None? || !confirmed ==> r == Step(l.(notice := NoNotice), db)
    ensures task.Some? && confirmed ==>
      && !r.list.busy
      && (task.value.id <= 0 ==> r == Step(l.(busy := false, notice := Failed(Argument)), db))
      && (task.value.id > 0 ==>
            && r.db == db.(tasks := db.tasks - {task.value.id})
            && r.list.notice == NoNotice
            && TaskRepository.ListsTasks(r.db, r.list.tasks, TaskRepository.AllTasks))
    ensures Consistent(l) ==> Consistent(r.list)
  {
    var cleared := l.(notice := NoNotice);
    if task.None? || !confirmed then Step(cleared, db)
    else
      match TaskService.DeleteTask(db, task.value.id)
      case Err(e) => Step(cleared.(busy := false, notice := Failed(e)), db)
      case Ok(db') => Step(Reload(cleared.(busy := false), db'), db')
  }

  /** The form's save, followed on success by this list's reload. */
  function SaveForm(l: TasksList, db: Db, now: Timestamp): (r: Step)
    requires Valid(db)
    ensures Valid(r.db)
    ensures var s := TaskFormVm.Save(l.form, db, now);
      && r.db == s.db
      && r.list.form == s.form
      && (s.saved ==> TaskRepository.ListsTasks(r.db, r.list.tasks, TaskRepository.AllTasks))
      && (!s.saved ==> r.list.tasks == l.tasks)
    ensures Consistent(l) ==> Consistent(r.list)
  {
    var s := TaskFormVm.Save(l.form, db, now);
    if s.saved then Step(Reload(l.(form := s.form), s.db), s.db)
    else Step(l.(form := s.form), db)
  }
}

/** The administrator's users list: load, search, edit through the user
    form, delete after confirmation, and reload after the form saves. */
module UsersVm {
  import opened Wrappers
  import opened Domain
  import opened Store
  import opened Presentation
  import opened SearchFilter
  import opened PasswordHasher
  import opened UserFormVm
  import UserService
  import UserRepository

  datatype UsersList = UsersList(
    users: seq<UserDto>,
    filtered: seq<UserDto>,
    search: string,
    busy: bool,
    notice: Notice,
    form: UserForm)

  /** The list on screen is the filter of the loaded users. */
  predicate Consistent(l: UsersList) {
    l.filtered == FilterUsers(l.users, l.search)
  }

  function Initial(): (l: UsersList)
    ensures Consistent(l) && CanLoad(l)
  {
    UsersList([], [], "", false, NoNotice, UserFormVm.Initial())
  }

  predicate CanLoad(l: UsersList) {
    !l.busy
  }

  /** Edit and delete need an idle list and a selected user. */
  predicate CanEditOrDelete(l: UsersList, user: Option<UserDto>) {
    !l.busy && user.Some?
  }

  /** Typing in the search box re-applies the filter. */
  function SetSearch(l: UsersList, text: string): (r: UsersList)
    ensures Consistent(r) && r.search == text && r.users == l.users
    ensures r.busy == l.busy && r.notice == l.notice && r.form == l.form
  {
    l.(search := text, filtered := FilterUsers(l.users, text))
  }

  /** Replace the users with the service's list and re-apply the filter. */
  function Reload(l: UsersList, db: Db): (r: UsersList)
    requires Valid(db)
    ensures UserRepository.ListsUsers(db, r.users, None)
    ensures Consistent(r)
    ensures r.search == l.search && r.busy == l.busy && r.notice == l.notice && r.form == l.form
  {
    var users := UserService.GetAllUsers(db);
    l.(users := users, filtered := FilterUsers(users, l.search))
  }

  /** The load command; the error line is left as it was. */
  function Load(l: UsersList, db: Db): (r: UsersList)
    requires Valid(db)
    ensures UserRepository.ListsUsers(db, r.users, None) && Consistent(r)
    ensures !r.busy && r.notice == l.notice
  {
    Reload(l.(busy := false), db)
  }

  /** Edit opens the form in edit mode for the given user; no user, no change. */
  function Edit(l: UsersList, user: Option<UserDto>): (r: UsersList)
    ensures user.None? ==> r == l
    ensures user.Some? ==> r == l.(form := ShowEdit(l.form, user.value))
    ensures user.Some? ==> r.form.visible && r.form.editMode && r.form.editUserId == user.value.id
  {
    if user.None? then l else l.(form := ShowEdit(l.form, user.value))
  }

  datatype Step = Step(list: UsersList, db: Db)

  /** Delete: the error line is cleared; with no user or a declined
      confirmation nothing else happens; otherwise the service deletes and
      the list reloads, or the failure is shown and nothing changes. */
  function Delete(l: UsersList, db: Db, user: Option<UserDto>, confirmed: bool): (r: Step)
    requires Valid(db)
    ensures Valid(r.db)
    ensures user.Some? && confirmed ==> !r.list.busy
    ensures user.None? || !confirmed ==> r == Step(l.(notice := NoNotice), db)
    ensures user.Some? && confirmed ==>
      var outcome := UserService.DeleteUser(db, user.value.id);
      && (outcome.Err? ==> r == Step(l.(busy := false, notice := Failed(outcome.error)), db))
      && (outcome.Ok? ==>
            && r.db == outcome.value
            && r.list.notice == NoNotice
            && UserRepository.ListsUsers(r.db, r.list.users, None))
    ensures Consistent(l) ==> Consistent(r.list)
  {
    var cleared := l.(notice := NoNotice);
    if user.None? || !confirmed then Step(cleared, db)
    else
      match UserService.DeleteUser(db, user.value.id)
      case Err(e) => Step(cleared.(busy := false, notice := Failed(e)), db)
      case Ok(db') => Step(Reload(cleared.(busy := false), db'), db')
  }

  /** The form's save, followed on success by this list's reload. */
  function SaveForm(l: UsersList, db: Db, digest: Digest): (r: Step)
    requires Valid(db)
    ensures Valid(r.db)
    ensures var s := UserFormVm.Save(l.form, db, digest);
      && r.db == s.db
      && r.list.form == s.form
      && (s.saved ==> UserRepository.ListsUsers(r.db, r.list.users, None))
      && (!s.saved ==> r.list.users == l.users)
    ensures Consistent(l) ==> Consistent(r.list)
  {
    var s := UserFormVm.Save(l.form, db, digest);
    if s.saved then Step(Reload(l.(form := s.form), s.db), s.db)
    else Step(l.(form := s.form), db)
  }
}

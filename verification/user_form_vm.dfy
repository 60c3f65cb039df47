/** The administrator's create/edit user form: show for create or edit, hide,
    the command predicates, and save through the users service. */
module UserFormVm {
  import opened Wrappers
  import opened Text
  import opened Domain
  import opened Store
  import opened Presentation
  import opened PasswordHasher
  import UserService
  import AuthService
  import CurrentUser

  datatype UserForm = UserForm(
    visible: bool,
    editMode: bool,
    editUserId: Id,
    name: string,
    login: string,
    password: string,
    role: Role,
    busy: bool,
    notice: Notice)

  function Initial(): (f: UserForm)
    ensures CanShow(f) && !CanCancel(f) && !CanSave(f)
  {
    UserForm(false, false, 0, "", "", "", User, false, NoNotice)
  }

  predicate CanShow(f: UserForm) {
    !f.busy && !f.visible
  }

  predicate CanCancel(f: UserForm) {
    !f.busy && f.visible
  }

  /** Name and login are required; a password only when creating. */
  predicate CanSave(f: UserForm) {
    && !f.busy
    && f.visible
    && !Blank(f.name)
    && !Blank(f.login)
    && (f.editMode || !Blank(f.password))
  }

  /** An empty create form, shown. */
  function ShowCreate(f: UserForm): (r: UserForm)
    ensures r.visible && !r.editMode && r.editUserId == -1
    ensures r.name == "" && r.login == "" && r.password == "" && r.role == User
    ensures r.busy == f.busy && r.notice == f.notice
    ensures !f.busy ==> CanCancel(r) && !CanShow(r) && !CanSave(r)
  {
    f.(editMode := false, editUserId := -1, name := "", login := "", password := "", role := User, visible := true)
  }

  /** The form filled from `user` for editing; the password box starts empty,
      which on save keeps the stored password. */
  function ShowEdit(f: UserForm, user: UserDto): (r: UserForm)
    ensures r.visible && r.editMode && r.editUserId == user.id
    ensures r.name == user.name && r.login == user.login && r.role == user.role && r.password == ""
    ensures r.busy == f.busy && r.notice == f.notice
    ensures !f.busy ==> (CanSave(r) <==> !Blank(user.name) && !Blank(user.login))
  {
    f.(editMode := true, editUserId := user.id, name := user.name, login := user.login,
       role := user.role, password := "", visible := true)
  }

  /** Hidden with cleared fields; edit mode and the edited id are kept. */
  function Hide(f: UserForm): (r: UserForm)
    ensures !r.visible
    ensures r.name == "" && r.login == "" && r.password == "" && r.role == User
    ensures r.editMode == f.editMode && r.editUserId == f.editUserId
    ensures r.busy == f.busy && r.notice == f.notice
    ensures !f.busy ==> CanShow(r) && !CanSave(r)
  {
    f.(visible := false, name := "", login := "", password := "", role := User)
  }

  datatype FormSaved = FormSaved(form: UserForm, db: Db, saved: bool)

  /** The dto the form sends. */
  function Sent(f: UserForm): UserDto {
    if f.editMode then UserDto(f.editUserId, f.name, f.login, f.password, f.role)
    else UserDto(0, f.name, f.login, f.password, f.role)
  }

  /** What the service makes of the save, as a store outcome. */
  function Submit(f: UserForm, db: Db, digest: Digest): (r: Outcome<Db>)
    requires Valid(db)
    ensures r.Ok? ==> Valid(r.value)
    ensures !f.editMode ==> (r.Ok? <==> !LoginTaken(db.users, f.login))
    ensures !f.editMode && r.Ok? ==>
      exists id | id > 0 && id !in db.users ::
        r.value.users == db.users[id := UserRow(f.name, f.login, HashPassword(digest, f.password), f.role)]
    ensures !f.editMode && r.Ok? ==> r.value.tasks == db.tasks
    ensures f.editMode ==>
      (r.Ok? <==> f.editUserId > 0 && !(f.editUserId in db.users && LoginTakenByOther(db.users, f.login, f.editUserId)))
    ensures f.editMode && f.editUserId > 0 && f.editUserId !in db.users ==> r == Ok(db)
    ensures f.editMode && r.Ok? ==>
      && r.value.tasks == db.tasks
      && r.value.users.Keys == db.users.Keys
      && forall u | u in db.users && u != f.editUserId :: r.value.users[u] == db.users[u]
    ensures f.editMode && r.Ok? && f.editUserId in db.users ==>
      var row := r.value.users[f.editUserId];
      && row.name == f.name && row.login == f.login && row.role == f.role
      && (f.password == "" ==> row.password == db.users[f.editUserId].password)
      && (f.password != "" && Blank(f.password) ==> row.password == f.password)
      && (!Blank(f.password) ==> Verify(digest, f.password, row.password))
  {
    if f.editMode then UserService.UpdateUser(db, digest, Sent(f))
    else
      match UserService.CreateUser(db, digest, Sent(f))
      case Ok(c) => Ok(c.db)
      case Err(e) => Err(e)
  }

  /** Save: the error line is cleared; on success the form hides (the owner
      then reloads its list); on failure the error is shown and the form,
      still visible, keeps its fields and the store is unchanged. The busy
      flag is down afterwards either way. */
  function Save(f: UserForm, db: Db, digest: Digest): (r: FormSaved)
    requires Valid(db)
    ensures !r.form.busy && Valid(r.db)
    ensures r.saved <==> Submit(f, db, digest).Ok?
    ensures r.saved ==>
      && r.db == Submit(f, db, digest).value
      && r.form == Hide(f).(busy := false, notice := NoNotice)
    ensures !r.saved ==>
      && r.db == db
      && r.form == f.(busy := false, notice := Failed(Submit(f, db, digest).error))
  {
    var cleared := f.(notice := NoNotice);
    match Submit(f, db, digest)
    case Ok(db') => FormSaved(Hide(cleared).(busy := false), db', true)
    case Err(e) => FormSaved(cleared.(busy := false, notice := Failed(e)), db, false)
  }

  /** A user created through a savable form can sign in with the login and
      password typed into it. */
  lemma CreatedUserCanSignIn(f: UserForm, db: Db, digest: Digest)
    requires Valid(db) && CanSave(f) && !f.editMode
    requires Save(f, db, digest).saved
    ensures AuthService.Login(Save(f, db, digest).db, digest, Some(f.login), f.password).Some?
  {
    AuthService.CreateThenSignIn(db, digest, Sent(f), CurrentUser.Session(0, "", User));
  }
}

/** The sign-in window: a login command that asks the authentication
    service, a cancel command, and a pending result that is resolved at most
    once — with the signed-in user, or with nothing on cancel. */
module LoginVm {
  import opened Wrappers
  import opened Domain
  import opened Store
  import opened Presentation
  import opened PasswordHasher
  import AuthService

  /** The window's pending result. */
  datatype Pending = Unresolved | Resolved(user: Option<UserDto>)

  datatype LoginWindow = LoginWindow(login: string, password: string, busy: bool, notice: Notice, result: Pending)

  function Initial(): (w: LoginWindow)
    ensures CanRun(w) && w.result.Unresolved? && w.notice.NoNotice?
  {
    LoginWindow("", "", false, NoNotice, Unresolved)
  }

  /** Both commands are enabled only while no sign-in is running. */
  predicate CanRun(w: LoginWindow) {
    !w.busy
  }

  /** `TrySetResult`: only the first resolution takes effect. */
  function Resolve(p: Pending, user: Option<UserDto>): (r: Pending)
    ensures p.Resolved? ==> r == p
    ensures p.Unresolved? ==> r == Resolved(user)
  {
    if p.Unresolved? then Resolved(user) else p
  }

  /** The login command given the service's answer: no user shows the
      wrong-credentials message, a failure shows its message, and in both
      cases the result stays pending; a user resolves the result. The busy
      flag is down afterwards in every case. */
  function Submit(w: LoginWindow, answer: Outcome<Option<UserDto>>): (r: LoginWindow)
    ensures !r.busy && r.login == w.login && r.password == w.password
    ensures answer == Ok(None) ==> r.notice == WrongCredentials && r.result == w.result
    ensures answer.Err? ==> r.notice == Failed(answer.error) && r.result == w.result
    ensures answer.Ok? && answer.value.Some? ==>
      r.notice == NoNotice && r.result == Resolve(w.result, answer.value)
  {
    match answer
    case Err(e) => w.(busy := false, notice := Failed(e))
    case Ok(None) => w.(busy := false, notice := WrongCredentials)
    case Ok(Some(user)) => w.(busy := false, notice := NoNotice, result := Resolve(w.result, Some(user)))
  }

  /** The cancel command resolves the result with no user. */
  function Cancel(w: LoginWindow): (r: LoginWindow)
    ensures r.result == Resolve(w.result, None)
    ensures r.login == w.login && r.password == w.password && r.busy == w.busy && r.notice == w.notice
  {
    w.(result := Resolve(w.result, None))
  }

  /** The login command against the store: the window's first resolution is
      the user the authentication service signs in. */
  function SignIn(w: LoginWindow, db: Db, digest: Digest): (r: LoginWindow)
    requires Valid(db)
    ensures !r.busy
    ensures var user := AuthService.Login(db, digest, Some(w.login), w.password);
      && (user.None? ==> r.notice == WrongCredentials && r.result == w.result)
      && (user.Some? ==> r.notice == NoNotice && r.result == Resolve(w.result, user))
    ensures w.result.Unresolved? && r.result.Resolved? ==>
      && r.result.user.Some?
      && r.result.user.value.login == w.login
      && r.result.user.value.id in db.users
  {
    Submit(w, Ok(AuthService.Login(db, digest, Some(w.login), w.password)))
  }

  /** What the user can do in the window. */
  datatype Action = Type(login: string, password: string) | Press(answer: Outcome<Option<UserDto>>) | Close

  function Step(w: LoginWindow, a: Action): LoginWindow {
    match a
    case Type(login, password) => w.(login := login, password := password)
    case Press(answer) => Submit(w, answer)
    case Close => Cancel(w)
  }

  /** Any run of actions: once the result is resolved no later action
      changes it, and no action leaves the window busy. */
  function Run(w: LoginWindow, actions: seq<Action>): (r: LoginWindow)
    ensures w.result.Resolved? ==> r.result == w.result
    ensures !w.busy ==> !r.busy
    decreases |actions|
  {
    if actions == [] then w else Run(Step(w, actions[0]), actions[1..])
  }
}

/** The sign-in decision: look the login up and check the password against
    the stored hash. */
module AuthService {
  import opened Wrappers
  import opened Text
  import opened Domain
  import opened Store
  import opened Projection
  import opened PasswordHasher
  import opened CurrentUser
  import UserRepository
  import UserService

  /** Some stored user has exactly this login and a hash the password matches. */
  predicate Matches(db: Db, digest: Digest, login: string, password: string) {
    exists u | u in db.users :: db.users[u].login == login && Verify(digest, password, db.users[u].password)
  }

  /** Sign in. A missing login counts as ""; a blank login or password is
      refused without a lookup; otherwise the user with that login is
      returned, stored hash included, when the password matches its hash.
      So a user whose stored hash is "" never signs in: a blank password is
      refused, and a non-blank one never hashes to "". */
  function Login(db: Db, digest: Digest, login: Option<string>, password: string): (r: Option<UserDto>)
    requires Valid(db)
    ensures Blank(login.GetOr("")) || Blank(password) ==> r == None
    ensures r.Some? <==>
      !Blank(login.GetOr("")) && !Blank(password) && Matches(db, digest, login.GetOr(""), password)
    ensures r.Some? ==>
      && r.value.id in db.users
      && r.value == ProjectUser(r.value.id, db.users[r.value.id])
      && r.value.login == login.GetOr("")
      && r.value.password != ""
  {
    var name := login.GetOr("");
    if Blank(name) || Blank(password) then None
    else
      match UserRepository.GetUserByLogin(db, name)
      case None => None
      case Some(user) => if Verify(digest, password, user.password) then Some(user) else None
  }

  /** Creating a user with a non-blank login and password and then signing
      in with the same pair returns the new user, and recording that user
      in the identity slot signs the application in. */
  lemma {:induction false} CreateThenSignIn(db: Db, digest: Digest, dto: UserDto, s: Session)
    requires Valid(db)
    requires !LoginTaken(db.users, dto.login)
    requires !Blank(dto.login) && !Blank(dto.password)
    ensures UserService.CreateUser(db, digest, dto).Ok?
    ensures
      var c := UserService.CreateUser(db, digest, dto).value;
      var r := Login(c.db, digest, Some(dto.login), dto.password);
      && r.Some?
      && r.value.id == c.user.id
      && r.value.password == HashPassword(digest, dto.password)
      && IsAuthenticated(Set(s, r.value))
  {
    var c := UserService.CreateUser(db, digest, dto).value;
    var id := c.user.id;
    VerifyOwnHash(digest, dto.password);
    assert c.db.users[id].login == dto.login;
    assert Matches(c.db, digest, dto.login, dto.password);
    var r := Login(c.db, digest, Some(dto.login), dto.password);
    assert r.value.id == id by {
      assert LoginsUnique(c.db.users);
    }
  }
}

/** The identity slot of the running application: who is signed in. */
module CurrentUser {
  import opened Domain

  datatype Session = Session(userId: Id, login: string, role: Role)

  /** Signed in exactly when the slot holds a positive id. */
  predicate IsAuthenticated(s: Session) {
    s.userId > 0
  }

  /** The slot before anything is set: id 0 and an empty login. The role is
      the enumeration's default member, whose identity depends on numeric
      values the model does not assume, so it is a parameter. */
  function Fresh(defaultRole: Role): (s: Session)
    ensures s.userId == 0 && !IsAuthenticated(s)
    ensures s.login == ""
  {
    Session(0, "", defaultRole)
  }

  /** Take the identity of `user`; the previous contents play no part. */
  function Set(s: Session, user: UserDto): (r: Session)
    ensures r.userId == user.id && r.login == user.login && r.role == user.role
    ensures IsAuthenticated(r) <==> user.id > 0
  {
    Session(user.id, user.login, user.role)
  }

  /** Sign out: id 0, empty login, role User. */
  function Clear(s: Session): (r: Session)
    ensures r.userId == 0 && !IsAuthenticated(r)
    ensures r.login == "" && r.role == User
  {
    Session(0, "", User)
  }

  /** The last Set wins, and Set followed by Clear leaves the same slot as a
      Clear of a fresh slot, whatever the state before. */
  lemma LastSetWins(s: Session, u: UserDto, v: UserDto, defaultRole: Role)
    ensures Set(Set(s, u), v) == Set(s, v)
    ensures Clear(Set(s, u)) == Clear(Fresh(defaultRole))
    ensures !IsAuthenticated(Clear(Set(s, u)))
  {
  }
}

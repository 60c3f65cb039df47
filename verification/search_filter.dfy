/** The search boxes of the administrator's lists: a blank search shows the
    whole list; otherwise an item stays when the lower-cased search text
    occurs in one of its lower-cased fields. The search text is not trimmed. */
module SearchFilter {
  import opened Text
  import opened Sequences
  import opened Domain

  /** Title, description or executor login contains the (lower-cased) needle. */
  predicate TaskMatches(t: TaskDto, needle: string) {
    || Contains(Lower(t.title), needle)
    || Contains(Lower(t.description), needle)
    || Contains(Lower(t.executorLogin), needle)
  }

  /** Name or login contains the (lower-cased) needle. */
  predicate UserMatches(u: UserDto, needle: string) {
    Contains(Lower(u.name), needle) || Contains(Lower(u.login), needle)
  }

  /** The tasks list's filter: everything for a blank search, else exactly
      the matching tasks, in list order. */
  function FilterTasks(tasks: seq<TaskDto>, search: string): (r: seq<TaskDto>)
    ensures Blank(search) ==> r == tasks
    ensures IsSubsequence(r, tasks)
    ensures !Blank(search) ==> forall i | 0 <= i < |r| :: TaskMatches(r[i], Lower(search))
    ensures !Blank(search) ==>
      forall i | 0 <= i < |tasks| && TaskMatches(tasks[i], Lower(search)) :: tasks[i] in r
  {
    if Blank(search) then
      SubsequenceReflexive(tasks);
      tasks
    else
      var p := (t: TaskDto) => TaskMatches(t, Lower(search));
      KeepIsSubsequence(tasks, p);
      Keep(tasks, p)
  }

  /** The users list's filter: everything for a blank search, else exactly
      the matching users, in list order. */
  function FilterUsers(users: seq<UserDto>, search: string): (r: seq<UserDto>)
    ensures Blank(search) ==> r == users
    ensures IsSubsequence(r, users)
    ensures !Blank(search) ==> forall i | 0 <= i < |r| :: UserMatches(r[i], Lower(search))
    ensures !Blank(search) ==>
      forall i | 0 <= i < |users| && UserMatches(users[i], Lower(search)) :: users[i] in r
  {
    if Blank(search) then
      SubsequenceReflexive(users);
      users
    else
      var p := (u: UserDto) => UserMatches(u, Lower(search));
      KeepIsSubsequence(users, p);
      Keep(users, p)
  }

  /** Search texts that differ only in letter case select the same tasks. */
  lemma FilterTasksIgnoresCase(tasks: seq<TaskDto>, a: string, b: string)
    requires Lower(a) == Lower(b)
    ensures FilterTasks(tasks, a) == FilterTasks(tasks, b)
  {
    BlankIffLowerBlank(a);
    BlankIffLowerBlank(b);
    if !Blank(a) {
      KeepCongruent(tasks, (t: TaskDto) => TaskMatches(t, Lower(a)), (t: TaskDto) => TaskMatches(t, Lower(b)));
    }
  }

  /** Search texts that differ only in letter case select the same users. */
  lemma FilterUsersIgnoresCase(users: seq<UserDto>, a: string, b: string)
    requires Lower(a) == Lower(b)
    ensures FilterUsers(users, a) == FilterUsers(users, b)
  {
    BlankIffLowerBlank(a);
    BlankIffLowerBlank(b);
    if !Blank(a) {
      KeepCongruent(users, (u: UserDto) => UserMatches(u, Lower(a)), (u: UserDto) => UserMatches(u, Lower(b)));
    }
  }

  /** Filtering an already filtered list with the same search changes nothing. */
  lemma FilterTasksIdempotent(tasks: seq<TaskDto>, search: string)
    ensures FilterTasks(FilterTasks(tasks, search), search) == FilterTasks(tasks, search)
  {
    if !Blank(search) {
      KeepIdempotent(tasks, (t: TaskDto) => TaskMatches(t, Lower(search)));
    }
  }

  lemma FilterUsersIdempotent(users: seq<UserDto>, search: string)
    ensures FilterUsers(FilterUsers(users, search), search) == FilterUsers(users, search)
  {
    if !Blank(search) {
      KeepIdempotent(users, (u: UserDto) => UserMatches(u, Lower(search)));
    }
  }
}

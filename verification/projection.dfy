/** The read-side projections from stored rows to dtos. The task projection
    derives the author and executor logins by navigation; the user projection
    copies every column, the password hash included. */
module Projection {
  import opened Wrappers
  import opened Domain
  import opened Store

  function ProjectUser(id: Id, row: UserRow): UserDto {
    UserDto(id, row.name, row.login, row.password, row.role)
  }

  /** The login of the referenced user, or "" when there is none. */
  function LoginOf(users: map<Id, UserRow>, ref: Option<Id>): string {
    if ref.Some? && ref.value in users then users[ref.value].login else ""
  }

  function ProjectTask(users: map<Id, UserRow>, id: Id, row: TaskRow): TaskDto
    requires IsStatusCode(row.status)
  {
    TaskDto(
      id, row.title, row.description, row.createDate, StatusOfCode(row.status),
      row.authorId, row.executorId,
      LoginOf(users, Some(row.authorId)), LoginOf(users, row.executorId))
  }

  /** The stored columns a task dto carries. */
  function TaskRowOf(dto: TaskDto): TaskRow {
    TaskRow(dto.title, dto.description, dto.createDate, StatusCode(dto.status), dto.authorId, dto.executorId)
  }

  function UserRowOf(dto: UserDto): UserRow {
    UserRow(dto.name, dto.login, dto.password, dto.role)
  }

  /** The user projection loses nothing: the row, the stored hash included,
      is recovered from the dto, and the id is copied. */
  lemma UserProjectionLossless(id: Id, row: UserRow)
    ensures UserRowOf(ProjectUser(id, row)) == row
    ensures ProjectUser(id, row).id == id
    ensures ProjectUser(id, row).password == row.password
  {
  }

  /** The task projection loses no stored column (the status survives its
      integer round trip), and its logins are derived from the users table:
      the author's login whenever the author exists, the executor's login
      when there is one, and "" otherwise. */
  lemma TaskProjectionFaithful(db: Db, id: Id)
    requires Valid(db) && id in db.tasks
    ensures TaskRowOf(ProjectTask(db.users, id, db.tasks[id])) == db.tasks[id]
    ensures ProjectTask(db.users, id, db.tasks[id]).id == id
    ensures ProjectTask(db.users, id, db.tasks[id]).authorLogin == db.users[db.tasks[id].authorId].login
    ensures db.tasks[id].executorId.None? ==> ProjectTask(db.users, id, db.tasks[id]).executorLogin == ""
    ensures db.tasks[id].executorId.Some? ==>
      ProjectTask(db.users, id, db.tasks[id]).executorLogin == db.users[db.tasks[id].executorId.value].login
  {
  }
}

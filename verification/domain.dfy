/** The records exchanged between the layers: `UserDto`, `TaskDto`, the role
    and status enumerations, and the exceptions the stores and services raise. */
module Domain {
  import opened Wrappers

  type Id = int

  /** A `DateTime`, left uninterpreted. */
  type Timestamp = int

  /** `DateTime`'s default value, carried by a freshly built dto. */
  const UnsetDate: Timestamp := 0

  /** The three roles offered by the user form, in its order; their numeric
      values are not assumed. */
  datatype Role = Admin | Manager | User

  datatype TaskStatus = New | InProgress | Paused | Completed | Cancelled

  /** The integer a status is stored as: New = 0 … Cancelled = 4. */
  function StatusCode(s: TaskStatus): int {
    match s
    case New => 0
    case InProgress => 1
    case Paused => 2
    case Completed => 3
    case Cancelled => 4
  }

  predicate IsStatusCode(n: int) {
    0 <= n < 5
  }

  /** The cast `(TaskStatusEnum)n` for the codes the store ever holds. */
  function StatusOfCode(n: int): (s: TaskStatus)
    requires IsStatusCode(n)
    ensures StatusCode(s) == n
  {
    if n == 0 then New
    else if n == 1 then InProgress
    else if n == 2 then Paused
    else if n == 3 then Completed
    else Cancelled
  }

  /** The column default for a task's status. */
  const DefaultStatusCode: int := 0

  /** Storing a status and reading it back yields the same status, and the
      column default reads back as New. */
  lemma StatusCodeRoundTrip(s: TaskStatus)
    ensures IsStatusCode(StatusCode(s))
    ensures StatusOfCode(StatusCode(s)) == s
    ensures StatusOfCode(DefaultStatusCode) == New
  {
  }

  datatype UserDto = UserDto(id: Id, name: string, login: string, password: string, role: Role)

  datatype TaskDto = TaskDto(
    id: Id,
    title: string,
    description: string,
    createDate: Timestamp,
    status: TaskStatus,
    authorId: Id,
    executorId: Option<Id>,
    authorLogin: string,
    executorLogin: string)

  /** The exceptions of the modelled code:
      ArgumentOutOfRange – a non-positive id reaching a repository;
      InvalidData        – creating a user whose login is taken;
      DbUpdate           – the store refusing a write (unique index, foreign key);
      Argument           – a service-level validation failure;
      NullReference      – a form saved with no executor selected. */
  datatype Error = ArgumentOutOfRange | InvalidData | DbUpdate | Argument | NullReference

  type Outcome<T> = Result<T, Error>
}

/** What the view models have in common: the error line they show and the
    choice of a default executor for a task form. */
module Presentation {
  import opened Wrappers
  import opened Domain

  /** The error line of a window: empty, the wrong-credentials message of the
      sign-in window, or the message of a failed operation. */
  datatype Notice = NoNotice | WrongCredentials | Failed(error: Error)

  /** The index of the first candidate with the given id. */
  function FirstWithId(candidates: seq<UserDto>, id: Id): (r: Option<nat>)
    ensures r.Some? ==> r.value < |candidates| && candidates[r.value].id == id
    ensures r.Some? ==> forall j | 0 <= j < r.value :: candidates[j].id != id
    ensures r.None? ==> forall j | 0 <= j < |candidates| :: candidates[j].id != id
  {
    if candidates == [] then None
    else if candidates[0].id == id then Some(0)
    else match FirstWithId(candidates[1..], id)
      case None => None
      case Some(k) => Some(k + 1)
  }

  /** `FirstOrDefault(u => u.Id == preferred) ?? FirstOrDefault()`: the first
      candidate with the preferred id, otherwise the first candidate,
      otherwise none. */
  function DefaultExecutor(candidates: seq<UserDto>, preferred: Id): (r: Option<UserDto>)
    ensures r.None? <==> candidates == []
    ensures r.Some? ==> r.value in candidates
    ensures (exists i | 0 <= i < |candidates| :: candidates[i].id == preferred) ==>
      && r.Some? && r.value.id == preferred
      && exists i | 0 <= i < |candidates| :: candidates[i] == r.value
           && forall j | 0 <= j < i :: candidates[j].id != preferred
    ensures (forall i | 0 <= i < |candidates| :: candidates[i].id != preferred) && candidates != [] ==>
      r == Some(candidates[0])
  {
    match FirstWithId(candidates, preferred)
    case Some(k) => Some(candidates[k])
    case None => if candidates == [] then None else Some(candidates[0])
  }
}

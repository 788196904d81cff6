/** The values the task client exchanges with the remote task service.
    The HTTP transport itself is not modelled: every service call a
    handler awaits is given to it as an Outcome that says whether the
    awaited promise resolved (and with which value) or rejected. */
module Remote {

  /** One task record as the server returns it. */
  datatype Task = Task(id: int, title: string, completed: bool)

  /** The body of a create or update request: `{ title, completed }`. */
  datatype TaskData = TaskData(title: string, completed: bool)

  /** The settled state of an awaited service promise. The client never
      inspects the rejection reason, so a failure carries nothing. */
  datatype Outcome<+T> = Success(value: T) | Failure

  datatype Option<+T> = None | Some(value: T)
}

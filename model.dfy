/**
 * The task entity of model/Task.java and the two types it refers to.
 * Every column the entity leaves nullable is an Option here; the identity column
 * is None until the store has assigned it.
 */
module Model {
  import opened Wrappers

  /** The closed set of task states. */
  datatype TaskStatus = PENDING | IN_PROGRESS | DONE

  /** A registered user, as tasks and reminders see it. */
  datatype User = User(id: int, username: string, email: string)

  /**
   * A task row. The deadline is a timestamp in seconds; a task refers to at most
   * one user (many-to-one), and a user may be the assigned user of many tasks.
   */
  datatype Task = Task(
    id: Option<int>,
    title: Option<string>,
    description: Option<string>,
    deadline: Option<int>,
    status: Option<TaskStatus>,
    assignedUser: Option<User>)

  /** The id of the task's assigned user, if it has one. */
  function OwnerId(t: Task): Option<int>
  {
    if t.assignedUser.Some? then Some(t.assignedUser.value.id) else None
  }
}

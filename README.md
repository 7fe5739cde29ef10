# TrackMyTeam task logic, modelled in Dafny

TrackMyTeam is a small team task-tracking backend. Users own tasks that have a title, an
optional description, an optional deadline, a status and an assigned user. An hourly job emails
the assigned user of every task whose deadline falls within the next 24 hours. This project
models the parts of the backend that make decisions:

- `model.dfy`, module `Model`: the `Task` entity with its `TaskStatus` and `User` types.
  Every nullable column is an `Option`. Deadlines are integer timestamps in seconds.
- `service.dfy`, module `Service`: the task service as a class `TaskService`. It holds the task
  table (`map<int, Task>`, keyed by the store-assigned id), the user table (keyed by username)
  and the table's identity generator. It has `CreateTask`, `GetMyTasks`, `UpdateTask` and
  `DeleteTask`, plus `Save`, the repository save that `CreateTask` and `UpdateTask` call. Exceptions are `Result` failures.
  The caller's username is an explicit parameter instead of being read from the security context.
- `scheduler.dfy`, module `Scheduler`: one reminder sweep. It takes the task list and the clock
  reading `now`, and the loop appends `(to, subject, body)` messages to an outbox. `Matches` is
  the window rule and `Reminders` is the reference definition of what a sweep sends.
- `wrappers.dfy`, module `Wrappers`: `Option` and `Result`.

`TaskService.Valid()` is the table invariant that every operation preserves. For each stored row:
its id equals its key and is below the generator's next value, it has a title, and its assigned
user is a registered user. It also requires usernames to key the user table and user ids to be
distinct.

Behaviour of the code that the model keeps:

- The sweep has no exception handling. A matching task without an assigned user makes
  `getAssignedUser().getEmail()` throw, and that ends the sweep. The model returns
  `completed == false` and keeps only the messages sent before that task (`Scheduler.SweepReach`).
- The entity makes the title non-null, not non-empty.
- The status column is nullable and `updateTask` copies whatever status it is given, so status
  is an `Option` and an update may store `None`.
- Neither `updateTask` nor `deleteTask` checks ownership, and the model does not either.
- The identity generator only moves forward: a created task's id is at least the generator's
  value before the call and below its value after, so an id is never issued twice, even after
  a delete.

## Model

| member | source | states |
|---|---|---|
| `Service.TaskService.Save` | backend/src/main/java/com/trackmyteam/backend/model/Task.java:16-21 | a row without an id gets a store-assigned id from the identity generator, which only moves forward, so the id was never issued before; a row without a title is refused with the table unchanged; a row with an id replaces that row; the table invariant is kept |
| `Service.TaskService.CreateTask` | backend/src/main/java/com/trackmyteam/backend/service/TaskService.java:22-28 | an unknown caller fails with UserNotFound and a title-less task with TitleMissing, both leaving the table unchanged; otherwise exactly one row is added under a new id from the identity generator (never issued before, even after deletes) with status PENDING and assigned user = the caller, whatever the input carried, and title/description/deadline as supplied; only the caller's task list grows |
| `Service.TaskService.GetMyTasks` | backend/src/main/java/com/trackmyteam/backend/service/TaskService.java:31-35 | fails with UserNotFound exactly when the caller is not registered; otherwise a stored task is returned if and only if its assigned user's id is the caller's id, and nothing else is returned |
| `Service.TaskService.UpdateTask` | backend/src/main/java/com/trackmyteam/backend/service/TaskService.java:38-45 | an absent id fails with TaskNotFound, a title-less update with TitleMissing, both leaving the table unchanged; otherwise only that row changes: title, description, deadline and status are replaced, id and assigned user kept; the identity generator is untouched; success does not depend on who calls; no user's task list changes |
| `Service.TaskService.DeleteTask` | backend/src/main/java/com/trackmyteam/backend/service/TaskService.java:47-49 | the id is not in the table afterwards and every other row is unchanged; an absent id is a no-op; the identity generator is untouched; the id leaves only its owner's list |
| `Service.TaskService.GetMyTasksDisjoint` | backend/src/main/java/com/trackmyteam/backend/model/Task.java:30-32 | a task refers to at most one user, so two different registered callers get disjoint task lists: listing for one user never returns another user's task |
| `Service.InsertOwnership` | backend/src/main/java/com/trackmyteam/backend/service/TaskService.java:26-28 | inserting a row under a new id adds it to its owner's list and to no other list |
| `Service.ReplaceOwnership` | backend/src/main/java/com/trackmyteam/backend/service/TaskService.java:39-44 | replacing a row by one with the same assigned user leaves every user's list unchanged |
| `Service.RemoveOwnership` | backend/src/main/java/com/trackmyteam/backend/service/TaskService.java:48 | removing an id takes it off its owner's list and changes no other list |
| `Scheduler.SendDeadlineReminders` | backend/src/main/java/com/trackmyteam/backend/service/ReminderScheduler.java:21-35 | the sweep completes exactly when no matching task lacks an assigned user; the outbox is the reminders of the tasks processed before any such task, judged against one window fixed at the start; at most one message per task; nothing is modified |
| `Scheduler.MatchCount` | backend/src/main/java/com/trackmyteam/backend/service/ReminderScheduler.java:26-28 | the number of matching tasks is at most the number of tasks |
| `Scheduler.Reminders` | backend/src/main/java/com/trackmyteam/backend/service/ReminderScheduler.java:26-33 | the reference sweep output has exactly one message per matching task |
| `Scheduler.SweepReach` | backend/src/main/java/com/trackmyteam/backend/service/ReminderScheduler.java:29-30 | the sweep gets through every task before the first matching task without an assigned user, and stops at that task |
| `Scheduler.RemindersAppend` | backend/src/main/java/com/trackmyteam/backend/service/ReminderScheduler.java:26 | each task is judged independently of the others, so the reminders of a concatenated list are the reminders of its parts in order |
| `Scheduler.MatchCountAppend` | backend/src/main/java/com/trackmyteam/backend/service/ReminderScheduler.java:27-28 | match counts add up over a concatenated list |
| `Scheduler.ReminderAt` | backend/src/main/java/com/trackmyteam/backend/service/ReminderScheduler.java:29-31 | every matching task gets a reminder at the position given by the matching tasks before it; it goes to the assigned user's email with subject "Deadline Reminder: " + title |
| `Scheduler.ReminderSource` | backend/src/main/java/com/trackmyteam/backend/service/ReminderScheduler.java:26-32 | every message in the outbox is the reminder of a matching task, the one whose position it occupies; non-matching tasks produce nothing |
| `Scheduler.ReminderOrder` | backend/src/main/java/com/trackmyteam/backend/service/ReminderScheduler.java:22-26 | messages follow the order of the task list: an earlier matching task gets an earlier message |
| `Scheduler.WindowBoundaries` | backend/src/main/java/com/trackmyteam/backend/service/ReminderScheduler.java:24-28 | a task matches if and only if it has a deadline with now < deadline < now + 24h; deadlines equal to now or to now + 24h do not match |
| `Scheduler.PastDeadlineNeverMatches` | backend/src/main/java/com/trackmyteam/backend/service/ReminderScheduler.java:27-28 | a deadline at or before now matches no sweep at now or later |
| `Scheduler.LateDeadlineMatchesLater` | backend/src/main/java/com/trackmyteam/backend/service/ReminderScheduler.java:23-24 | a deadline 25 hours ahead does not match now and matches two hours later |
| `Scheduler.SweepsDoNotDeduplicate` | backend/src/main/java/com/trackmyteam/backend/service/ReminderScheduler.java:14-17 | the scheduler keeps no state, so a task matching the windows of two sweeps is reminded by both |
| `Scheduler.HourlyResend` | backend/src/main/java/com/trackmyteam/backend/service/ReminderScheduler.java:19-20 | a deadline between 1 and 24 hours ahead is reminded at this sweep and again at the next hourly one |
| `Scheduler.AssignedTasksComplete` | backend/src/main/java/com/trackmyteam/backend/service/ReminderScheduler.java:30 | when every task has an assigned user, as the task table invariant guarantees for stored tasks, the sweep processes the whole list |

## Left out

- Registration and login (`AuthService`, `AuthController`): password hashing, token issuing and the authentication manager are foreign calls. The user table is fixed when the service is built.
- The application bootstrap, the cron trigger, the clock and the scheduler thread. `now` is a parameter and one sweep is modelled; runs never overlap, so there is no concurrency to model.
- The repository's `findAll` is not modelled; its result list, in whatever order it comes, is the sweep's parameter.
- The mail transport: sending is appending to the outbox, and a failing `sendEmail` is not modelled.
- Timestamps are whole seconds; sub-second precision of `LocalDateTime` is not modelled.
- Scheduler.Timestamp: the message body renders the deadline as decimal seconds, not in the ISO-8601 form of `LocalDateTime.toString`.
- Service.TaskService.CreateTask: a client-supplied id is dropped and the task is always inserted. JPA's merge path for an entity that already carries an id is not modelled.
- Service.TaskService.DeleteTask: deleting an absent id is a no-op, as current Spring Data repositories do it. Older versions throw.
- Service.TaskService.UpdateTask: a failed save leaves the table unchanged. The changes the setters made to the loaded entity are not modelled.
- Password, role and the other user columns: `User` has only id, username and email.

/**
 * The task operations of service/TaskService.java over an in-memory task table.
 * The caller's username, which TaskService.java reads from the security context, is
 * an explicit parameter.
 */
module Service {
  import opened Wrappers
  import opened Model

  /** The exceptions the operations can end in. */
  datatype Error =
    | UserNotFound   // findByUsername(...).orElseThrow() on an unknown username
    | TaskNotFound   // findById(id).orElseThrow() on an absent id
    | TitleMissing   // the store refuses a row whose non-nullable title is null

  /** Ids of the tasks in `table` whose assigned user has id `uid` (findByAssignedUserId). */
  function OwnedIds(table: map<int, Task>, uid: int): set<int>
  {
    set id | id in table && OwnerId(table[id]) == Some(uid)
  }

  /** Inserting a row under a new id adds it to its owner's list only. */
  lemma InsertOwnership(table: map<int, Task>, id: int, t: Task, uid: int)
    requires id !in table
    ensures OwnedIds(table[id := t], uid)
            == if OwnerId(t) == Some(uid) then OwnedIds(table, uid) + {id} else OwnedIds(table, uid)
  {
  }

  /** Replacing a row by one with the same owner leaves every user's list as it was. */
  lemma ReplaceOwnership(table: map<int, Task>, id: int, t: Task, uid: int)
    requires id in table && OwnerId(t) == OwnerId(table[id])
    ensures OwnedIds(table[id := t], uid) == OwnedIds(table, uid)
  {
  }

  /** Removing an id takes it off its owner's list and changes nothing else. */
  lemma RemoveOwnership(table: map<int, Task>, id: int, uid: int)
    ensures OwnedIds(table - {id}, uid) == OwnedIds(table, uid) - {id}
  {
  }

  /** The user table: keyed by username, with distinct user ids. */
  ghost predicate UserTable(users: map<string, User>)
  {
    && (forall name :: name in users ==> users[name].username == name)
    && (forall a, b :: a in users && b in users && users[a].id == users[b].id ==> a == b)
  }

  /**
   * The task service with its two repositories: the task table, keyed by the
   * store-assigned id, and the user table, keyed by username. `nextId` is the
   * identity generator of the task table.
   */
  class TaskService {
    var tasks: map<int, Task>
    const users: map<string, User>
    var nextId: int

    /** The user `u` is the registered user of that name. */
    ghost predicate Registered(u: User)
    {
      u.username in users && users[u.username] == u
    }

    /** A stored row: its id is its key, it has a title and a registered assigned user. */
    ghost predicate WellStored(id: int, t: Task)
    {
      && t.id == Some(id)
      && t.title.Some?
      && t.assignedUser.Some? && Registered(t.assignedUser.value)
    }

    ghost predicate Valid()
      reads this
    {
      && UserTable(users)
      && (forall id :: id in tasks ==> WellStored(id, tasks[id]) && id < nextId)
    }

    constructor (users: map<string, User>)
      requires UserTable(users)
      ensures Valid()
      ensures tasks == map[] && this.users == users
    {
      this.users := users;
      tasks := map[];
      nextId := 1;
    }

    /**
     * The repository's save as this service uses it: a task without an id is
     * inserted under a fresh store-assigned id, a task with an id replaces the row
     * of that id; a task without a title is refused and nothing changes.
     */
    method Save(t: Task) returns (r: Result<Task, Error>)
      requires Valid()
      requires t.id.Some? ==> t.id.value in tasks
      requires t.assignedUser.Some? && Registered(t.assignedUser.value)
      modifies this
      ensures Valid()
      ensures r.Failure? <==> t.title.None?
      ensures r.Failure? ==> r.error == TitleMissing && tasks == old(tasks) && nextId == old(nextId)
      ensures r.Success? && t.id.None? ==>
                && r.value.id.Some? && r.value.id.value !in old(tasks)
                && old(nextId) <= r.value.id.value < nextId
                && r.value == t.(id := r.value.id)
                && tasks == old(tasks)[r.value.id.value := r.value]
                && nextId == old(nextId) + 1
      ensures r.Success? && t.id.Some? ==>
                r.value == t && tasks == old(tasks)[t.id.value := t] && nextId == old(nextId)
    {
      if t.title.None? {
        return Failure(TitleMissing);
      }
      if t.id.None? {
        var stored := t.(id := Some(nextId));
        tasks := tasks[nextId := stored];
        nextId := nextId + 1;
        r := Success(stored);
      } else {
        tasks := tasks[t.id.value := t];
        r := Success(t);
      }
    }

    /**
     * createTask: looks the caller up, forces the assigned user to the caller and
     * the status to PENDING, and inserts the task under a fresh id.
     */
    method CreateTask(caller: string, task: Task) returns (r: Result<Task, Error>)
      requires Valid()
      modifies this
      ensures Valid()
      ensures caller !in users ==> r == Failure(UserNotFound) && tasks == old(tasks)
      ensures caller in users && task.title.None? ==> r == Failure(TitleMissing) && tasks == old(tasks)
      ensures r.Success? <==> caller in users && task.title.Some?
      ensures r.Failure? ==> nextId == old(nextId)
      ensures r.Success? ==> r.value.id.Some? && old(nextId) <= r.value.id.value < nextId == old(nextId) + 1
      ensures r.Success? ==>
                && r.value.id.Some? && r.value.id.value !in old(tasks)
                && tasks == old(tasks)[r.value.id.value := r.value]
                && r.value.status == Some(PENDING)
                && r.value.assignedUser == Some(users[caller])
                && r.value.title == task.title
                && r.value.description == task.description
                && r.value.deadline == task.deadline
      ensures r.Success? ==>
                && OwnedIds(tasks, users[caller].id) == OwnedIds(old(tasks), users[caller].id) + {r.value.id.value}
                && forall uid :: uid != users[caller].id ==> OwnedIds(tasks, uid) == OwnedIds(old(tasks), uid)
    {
      if caller !in users {
        return Failure(UserNotFound);
      }
      var user := users[caller];
      var draft := task.(id := None, assignedUser := Some(user), status := Some(PENDING));
      r := Save(draft);
      if r.Success? {
        var id := r.value.id.value;
        forall uid {
          InsertOwnership(old(tasks), id, r.value, uid);
        }
      }
    }

    /**
     * getMyTasks: the tasks whose assigned user is the caller, or UserNotFound
     * when the caller's username is not registered.
     */
    function GetMyTasks(caller: string): (r: Result<set<Task>, Error>)
      reads this
      ensures r.Failure? <==> caller !in users
      ensures r.Failure? ==> r.error == UserNotFound
      ensures r.Success? ==>
                forall id :: id in tasks ==> (tasks[id] in r.value <==> OwnerId(tasks[id]) == Some(users[caller].id))
      ensures r.Success? ==>
                forall t :: t in r.value ==> t in tasks.Values && OwnerId(t) == Some(users[caller].id)
    {
      if caller !in users then
        Failure(UserNotFound)
      else
        Success(set id | id in OwnedIds(tasks, users[caller].id) :: tasks[id])
    }

    /**
     * A task refers to at most one user, so the lists of two different registered
     * users never share a task.
     */
    lemma GetMyTasksDisjoint(a: string, b: string)
      requires Valid()
      requires a in users && b in users && a != b
      ensures GetMyTasks(a).Success? && GetMyTasks(b).Success?
      ensures GetMyTasks(a).value !! GetMyTasks(b).value
    {
      assert users[a].id != users[b].id;
    }

    /**
     * updateTask: replaces title, description, deadline and status of the task
     * with the given id. There is no ownership check: the caller plays no part.
     */
    method UpdateTask(id: int, details: Task) returns (r: Result<Task, Error>)
      requires Valid()
      modifies this
      ensures Valid()
      ensures id !in old(tasks) ==> r == Failure(TaskNotFound) && tasks == old(tasks)
      ensures id in old(tasks) && details.title.None? ==> r == Failure(TitleMissing) && tasks == old(tasks)
      ensures r.Success? <==> id in old(tasks) && details.title.Some?
      ensures nextId == old(nextId)
      ensures r.Success? ==>
                && tasks == old(tasks)[id := r.value]
                && r.value.title == details.title
                && r.value.description == details.description
                && r.value.deadline == details.deadline
                && r.value.status == details.status
                && r.value.id == old(tasks)[id].id
                && r.value.assignedUser == old(tasks)[id].assignedUser
      ensures forall uid :: OwnedIds(tasks, uid) == OwnedIds(old(tasks), uid)
    {
      if id !in tasks {
        return Failure(TaskNotFound);
      }
      var task := tasks[id];
      task := task.(title := details.title, description := details.description,
                    deadline := details.deadline, status := details.status);
      r := Save(task);
      forall uid {
        ReplaceOwnership(old(tasks), id, task, uid);
      }
    }

    /** deleteTask: removes the row with the given id; an absent id is a no-op. */
    method DeleteTask(id: int)
      requires Valid()
      modifies this
      ensures Valid()
      ensures tasks == old(tasks) - {id} && nextId == old(nextId)
      ensures forall uid :: OwnedIds(tasks, uid) == OwnedIds(old(tasks), uid) - {id}
    {
      tasks := tasks - {id};
      forall uid {
        RemoveOwnership(old(tasks), id, uid);
      }
    }
  }

  /** What a caller can rely on: an id freed by a delete is not issued again. */
  method IdsAreNotReissued(service: TaskService, caller: string, task: Task)
    requires service.Valid()
    modifies service
  {
    var r1 := service.CreateTask(caller, task);
    if r1.Success? {
      var id := r1.value.id.value;
      service.DeleteTask(id);
      var r2 := service.CreateTask(caller, task);
      assert r2.Success? ==> r2.value.id.value != id;
    }
  }
}

/** The six Express route handlers of `server/src/index.ts` over one shared
    SQLite database. Each handler's `try`/`catch` becomes a `Reply`: the
    success status and JSON body, or 500 with the handler's fixed message.
    Route parameters arrive already parsed to integers; the clock behind
    `CURRENT_TIMESTAMP` and `new Date()` is a parameter. */
module ServerRoutes {
  import opened Wrappers
  import opened ServerTables

  datatype Reply<T> = Success(code: int, body: T) | Failure(code: int, message: string)

  /** The JSON the create-task route sends back: built in the handler, not read
      from the table, so it carries both `completed` and `status`. */
  datatype TaskResponse = TaskResponse(id: int, userId: int, completed: bool, title: string,
                                       description: Option<string>, status: string, createdAt: string)

  /** The database behind `dbPromise`: both tables and, per table, the
      largest id AUTOINCREMENT has issued (SQLite's `sqlite_sequence`). */
  class Database {
    var users: seq<UserRow>
    var tasks: seq<TaskRow>
    var lastUserId: int
    var lastTaskId: int

    ghost predicate Valid()
      reads this
    {
      UsersTableValid(users, lastUserId) && TasksTableValid(tasks, lastTaskId)
    }

    /** `initializeDatabase` on a new database file: both tables empty. */
    constructor ()
      ensures Valid()
      ensures users == [] && tasks == [] && lastUserId == 0 && lastTaskId == 0
    {
      users, tasks := [], [];
      lastUserId, lastTaskId := 0, 0;
    }

    /** GET /api/users: one row per user with `task_count` the number of task
        rows carrying that user's id; users without tasks get 0. */
    function ListUsers(): (r: Reply<seq<UserTaskCount>>)
      reads this
      ensures r.Success? && r.code == 200
      ensures |r.body| == |users|
      ensures forall i :: 0 <= i < |users| ==>
        r.body[i].id == users[i].id && r.body[i].name == users[i].name &&
        r.body[i].email == users[i].email &&
        r.body[i].taskCount == |TasksOf(tasks, users[i].id)|
      ensures forall i :: 0 <= i < |users| ==>
        (r.body[i].taskCount == 0 <==> forall t :: t in tasks ==> t.userId != users[i].id)
    {
      Success(200, UsersWithTaskCounts(users, tasks))
    }

    /** POST /api/users: inserts `(name, email)` and replies 201 with the new
        id; fails with 500, changing nothing, when a field is missing
        (NOT NULL), the email is taken (UNIQUE) or the ids are exhausted. */
    method CreateUser(name: Option<string>, email: Option<string>) returns (r: Reply<int>)
      requires Valid()
      modifies this
      ensures Valid()
      ensures r.Success? <==>
        name.Some? && email.Some? &&
        (forall u :: u in old(users) ==> u.email != email.value) &&
        old(lastUserId) < MaxRowId
      ensures r.Success? ==>
        && r.code == 201
        && r.body == old(lastUserId) + 1
        && (forall u :: u in old(users) ==> u.id < r.body)
        && users == old(users) + [UserRow(r.body, name.value, email.value)]
        && lastUserId == r.body
      ensures r.Failure? ==>
        r == Failure(500, "Failed to create user") &&
        users == old(users) && lastUserId == old(lastUserId)
      ensures tasks == old(tasks) && lastTaskId == old(lastTaskId)
    {
      if name.None? || email.None? {
        return Failure(500, "Failed to create user");
      }
      if exists u :: u in users && u.email == email.value {
        return Failure(500, "Failed to create user");
      }
      if lastUserId == MaxRowId {
        return Failure(500, "Failed to create user");
      }
      var id := lastUserId + 1;
      assert forall i :: 0 <= i < |users| ==> users[i] in users;
      users := users + [UserRow(id, name.value, email.value)];
      lastUserId := id;
      r := Success(201, id);
    }

    /** GET /api/users/:userId/tasks: exactly the rows with that `user_id`,
        each as often as stored, newest `created_at` first. */
    function ListUserTasks(userId: int): (r: Reply<seq<TaskRow>>)
      reads this
      ensures r.Success? && r.code == 200
      ensures NewestFirst(r.body)
      ensures multiset(r.body) == multiset(TasksOf(tasks, userId))
      ensures forall t :: t in r.body <==> t in tasks && t.userId == userId
    {
      var rows := SortNewestFirst(TasksOf(tasks, userId));
      assert forall t :: t in rows <==> t in multiset(rows);
      Success(200, rows)
    }

    /** POST /api/users/:userId/tasks: inserts a row whose status takes the
        column default `'pending'`, without checking that the user exists,
        and replies 201 with a task built in the handler. */
    method CreateTask(userId: int, title: Option<string>, description: Option<string>,
                      now: int, responseTime: string)
      returns (r: Reply<TaskResponse>)
      requires Valid()
      modifies this
      ensures Valid()
      ensures r.Success? <==> title.Some? && old(lastTaskId) < MaxRowId
      ensures r.Success? ==>
        && r.code == 201
        && r.body.id == old(lastTaskId) + 1 == lastTaskId
        && r.body == TaskResponse(lastTaskId, userId, false, title.value, description, Pending, responseTime)
        && (forall t :: t in old(tasks) ==> t.id < r.body.id)
        && tasks == old(tasks) + [TaskRow(r.body.id, userId, title.value, description, Some(Pending), now)]
      ensures r.Failure? ==>
        r == Failure(500, "Failed to create task") &&
        tasks == old(tasks) && lastTaskId == old(lastTaskId)
      ensures users == old(users) && lastUserId == old(lastUserId)
    {
      if title.None? || lastTaskId == MaxRowId {
        return Failure(500, "Failed to create task");
      }
      var id := lastTaskId + 1;
      assert forall i :: 0 <= i < |tasks| ==> tasks[i] in tasks;
      tasks := tasks + [TaskRow(id, userId, title.value, description, Some(Pending), now)];
      lastTaskId := id;
      r := Success(201, TaskResponse(id, userId, false, title.value, description, Pending, responseTime));
    }

    /** PUT /api/tasks/:taskId/toggle: reads the row's status, writes
        `'pending'` if it was `'completed'` and `'completed'` otherwise, and
        replies with what it wrote; a missing row fails with 500 and nothing
        changes. */
    method ToggleStatus(taskId: int) returns (r: Reply<string>)
      requires Valid()
      modifies this
      ensures Valid()
      ensures FindRow(old(tasks), taskId).None? ==>
        r == Failure(500, "Failed to toggle task status") && tasks == old(tasks)
      ensures FindRow(old(tasks), taskId).Some? ==>
        var row := FindRow(old(tasks), taskId).value;
        && r == Success(200, ToggledStatus(row.status))
        && tasks == WithStatus(old(tasks), taskId, Some(r.body))
      ensures users == old(users) && lastUserId == old(lastUserId) && lastTaskId == old(lastTaskId)
    {
      var row := FindRow(tasks, taskId);
      if row.None? {
        r := Failure(500, "Failed to toggle task status");
      } else {
        var newStatus := ToggledStatus(row.value.status);
        WithStatusValid(tasks, lastTaskId, taskId, Some(newStatus));
        tasks := WithStatus(tasks, taskId, Some(newStatus));
        r := Success(200, newStatus);
      }
    }

    /** PUT /api/tasks/:taskId/status: stores the given status verbatim (NULL
        when absent) on the row with that id, if any, and replies 200 with
        that status whether or not a row was updated. */
    method SetStatus(taskId: int, status: Option<string>) returns (r: Reply<Option<string>>)
      requires Valid()
      modifies this
      ensures Valid()
      ensures r == Success(200, status)
      ensures tasks == WithStatus(old(tasks), taskId, status)
      ensures (forall t :: t in old(tasks) ==> t.id != taskId) ==> tasks == old(tasks)
      ensures users == old(users) && lastUserId == old(lastUserId) && lastTaskId == old(lastTaskId)
    {
      if forall t :: t in tasks ==> t.id != taskId {
        WithStatusMissing(tasks, taskId, status);
      }
      WithStatusValid(tasks, lastTaskId, taskId, status);
      tasks := WithStatus(tasks, taskId, status);
      r := Success(200, status);
    }
  }

  /** A user, one task for that user, a toggle and the listing, on a new database. */
  method AnnScenario() returns (created: Reply<int>, task: Reply<TaskResponse>,
                                toggled: Reply<string>, listing: Reply<seq<UserTaskCount>>)
    ensures created == Success(201, 1)
    ensures task.Success? && task.body.id == 1 && task.body.userId == 1
    ensures !task.body.completed && task.body.status == Pending
    ensures toggled == Success(200, Completed)
    ensures listing == Success(200, [UserTaskCount(1, "Ann", "a@x.com", 1)])
  {
    var db := new Database();
    created, task := AnnCreate(db);
    toggled, listing := AnnToggleAndList(db);
  }

  /** The first half of `AnnScenario`: the user and the task. */
  method AnnCreate(db: Database) returns (created: Reply<int>, task: Reply<TaskResponse>)
    requires db.Valid() && db.users == [] && db.tasks == [] && db.lastUserId == 0 && db.lastTaskId == 0
    modifies db
    ensures db.Valid()
    ensures db.users == [UserRow(1, "Ann", "a@x.com")]
    ensures db.tasks == [TaskRow(1, 1, "Buy milk", Some(""), Some(Pending), 0)]
    ensures created == Success(201, 1)
    ensures task.Success? && task.body.id == 1 && task.body.userId == 1
    ensures !task.body.completed && task.body.status == Pending
  {
    created := db.CreateUser(Some("Ann"), Some("a@x.com"));
    task := db.CreateTask(1, Some("Buy milk"), Some(""), 0, "t0");
  }

  /** The second half of `AnnScenario`: the toggle and the listing. */
  method AnnToggleAndList(db: Database) returns (toggled: Reply<string>, listing: Reply<seq<UserTaskCount>>)
    requires db.Valid()
    requires db.users == [UserRow(1, "Ann", "a@x.com")]
    requires db.tasks == [TaskRow(1, 1, "Buy milk", Some(""), Some(Pending), 0)]
    modifies db
    ensures toggled == Success(200, Completed)
    ensures listing == Success(200, [UserTaskCount(1, "Ann", "a@x.com", 1)])
  {
    var ann := db.users[0];
    var row := db.tasks[0];
    var done := row.(status := Some(Completed));
    AnnRows(ann, row, done);
    toggled := db.ToggleStatus(1);
    listing := db.ListUsers();
  }

  /** The table facts `AnnScenario` relies on. */
  lemma AnnRows(ann: UserRow, row: TaskRow, done: TaskRow)
    requires ann.id == 1 && row.id == 1 && row.userId == 1 && row.status == Some(Pending)
    requires done == row.(status := Some(Completed))
    ensures FindRow([row], 1) == Some(row)
    ensures WithStatus([row], 1, Some(Completed)) == [done]
    ensures UsersWithTaskCounts([ann], [done]) == [UserTaskCount(1, ann.name, ann.email, 1)]
  {
    TasksOfAppend([], done, 1);
    assert [] + [done] == [done];
    var listing := UsersWithTaskCounts([ann], [done]);
    assert |listing| == 1 && listing[0] == UserTaskCount(1, ann.name, ann.email, 1);
  }

  /** A task for a user id that no row carries is stored all the same:
      nothing enforces the foreign key. */
  method UnknownUserTaskAccepted() returns (task: Reply<TaskResponse>, owned: Reply<seq<TaskRow>>)
    ensures task.Success? && task.code == 201 && task.body.userId == 999
    ensures owned.Success? && |owned.body| == 1 && owned.body[0].userId == 999
  {
    var row := TaskRow(1, 999, "X", None, Some(Pending), 0);
    SingleRowListing(row);
    var db := new Database();
    task := db.CreateTask(999, Some("X"), None, 0, "t0");
    assert db.tasks == [row];
    owned := db.ListUserTasks(999);
    assert owned.body[0] in multiset(owned.body);
  }

  /** The listing of a one-row table for that row's owner holds that row alone. */
  lemma SingleRowListing(row: TaskRow)
    ensures multiset(SortNewestFirst(TasksOf([row], row.userId))) == multiset{row}
  {
    TasksOfAppend([], row, row.userId);
    assert [] + [row] == [row];
  }
}

/** The two SQLite tables of `server/src/index.ts` and the meaning of the SQL
    statements its route handlers run over them, as functions on the rows. */
module ServerTables {
  import opened Wrappers
  import Seqs

  /** The largest rowid SQLite issues; an AUTOINCREMENT insert past it fails (SQLITE_FULL). */
  const MaxRowId: int := 0x7FFF_FFFF_FFFF_FFFF

  /** The `status` column's DEFAULT, and the one other value the toggle writes. */
  const Pending: string := "pending"
  const Completed: string := "completed"

  /** A row of `users(id INTEGER PRIMARY KEY AUTOINCREMENT, name TEXT NOT NULL, email TEXT UNIQUE NOT NULL)`. */
  datatype UserRow = UserRow(id: int, name: string, email: string)

  /** A row of `tasks`: `description` and `status` are nullable (`None` is NULL);
      `created_at` is the clock reading taken when the row was inserted. */
  datatype TaskRow = TaskRow(id: int, userId: int, title: string, description: Option<string>,
                             status: Option<string>, createdAt: int)

  /** A row of the user listing: `users.*` with `task_count`. */
  datatype UserTaskCount = UserTaskCount(id: int, name: string, email: string, taskCount: nat)

  /** The table invariants for users: positive ids in increasing insertion
      order, none above the last issued one, and UNIQUE emails. */
  ghost predicate UsersTableValid(users: seq<UserRow>, lastId: int)
  {
    && 0 <= lastId <= MaxRowId
    && (forall i :: 0 <= i < |users| ==> 0 < users[i].id <= lastId)
    && (forall i, j :: 0 <= i < j < |users| ==> users[i].id < users[j].id)
    && (forall i, j :: 0 <= i < j < |users| ==> users[i].email != users[j].email)
  }

  /** The table invariants for tasks: positive ids in increasing insertion
      order, none above the last issued one. */
  ghost predicate TasksTableValid(tasks: seq<TaskRow>, lastId: int)
  {
    && 0 <= lastId <= MaxRowId
    && (forall i :: 0 <= i < |tasks| ==> 0 < tasks[i].id <= lastId)
    && (forall i, j :: 0 <= i < j < |tasks| ==> tasks[i].id < tasks[j].id)
  }

  /** `WHERE user_id = ?` over the tasks table. */
  function TasksOf(tasks: seq<TaskRow>, userId: int): (r: seq<TaskRow>)
    ensures forall t :: t in r <==> t in tasks && t.userId == userId
    ensures Seqs.IsSubsequence(r, tasks)
  {
    Seqs.Filter(tasks, (t: TaskRow) => t.userId == userId)
  }

  lemma TasksOfAppend(tasks: seq<TaskRow>, t: TaskRow, userId: int)
    ensures TasksOf(tasks + [t], userId) ==
      TasksOf(tasks, userId) + (if t.userId == userId then [t] else [])
  {
    Seqs.FilterAppendOne(tasks, t, (x: TaskRow) => x.userId == userId);
  }

  // ---------------------------------------------------------------------------
  // GET /api/users: LEFT JOIN tasks ON users.id = tasks.user_id GROUP BY users.id

  /** The LEFT JOIN's group for user `u`: one joined row per matching task,
      or a single row whose task columns are all NULL when there is none. */
  function JoinedTasks(u: UserRow, tasks: seq<TaskRow>): (r: seq<Option<TaskRow>>)
    ensures |r| == if TasksOf(tasks, u.id) == [] then 1 else |TasksOf(tasks, u.id)|
    ensures forall t :: Some(t) in r <==> t in tasks && t.userId == u.id
    ensures None in r <==> forall t :: t in tasks ==> t.userId != u.id
  {
    var m := TasksOf(tasks, u.id);
    if m == [] then [None]
    else
      var g := seq(|m|, i requires 0 <= i < |m| => Some(m[i]));
      assert m[0] in m;
      assert forall t :: t in m ==> Some(t) in g by {
        forall t | t in m ensures Some(t) in g {
          var i :| 0 <= i < |m| && m[i] == t;
          assert g[i] == Some(t);
        }
      }
      g
  }

  /** `COUNT(tasks.id)`: the rows of a group whose `tasks.id` is not NULL.
      It is 0 exactly when every row is NULL-extended, and the group's size
      exactly when none is. */
  function CountNonNull(group: seq<Option<TaskRow>>): (r: nat)
    ensures r <= |group|
    ensures r == 0 <==> forall i :: 0 <= i < |group| ==> group[i].None?
    ensures r == |group| <==> forall i :: 0 <= i < |group| ==> group[i].Some?
  {
    if group == [] then 0
    else
      var rest := group[1..];
      assert forall i :: 0 < i < |group| ==> group[i] == rest[i - 1];
      (if group[0].Some? then 1 else 0) + CountNonNull(rest)
  }

  /** The aggregated `task_count` of user `u`: the number of task rows owned
      by the user, and 0 exactly when the user owns none, because the user's
      NULL-extended row counts nothing. */
  function TaskCount(u: UserRow, tasks: seq<TaskRow>): (r: nat)
    ensures r == |TasksOf(tasks, u.id)|
    ensures r == 0 <==> forall t :: t in tasks ==> t.userId != u.id
  {
    var g := JoinedTasks(u, tasks);
    if TasksOf(tasks, u.id) == [] then
      assert g[0] == None;
      CountNonNull(g)
    else
      assert forall i :: 0 <= i < |g| ==> g[i] in g;
      CountNonNull(g)
  }

  /** The whole listing: one row per user, in the users table's order. */
  function UsersWithTaskCounts(users: seq<UserRow>, tasks: seq<TaskRow>): (r: seq<UserTaskCount>)
    ensures |r| == |users|
    ensures forall i :: 0 <= i < |users| ==>
      r[i].id == users[i].id && r[i].name == users[i].name && r[i].email == users[i].email &&
      r[i].taskCount == |TasksOf(tasks, users[i].id)|
  {
    seq(|users|, i requires 0 <= i < |users| =>
      UserTaskCount(users[i].id, users[i].name, users[i].email, TaskCount(users[i], tasks)))
  }

  /** Inserting a task raises its owner's count by one and no other user's. */
  lemma TaskCountAfterInsert(u: UserRow, tasks: seq<TaskRow>, t: TaskRow)
    ensures TaskCount(u, tasks + [t]) == TaskCount(u, tasks) + (if t.userId == u.id then 1 else 0)
  {
    TasksOfAppend(tasks, t, u.id);
  }

  // ---------------------------------------------------------------------------
  // GET /api/users/:userId/tasks: WHERE user_id = ? ORDER BY created_at DESC

  /** Non-increasing `created_at`; the order among equal timestamps is left open. */
  ghost predicate NewestFirst(s: seq<TaskRow>)
  {
    forall i, j :: 0 <= i < j < |s| ==> s[i].createdAt >= s[j].createdAt
  }

  /** Places `t` into a listing that is already newest first. */
  function InsertNewestFirst(t: TaskRow, s: seq<TaskRow>): (r: seq<TaskRow>)
    requires NewestFirst(s)
    ensures NewestFirst(r)
    ensures multiset(r) == multiset(s) + multiset{t}
  {
    if s == [] then [t]
    else if t.createdAt >= s[0].createdAt then [t] + s
    else
      var rest := InsertNewestFirst(t, s[1..]);
      assert s == [s[0]] + s[1..];
      assert forall y :: y in rest ==> y in multiset(rest);
      PrependNewest(s[0], rest);
      [s[0]] + rest
  }

  /** A row no older than every row of a newest-first listing may go in front of it. */
  lemma PrependNewest(x: TaskRow, rest: seq<TaskRow>)
    requires NewestFirst(rest)
    requires forall y :: y in rest ==> y.createdAt <= x.createdAt
    ensures NewestFirst([x] + rest)
  {
    var r := [x] + rest;
    forall i, j | 0 <= i < j < |r| ensures r[i].createdAt >= r[j].createdAt {
      assert r[j] == rest[j - 1];
      if i > 0 {
        assert r[i] == rest[i - 1];
      } else {
        assert rest[j - 1] in rest;
      }
    }
  }

  /** `ORDER BY created_at DESC`, realised as an insertion sort. */
  function SortNewestFirst(s: seq<TaskRow>): (r: seq<TaskRow>)
    ensures NewestFirst(r)
    ensures multiset(r) == multiset(s)
  {
    if s == [] then []
    else
      assert s == [s[0]] + s[1..];
      InsertNewestFirst(s[0], SortNewestFirst(s[1..]))
  }

  // ---------------------------------------------------------------------------
  // PUT /api/tasks/:taskId/toggle and /status: SELECT status / UPDATE tasks SET status

  /** `db.get('SELECT status FROM tasks WHERE id = ?')`: the first row with
      the id, `None` where the driver yields `undefined`. */
  function FindRow(tasks: seq<TaskRow>, taskId: int): (r: Option<TaskRow>)
    ensures r.None? <==> forall t :: t in tasks ==> t.id != taskId
    ensures r.Some? ==> r.value in tasks && r.value.id == taskId
  {
    Seqs.Find(tasks, (t: TaskRow) => t.id == taskId)
  }

  /** `UPDATE tasks SET status = ? WHERE id = ?`. */
  function WithStatus(tasks: seq<TaskRow>, taskId: int, status: Option<string>): (r: seq<TaskRow>)
    ensures |r| == |tasks|
    ensures forall i :: 0 <= i < |tasks| ==>
      r[i] == if tasks[i].id == taskId then tasks[i].(status := status) else tasks[i]
  {
    if tasks == [] then []
    else
      [if tasks[0].id == taskId then tasks[0].(status := status) else tasks[0]]
      + WithStatus(tasks[1..], taskId, status)
  }

  /** The toggle rule: `'pending'` if the stored status is `'completed'`,
      `'completed'` for anything else, NULL included. */
  function ToggledStatus(current: Option<string>): (r: string)
    ensures r == Pending <==> current == Some(Completed)
    ensures r == Pending || r == Completed
  {
    if current == Some(Completed) then Pending else Completed
  }

  /** Toggling twice gives back the starting status exactly when it was
      `'pending'` or `'completed'`; any other value, or NULL, ends at `'pending'`. */
  lemma ToggleTwiceStatus(current: Option<string>)
    ensures Some(ToggledStatus(Some(ToggledStatus(current)))) == current <==>
      current == Some(Pending) || current == Some(Completed)
    ensures current != Some(Pending) && current != Some(Completed) ==>
      ToggledStatus(Some(ToggledStatus(current))) == Pending
  {
    assert Pending[0] != Completed[0];
  }

  /** An update on an id no row carries changes nothing. */
  lemma WithStatusMissing(tasks: seq<TaskRow>, taskId: int, status: Option<string>)
    requires forall t :: t in tasks ==> t.id != taskId
    ensures WithStatus(tasks, taskId, status) == tasks
  {
    var r := WithStatus(tasks, taskId, status);
    forall i | 0 <= i < |tasks| ensures r[i] == tasks[i] {
      assert tasks[i] in tasks;
    }
  }

  /** A status update keeps the table invariants: it touches no id. */
  lemma WithStatusValid(tasks: seq<TaskRow>, lastId: int, taskId: int, status: Option<string>)
    requires TasksTableValid(tasks, lastId)
    ensures TasksTableValid(WithStatus(tasks, taskId, status), lastId)
  {
    var r := WithStatus(tasks, taskId, status);
    assert forall i :: 0 <= i < |tasks| ==> r[i].id == tasks[i].id;
  }

  /** A later update of the same row overrides an earlier one. */
  lemma WithStatusTwice(tasks: seq<TaskRow>, taskId: int, a: Option<string>, b: Option<string>)
    ensures WithStatus(WithStatus(tasks, taskId, a), taskId, b) == WithStatus(tasks, taskId, b)
  {
  }

  /** Writing back the status a row already has changes nothing, when the id is a key. */
  lemma {:induction false} WithStatusUnchanged(tasks: seq<TaskRow>, taskId: int)
    requires forall i, j :: 0 <= i < j < |tasks| ==> tasks[i].id < tasks[j].id
    requires FindRow(tasks, taskId).Some?
    ensures WithStatus(tasks, taskId, FindRow(tasks, taskId).value.status) == tasks
  {
    var s := FindRow(tasks, taskId).value.status;
    var r := WithStatus(tasks, taskId, s);
    forall i | 0 <= i < |tasks| ensures r[i] == tasks[i] {
      if tasks[i].id == taskId {
        FindRowAt(tasks, i);
      }
    }
  }

  /** With increasing ids, the row found by id is the one at that id's position. */
  lemma FindRowAt(tasks: seq<TaskRow>, i: int)
    requires forall i, j :: 0 <= i < j < |tasks| ==> tasks[i].id < tasks[j].id
    requires 0 <= i < |tasks|
    ensures FindRow(tasks, tasks[i].id) == Some(tasks[i])
  {
    Seqs.FindFirst(tasks, (t: TaskRow) => t.id == tasks[i].id, i);
  }

  /** After the update, the row is found with the new status. */
  lemma {:induction false} FindAfterUpdate(tasks: seq<TaskRow>, taskId: int, status: Option<string>)
    ensures FindRow(WithStatus(tasks, taskId, status), taskId) ==
      match FindRow(tasks, taskId)
      case None => None
      case Some(t) => Some(t.(status := status))
  {
    if tasks != [] {
      var r := WithStatus(tasks, taskId, status);
      assert r[1..] == WithStatus(tasks[1..], taskId, status);
      FindAfterUpdate(tasks[1..], taskId, status);
    }
  }

  /** Two toggles of an existing row, each reading the status the previous one
      wrote, give back the table exactly when the row's status was `'pending'`
      or `'completed'`. */
  lemma DoubleToggle(tasks: seq<TaskRow>, taskId: int)
    requires forall i, j :: 0 <= i < j < |tasks| ==> tasks[i].id < tasks[j].id
    requires FindRow(tasks, taskId).Some?
    ensures
      var first := ToggledStatus(FindRow(tasks, taskId).value.status);
      var once := WithStatus(tasks, taskId, Some(first));
      FindRow(once, taskId).Some? &&
      var second := ToggledStatus(FindRow(once, taskId).value.status);
      (WithStatus(once, taskId, Some(second)) == tasks <==>
        FindRow(tasks, taskId).value.status in {Some(Pending), Some(Completed)})
  {
    var row := FindRow(tasks, taskId).value;
    var first := ToggledStatus(row.status);
    var once := WithStatus(tasks, taskId, Some(first));
    FindAfterUpdate(tasks, taskId, Some(first));
    var second := ToggledStatus(Some(first));
    var twice := WithStatus(once, taskId, Some(second));
    WithStatusTwice(tasks, taskId, Some(first), Some(second));
    ToggleTwiceStatus(row.status);
    if Some(second) == row.status {
      WithStatusUnchanged(tasks, taskId);
    } else {
      FindAfterUpdate(tasks, taskId, Some(second));
      assert FindRow(twice, taskId) != FindRow(tasks, taskId);
    }
  }

  /** Status updates never change any user's task count. */
  lemma {:induction false} TaskCountAfterUpdate(u: UserRow, tasks: seq<TaskRow>, taskId: int, status: Option<string>)
    ensures TaskCount(u, WithStatus(tasks, taskId, status)) == TaskCount(u, tasks)
  {
    OwnedCountAfterUpdate(tasks, u.id, taskId, status);
  }

  lemma {:induction false} OwnedCountAfterUpdate(tasks: seq<TaskRow>, userId: int, taskId: int, status: Option<string>)
    ensures |TasksOf(WithStatus(tasks, taskId, status), userId)| == |TasksOf(tasks, userId)|
  {
    if tasks != [] {
      var p := (x: TaskRow) => x.userId == userId;
      var r := WithStatus(tasks, taskId, status);
      assert r == [r[0]] + r[1..];
      assert tasks == [tasks[0]] + tasks[1..];
      assert r[1..] == WithStatus(tasks[1..], taskId, status);
      Seqs.FilterAppend([r[0]], r[1..], p);
      Seqs.FilterAppend([tasks[0]], tasks[1..], p);
      Seqs.FilterSingleton(r[0], p);
      Seqs.FilterSingleton(tasks[0], p);
      OwnedCountAfterUpdate(tasks[1..], userId, taskId, status);
    }
  }
}

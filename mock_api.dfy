/** The browser demo store of `src/api/mockApi.ts`: two whole collections, users
    and tasks, kept under the `task_manager_users` and `task_manager_tasks`
    keys and replaced wholesale by every operation that changes them.
    Ids and timestamps, which the store draws from `crypto.randomUUID()` and
    `new Date()`, are supplied by the caller. */
module MockApi {
  import opened Wrappers
  import Seqs

  /** The record `createUser` builds (src/types/User.ts). */
  datatype User = User(id: string, name: string, email: string, createdAt: string)

  /** The record `createTask` builds: completion is the boolean `completed`;
      no `status` field is ever written by this store. */
  datatype Task = Task(id: string, userId: string, title: string, description: string,
                       completed: bool, createdAt: string)

  /** No two elements share an id. */
  ghost predicate DistinctUserIds(users: seq<User>)
  {
    forall i, j :: 0 <= i < j < |users| ==> users[i].id != users[j].id
  }

  ghost predicate DistinctTaskIds(tasks: seq<Task>)
  {
    forall i, j :: 0 <= i < j < |tasks| ==> tasks[i].id != tasks[j].id
  }

  /** `getUserTasks`' filter: the tasks whose `user_id` equals `userId`. */
  function TasksOf(tasks: seq<Task>, userId: string): (r: seq<Task>)
    ensures forall t :: t in r <==> t in tasks && t.userId == userId
    ensures Seqs.IsSubsequence(r, tasks)
  {
    Seqs.Filter(tasks, (t: Task) => t.userId == userId)
  }

  /** The filter keeps every occurrence of an owned task and none of any other. */
  lemma TasksOfMultiset(tasks: seq<Task>, userId: string)
    ensures forall t :: multiset(TasksOf(tasks, userId))[t] ==
                        (if t.userId == userId then multiset(tasks)[t] else 0)
  {
    forall t
      ensures multiset(TasksOf(tasks, userId))[t] ==
        if t.userId == userId then multiset(tasks)[t] else 0
    {
      Seqs.FilterMultiset(tasks, (x: Task) => x.userId == userId, t);
    }
  }

  /** `toggleTaskCompletion`'s map callback: a task whose id matches has its
      `completed` negated, any other is returned as it is; no other field changes. */
  function Flip(t: Task, taskId: string): (r: Task)
    ensures r.completed == (t.completed != (t.id == taskId))
    ensures r.(completed := t.completed) == t
  {
    if t.id == taskId then t.(completed := !t.completed) else t
  }

  /** `tasks.map(...)` in `toggleTaskCompletion`: every task passed through `Flip`. */
  function Toggled(tasks: seq<Task>, taskId: string): (r: seq<Task>)
    ensures |r| == |tasks|
    ensures forall i :: 0 <= i < |tasks| ==> r[i] == Flip(tasks[i], taskId)
  {
    if tasks == [] then [] else [Flip(tasks[0], taskId)] + Toggled(tasks[1..], taskId)
  }

  /** `Array.prototype.find` by id: the first task with that id, `None` where
      JavaScript yields `undefined`. */
  function FindTask(tasks: seq<Task>, taskId: string): (r: Option<Task>)
    ensures r.None? <==> forall t :: t in tasks ==> t.id != taskId
    ensures r.Some? ==> r.value in tasks && r.value.id == taskId
  {
    Seqs.Find(tasks, (t: Task) => t.id == taskId)
  }

  /** Toggling the same id twice restores the collection exactly. */
  lemma ToggleTwice(tasks: seq<Task>, taskId: string)
    ensures Toggled(Toggled(tasks, taskId), taskId) == tasks
  {
    var once := Toggled(tasks, taskId);
    var twice := Toggled(once, taskId);
    forall i | 0 <= i < |tasks|
      ensures twice[i] == tasks[i]
    {
      assert twice[i] == Flip(once[i], taskId);
    }
  }

  /** Toggling an id no task carries leaves the collection unchanged. */
  lemma ToggleMissing(tasks: seq<Task>, taskId: string)
    requires forall t :: t in tasks ==> t.id != taskId
    ensures Toggled(tasks, taskId) == tasks
  {
    var r := Toggled(tasks, taskId);
    forall i | 0 <= i < |tasks|
      ensures r[i] == tasks[i]
    {
      assert tasks[i] in tasks;
    }
  }

  /** The task `toggleTaskCompletion` returns: the first task with the id,
      found after the flip, is the first one before it with `completed`
      negated; and there is none exactly when there was none. */
  lemma {:induction false} FindAfterToggle(tasks: seq<Task>, taskId: string)
    ensures FindTask(Toggled(tasks, taskId), taskId) ==
      match FindTask(tasks, taskId)
      case None => None
      case Some(t) => Some(t.(completed := !t.completed))
  {
    if tasks != [] {
      var r := Toggled(tasks, taskId);
      assert r[1..] == Toggled(tasks[1..], taskId);
      FindAfterToggle(tasks[1..], taskId);
    }
  }

  /** When ids are distinct, the task found by id is the one at that id's position. */
  lemma FindDistinct(tasks: seq<Task>, i: int)
    requires DistinctTaskIds(tasks)
    requires 0 <= i < |tasks|
    ensures FindTask(tasks, tasks[i].id) == Some(tasks[i])
  {
    Seqs.FindFirst(tasks, (t: Task) => t.id == tasks[i].id, i);
  }

  /** Appending a task extends its owner's listing by that task at the end and
      leaves every other user's listing as it was. */
  lemma TasksOfAppend(tasks: seq<Task>, t: Task, userId: string)
    ensures TasksOf(tasks + [t], userId) ==
      TasksOf(tasks, userId) + (if t.userId == userId then [t] else [])
  {
    Seqs.FilterAppendOne(tasks, t, (x: Task) => x.userId == userId);
  }

  /** Listing a user's tasks after a toggle gives that user's earlier listing
      with the same toggle applied: toggling moves no task between users and
      reorders nothing. */
  lemma {:induction false} TasksOfToggled(tasks: seq<Task>, taskId: string, userId: string)
    ensures TasksOf(Toggled(tasks, taskId), userId) == Toggled(TasksOf(tasks, userId), taskId)
  {
    if tasks != [] {
      var p := (x: Task) => x.userId == userId;
      var r := Toggled(tasks, taskId);
      assert r == [r[0]] + r[1..];
      assert tasks == [tasks[0]] + tasks[1..];
      assert r[1..] == Toggled(tasks[1..], taskId);
      TasksOfToggled(tasks[1..], taskId, userId);
      Seqs.FilterAppend([r[0]], r[1..], p);
      Seqs.FilterAppend([tasks[0]], tasks[1..], p);
      Seqs.FilterSingleton(r[0], p);
      Seqs.FilterSingleton(tasks[0], p);
      if tasks[0].userId == userId {
        var rest := TasksOf(tasks[1..], userId);
        assert TasksOf(tasks, userId) == [tasks[0]] + rest;
        assert Toggled([tasks[0]] + rest, taskId)[1..] == Toggled(rest, taskId);
      }
    }
  }

  /** The demo store: the two stored collections, in insertion order. */
  class Store {
    var users: seq<User>
    var tasks: seq<Task>

    /** Ids are fresh when issued, so no two stored records share one. */
    ghost predicate Valid()
      reads this
    {
      DistinctUserIds(users) && DistinctTaskIds(tasks)
    }

    /** A store with nothing under either key: both reads yield `[]`. */
    constructor ()
      ensures Valid()
      ensures GetUsers() == [] && GetAllTasks() == []
    {
      users := [];
      tasks := [];
    }

    /** `getUsers`: the stored users collection, whose ids are distinct. */
    function GetUsers(): (r: seq<User>)
      reads this
      ensures r == users
      ensures Valid() ==> DistinctUserIds(r)
    {
      users
    }

    /** `getAllTasks`: the stored tasks collection, whose ids are distinct. */
    function GetAllTasks(): (r: seq<Task>)
      reads this
      ensures r == tasks
      ensures Valid() ==> DistinctTaskIds(r)
    {
      tasks
    }

    /** `getUserTasks`: the stored tasks owned by `userId`, in stored order, unsorted. */
    function GetUserTasks(userId: string): (r: seq<Task>)
      reads this
      ensures forall t :: t in r <==> t in tasks && t.userId == userId
      ensures Seqs.IsSubsequence(r, tasks)
      ensures forall t :: multiset(r)[t] == if t.userId == userId then multiset(tasks)[t] else 0
    {
      TasksOfMultiset(tasks, userId);
      TasksOf(tasks, userId)
    }

    /** `createUser`: appends one user with the given fields and returns it.
        Neither uniqueness nor non-emptiness of the email is checked. */
    method CreateUser(id: string, name: string, email: string, now: string) returns (u: User)
      requires Valid()
      requires forall v :: v in users ==> v.id != id
      modifies this
      ensures Valid()
      ensures u.id == id && u.name == name && u.email == email && u.createdAt == now
      ensures users == old(users) + [u]
      ensures tasks == old(tasks)
    {
      u := User(id, name, email, now);
      assert forall i :: 0 <= i < |users| ==> users[i] in users;
      users := users + [u];
    }

    /** `createTask`: appends one task, not completed, owned by `userId`,
        without checking that such a user exists. */
    method CreateTask(userId: string, id: string, title: string, description: string, now: string)
      returns (t: Task)
      requires Valid()
      requires forall x :: x in tasks ==> x.id != id
      modifies this
      ensures Valid()
      ensures t.id == id && t.userId == userId && t.title == title
      ensures t.description == description && !t.completed && t.createdAt == now
      ensures tasks == old(tasks) + [t]
      ensures users == old(users)
    {
      t := Task(id, userId, title, description, false, now);
      assert forall i :: 0 <= i < |tasks| ==> tasks[i] in tasks;
      tasks := tasks + [t];
    }

    /** `toggleTaskCompletion`: flips `completed` on the task with `taskId` and
        returns it as stored afterwards; `None` when no task has that id. */
    method ToggleTaskCompletion(taskId: string) returns (r: Option<Task>)
      requires Valid()
      modifies this
      ensures Valid()
      ensures tasks == Toggled(old(tasks), taskId)
      ensures users == old(users)
      ensures r == FindTask(tasks, taskId)
      ensures r.None? <==> forall t :: t in old(tasks) ==> t.id != taskId
      ensures forall i :: 0 <= i < |old(tasks)| && old(tasks)[i].id == taskId ==>
                r == Some(old(tasks)[i].(completed := !old(tasks)[i].completed))
    {
      ghost var before := tasks;
      tasks := Toggled(tasks, taskId);
      r := FindTask(tasks, taskId);
      FindAfterToggle(before, taskId);
      forall i | 0 <= i < |before| && before[i].id == taskId
        ensures r == Some(before[i].(completed := !before[i].completed))
      {
        FindDistinct(before, i);
      }
    }
  }

  /** Two users with the same email are both stored: nothing in the store
      enforces email uniqueness. */
  method DuplicateEmailAccepted(email: string) returns (stored: seq<User>)
    ensures |stored| == 2
    ensures stored[0].email == email && stored[1].email == email
    ensures stored[0].id != stored[1].id
  {
    var store := new Store();
    var a := store.CreateUser("u-1", "Ann", email, "t0");
    var b := store.CreateUser("u-2", "Bob", email, "t1");
    stored := store.GetUsers();
  }
}

# Task manager data access, modelled in Dafny

This project models the two pieces of the task-manager application that hold
its data: the browser demo store in `src/api/mockApi.ts`, and the Express
route handlers over SQLite in `server/src/index.ts`. Users own tasks, and
tasks carry a completion state. The demo store keeps a boolean `completed`.
The server keeps a free-form `status` string. Each store is modelled as it
behaves, and the model does not assume the two representations convert
without loss.

- `wrappers.dfy` (`Wrappers`): `Option`. `None` stands for JavaScript's `undefined`, an absent request-body field, or SQL NULL.
- `seqs.dfy` (`Seqs`): an order-preserving `Filter`, with its lemmas. It gives the meaning of `Array.prototype.filter` and of SQL's `WHERE`. Also `Find` and `FindFirst`, the lookup of the first element that satisfies a predicate. They give the meaning of `Array.prototype.find` (`src/api/mockApi.ts:69`) and of the single-row `db.get` (`server/src/index.ts:122`).
- `mock_api.dfy` (`MockApi`): the demo store. The class `Store` holds the users and tasks collections (the `task_manager_users` and `task_manager_tasks` entries). `createUser`, `createTask` and `toggleTaskCompletion` reassign those fields. The reads are functions. The filter and the map-flip are pure functions with lemmas.
- `server_tables.dfy` (`ServerTables`): the rows of the `users` and `tasks` tables and their invariants. It also spells out each SQL statement as a function:
  - the LEFT JOIN with `COUNT(tasks.id)`;
  - `WHERE user_id = ? ORDER BY created_at DESC`;
  - `SELECT status ... WHERE id = ?`;
  - `UPDATE tasks SET status = ? WHERE id = ?`.
- `server_routes.dfy` (`ServerRoutes`): the class `Database` holds both tables and the AUTOINCREMENT counters. The two GET routes are query functions. The POST and PUT routes are methods that return a `Reply`: a success code and body, or 500 with the handler's own message. Two client methods replay concrete request sequences.

The code is looser than the application's intended contract in several places, and the model follows the code:
- The demo store's `createUser` does not reject a duplicate or empty email.
- The server's create-task route does not reject an unknown user. Nothing enables SQLite's foreign keys.
- The server's set-status route replies 200 for an unknown task id and changes nothing.
- `status` is a free string. The set-status route can store any value, or NULL. So toggling twice restores only `'pending'` and `'completed'`.
- The toggle route reads the row, then writes it. The model runs it as one sequential step.

Ids and timestamps that the code draws from `crypto.randomUUID()`, `new Date()` and `CURRENT_TIMESTAMP` are parameters supplied by the caller. Demo-store ids must be fresh (a precondition). Server ids come from the AUTOINCREMENT counters.

## Model

| member | source | states |
|---|---|---|
| `Seqs.Filter` | src/api/mockApi.ts:37 | The result holds exactly the input's elements that satisfy the predicate. It is a subsequence of the input, so their order is kept. |
| `Seqs.Find` | src/api/mockApi.ts:69 | The lookup yields nothing iff no element satisfies the predicate. Otherwise it yields an element of the input that satisfies it. |
| `Seqs.FindFirst` | src/api/mockApi.ts:69 | The element found is the one at the first position that satisfies the predicate. |
| `Seqs.FilterAppend` | src/api/mockApi.ts:37 | Filtering distributes over concatenation. With the singleton case, this fixes the result's order to the input's order. |
| `Seqs.FilterAppendOne` | src/api/mockApi.ts:37 | Appending one element extends the filtered result by that element exactly when it satisfies the predicate. |
| `Seqs.FilterSingleton` | src/api/mockApi.ts:37 | A one-element sequence is kept exactly when its element satisfies the predicate. |
| `Seqs.FilterMultiset` | src/api/mockApi.ts:37 | Every satisfying element keeps all of its occurrences. Every other element keeps none. |
| `MockApi.TasksOf` | src/api/mockApi.ts:37 | A task is in the filtered listing iff it is stored and its `user_id` equals the requested id. The listing keeps the stored order. |
| `MockApi.TasksOfMultiset` | src/api/mockApi.ts:37 | The listing contains each owned task exactly as often as it is stored, and no other task. |
| `MockApi.Flip` | src/api/mockApi.ts:65-66 | A task whose id matches has `completed` negated. Any other task keeps it. No other field changes. |
| `MockApi.Toggled` | src/api/mockApi.ts:65-67 | The map keeps the collection's length, and each position holds the flip of the task stored there. |
| `MockApi.FindTask` | src/api/mockApi.ts:69 | `find` yields nothing iff no task has the id. Otherwise it yields a stored task with that id. |
| `MockApi.ToggleTwice` | src/api/mockApi.ts:65-66 | Toggling the same id twice restores the task collection exactly. |
| `MockApi.ToggleMissing` | src/api/mockApi.ts:65-69 | Toggling an id that no task carries leaves the collection unchanged. |
| `MockApi.FindAfterToggle` | src/api/mockApi.ts:65-69 | The returned task is the first stored task with the id, with `completed` negated. There is none exactly when there was none before. |
| `MockApi.FindDistinct` | src/api/mockApi.ts:69 | With distinct ids, finding by a stored task's id yields that task. |
| `MockApi.TasksOfAppend` | src/api/mockApi.ts:33-54 | After an append, the owner's listing gains the new task at its end. Every other user's listing is unchanged. |
| `MockApi.TasksOfToggled` | src/api/mockApi.ts:62-69 | A user's listing after a toggle equals the earlier listing with the same toggle applied. No task moves between users, and nothing is reordered. |
| `MockApi.Store.constructor` | src/api/mockApi.ts:12-16 | With nothing stored, `getUsers` and `getAllTasks` both yield the empty sequence. |
| `MockApi.Store.GetUsers` | src/api/mockApi.ts:12-16 | Yields the stored users collection: `[]` on a new store, and with distinct ids. |
| `MockApi.Store.GetAllTasks` | src/api/mockApi.ts:57-60 | Yields the stored tasks collection: `[]` on a new store, and with distinct ids. |
| `MockApi.Store.GetUserTasks` | src/api/mockApi.ts:33-38 | Returns exactly the stored tasks owned by the user, each as often as stored, in stored order and unsorted. |
| `MockApi.Store.CreateUser` | src/api/mockApi.ts:18-31 | Appends exactly one user with the given id, name, email and timestamp at the end. Returns that user. Earlier users and all tasks are unchanged. Ids stay distinct. The email is not checked. |
| `MockApi.Store.CreateTask` | src/api/mockApi.ts:40-55 | Appends one task with the given `user_id`, title and description, and `completed = false`. Earlier tasks and the users are unchanged. There is no check that the user exists. |
| `MockApi.Store.ToggleTaskCompletion` | src/api/mockApi.ts:62-70 | The new collection is the map-flip of the old one. Users are unchanged. The result is `None` iff no task had the id. Otherwise it is that task with `completed` negated. |
| `MockApi.DuplicateEmailAccepted` | src/api/mockApi.ts:18-30 | Two users created with the same email are both stored, with different ids. |
| `ServerTables.TasksOf` | server/src/index.ts:81 | `WHERE user_id = ?` selects a row iff the row is stored and carries that `user_id`. The selection keeps table order, before any sort. |
| `ServerTables.TasksOfAppend` | server/src/index.ts:96-99 | An inserted task row joins its owner's selection at the end. Every other user's selection is unchanged. |
| `ServerTables.JoinedTasks` | server/src/index.ts:53-55 | A user's LEFT JOIN group holds a joined row for exactly the user's task rows, one per row. It holds a single NULL-extended row exactly when the user owns no task. |
| `ServerTables.CountNonNull` | server/src/index.ts:52 | `COUNT(tasks.id)` is at most the group's size. It is 0 iff every row of the group is NULL-extended, and equals the size iff none is. |
| `ServerTables.TaskCount` | server/src/index.ts:49-56 | The LEFT JOIN/COUNT aggregate for a user equals the number of task rows with that `user_id`. It is 0 exactly when there are none, because the user's NULL-extended row counts nothing. |
| `ServerTables.UsersWithTaskCounts` | server/src/index.ts:49-56 | One listing row per user, in table order, carrying the user's columns and a `task_count` equal to the number of that user's task rows. |
| `ServerTables.TaskCountAfterInsert` | server/src/index.ts:96-99 | Inserting a task raises its owner's `task_count` by one and no other user's. |
| `ServerTables.InsertNewestFirst` | server/src/index.ts:81 | Inserting into a newest-first listing keeps it newest first and adds exactly the one row. |
| `ServerTables.PrependNewest` | server/src/index.ts:81 | A row no older than every row of a newest-first listing may go in front of it. |
| `ServerTables.SortNewestFirst` | server/src/index.ts:81 | `ORDER BY created_at DESC` yields a permutation of its input with non-increasing `created_at`. |
| `ServerTables.FindRow` | server/src/index.ts:122 | The lookup yields nothing iff no row has the id. Otherwise it yields a stored row with that id. |
| `ServerTables.FindRowAt` | server/src/index.ts:122 | With increasing ids, the lookup by a stored row's id yields that row. |
| `ServerTables.WithStatus` | server/src/index.ts:142-145 | The UPDATE keeps the table's length. It sets `status` on the rows whose id matches and leaves every other row identical. |
| `ServerTables.WithStatusValid` | server/src/index.ts:125-128 | A status UPDATE preserves the tasks table's id invariants. |
| `ServerTables.WithStatusMissing` | server/src/index.ts:142-145 | An UPDATE on an id that no row carries changes nothing. |
| `ServerTables.WithStatusTwice` | server/src/index.ts:142-145 | A later status UPDATE of the same id overrides an earlier one. |
| `ServerTables.WithStatusUnchanged` | server/src/index.ts:142-145 | Writing back a row's current status leaves the table unchanged. |
| `ServerTables.FindAfterUpdate` | server/src/index.ts:122-128 | After the UPDATE, the lookup yields the same row with the new status. It yields nothing exactly when it did before. |
| `ServerTables.ToggledStatus` | server/src/index.ts:123 | The new status is `'pending'` iff the stored status is `'completed'`. Otherwise it is `'completed'`, NULL included. |
| `ServerTables.ToggleTwiceStatus` | server/src/index.ts:123 | Two toggles restore the status iff it was `'pending'` or `'completed'`. Any other value, or NULL, ends at `'pending'`. |
| `ServerTables.DoubleToggle` | server/src/index.ts:122-128 | Two toggle routes on an existing row, each reading what the previous one wrote, restore the whole table iff the row's status was `'pending'` or `'completed'`. |
| `ServerTables.TaskCountAfterUpdate` | server/src/index.ts:125-128 | A status UPDATE never changes any user's `task_count`. |
| `ServerTables.OwnedCountAfterUpdate` | server/src/index.ts:142-145 | A status UPDATE never changes how many rows a user owns. |
| `ServerRoutes.Database.constructor` | server/src/index.ts:25-39 | A new database has both tables empty and no ids issued. The table invariants hold. |
| `ServerRoutes.Database.ListUsers` | server/src/index.ts:46-61 | Replies 200 with one row per user. `task_count` equals the number of task rows with that user's id, and is 0 iff there are none. |
| `ServerRoutes.Database.CreateUser` | server/src/index.ts:63-75 | Succeeds iff name and email are both present, the email is not taken and ids remain. On success it replies 201 with an id one above the last issued, which is above every existing id, and appends exactly that row. Otherwise it replies 500 and changes nothing. Emails stay unique. |
| `ServerRoutes.Database.ListUserTasks` | server/src/index.ts:77-88 | Replies 200 with a permutation of exactly the rows with that `user_id`, ordered by non-increasing `created_at`. Ties are in no particular order. |
| `ServerRoutes.Database.CreateTask` | server/src/index.ts:90-115 | Succeeds iff the title is present and ids remain, whether or not the user exists. It appends one row with status `'pending'` and an id above every earlier one. It replies 201 with `completed = false`, `status = 'pending'` and the route's `user_id`. Otherwise it replies 500 and changes nothing. |
| `ServerRoutes.Database.ToggleStatus` | server/src/index.ts:117-134 | For a missing id it replies 500 and changes nothing. Otherwise it writes the toggled status to that row only and replies 200 with the value written. |
| `ServerRoutes.Database.SetStatus` | server/src/index.ts:136-151 | Stores the given status verbatim (NULL when absent) on the row with the id. Always replies 200 with that status. On a missing id the table is unchanged. |
| `ServerRoutes.AnnScenario` | server/src/index.ts:63-134 | On a new database: creating Ann gives id 1, and her task gets id 1 with `completed = false`. Toggling gives `'completed'`. The listing is Ann with `task_count` 1. |
| `ServerRoutes.AnnCreate` | server/src/index.ts:63-115 | The user and task inserts of that sequence, with the resulting tables. |
| `ServerRoutes.AnnToggleAndList` | server/src/index.ts:117-134 | The toggle and the listing of that sequence, on those tables. |
| `ServerRoutes.AnnRows` | server/src/index.ts:49-56 | The lookup, update and count on the one-row tables of that sequence. |
| `ServerRoutes.UnknownUserTaskAccepted` | server/src/index.ts:96-99 | A task for user 999 on an empty database is created (201) and is listed for user 999. |
| `ServerRoutes.SingleRowListing` | server/src/index.ts:80-83 | The listing of a one-row table, for that row's owner, holds that row alone. |

## Left out

- Browser storage, JSON (de)serialisation and the simulated `delay`: the store's collections are fields, and reading one is reading the field.
- `crypto.randomUUID()`, `new Date()` and `CURRENT_TIMESTAMP`: ids and timestamps are parameters. The create-task response's `created_at` is a separate string, not the stored value.
- `MockApi.Task`: the demo store writes no `status` field and uses string ids, although `src/types/Task.ts` declares `status` and numeric ids. The model keeps only what the store writes.
- Express, cors, `app.listen`, the sqlite driver and console logging. Route parameters arrive as integers, so `parseInt`'s NaN case and SQLite's text-to-integer affinity are not modelled.
- Storage failures other than the constraints modelled (NOT NULL, UNIQUE, and AUTOINCREMENT exhaustion): the two GET routes always reply 200.
- `ServerRoutes.Database.CreateUser`: the returned id is an unbounded integer. JavaScript's loss of precision above 2^53 in `lastID` is not modelled.
- `ServerRoutes.Database.CreateTask`: the same holds for the created task's id, read from `result.lastID` (`server/src/index.ts:102`). The model replies with the exact id.
- Row order of `GET /api/users`: the model lists users in table order, which is ascending id. SQLite does not promise any order without ORDER BY.
- Foreign-key enforcement: nothing enables it, so the model has no user check on task creation.
- Concurrency: the read-then-write race of the toggle route, and the whole-collection rewrite in the demo store. All operations run sequentially.
- The client wrapper in `src/integrations/client.ts`, the hosted-backend adapter in `src/api/supabaseApi.ts`, the React pages and components, and the build configuration. These are transport, SDK calls and rendering. The forms' trim-and-non-empty submit guard is not a precondition here, because the stores themselves accept empty strings.
- The module `server/src/Task.ts` imported by the server is not part of this model. The create-task response follows the object literal the handler builds.

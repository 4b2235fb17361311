# Task tracker: a verified model of its request handlers

The tracker is a small HTTP service. Users register with a login and a
password, log in with the password grant to get a bearer token, add dated and
optionally tagged tasks, list their open tasks grouped by tag, and mark tasks
done. It keeps everything in two tables: `users(id, login, password)` and
`tasks(id, text, date, is_done, user_id, tag)`.

This project models those handlers in Dafny, with the two tables held as
sequences of rows:

- `common.dfy`, module `Common`: days as integers, `Option`/`Result`, the
  error outcomes, and the HTTP status each one is reported with.
- `passwords.dfy`, module `Passwords`: password hashing kept opaque. The model
  relies only on the lemma `VerifyHash`: a hash verifies against the password
  it was made from.
- `store.dfy`, module `Store`: pure definitions over the tables:
  - row lookups by login and by id;
  - request validation for `UserReg` and `Task`;
  - the login decision;
  - the `UPDATE` of `mark_done`;
  - the listing query (`WHERE` filter, then `ORDER BY date ASC`);
  - the invariant the tables keep between requests (`Consistent`).
- `grouping.dfy`, module `Grouping`: the grouping loop of `get_tasks`.
  - `GroupTasks` is that loop, imperative like the source, building a
    dictionary and its key order.
  - `Keys` and `Select` are reference definitions it is proved against.
  - Lemmas prove the promised properties: rows are partitioned among groups,
    order is stable within a group, keys appear in first-occurrence order, no
    group is empty, and the `"without tag"` rule holds.
- `tracker.dfy`, module `Tracker`: class `TaskTracker`, which holds the
  tables and the next serial ids.
  - Its methods are the endpoints: `Register`, `AddTask` (and
    `AddTaskAsWritten`, the handler as written), `MarkDone`,
    `Login` and `GetTasks`.
  - Each method states its outcome and the new table contents in terms of
    `Store` and `Grouping`, and preserves `Consistent`.
  - Lemmas at the end connect the listing to the table contents.

The bearer token is modelled as the integer user id. The current day is a
parameter.

A few behaviours of the code are worth stating up front:

- A request to mark another user's task done fails with status 422
  (main.py:145).
- Registration reports a taken login before it looks at the password. The
  login field is validated first and raises at once (main.py:46-54).
- The code's own comment gives the `add_task` default date as tomorrow
  (main.py:86). As written, though, the default is computed once, when the
  server starts (main.py:59). `TaskTracker.AddTaskAsWritten` models that
  handler as written: an omitted date becomes the day after the server's
  start day. `TaskTracker.AddTask` is the handler with the intended default,
  the day after the request. The rest of the model uses `AddTask`. The
  discrepancy is listed under Findings below.

## Model

| member | source | states |
|---|---|---|
| Store.FindUser | main.py:158-161 | Finds the first user with the login. It is absent exactly when no user has that login, and no earlier user has it. |
| Store.RegistrationError | main.py:42-54 | A taken login gives "User already exists" whatever the password. Otherwise a password shorter than 8 characters is a validation error. The body is accepted exactly when the login is free and the password has at least 8 characters. |
| Store.LoginOutcome | main.py:152-167 | An unknown login gives status 400. Otherwise the only outcomes are "Incorrect password" (status 422) or a token. A token is the id of a user with that login whose stored hash verifies against the password. |
| Store.LoginOfExistingUser | main.py:161-165 | When logins are unique, logging in as an existing user yields that user's id exactly when the password verifies against that user's hash. Otherwise it yields "Incorrect password". |
| Store.RegisterThenLogin | main.py:82 | After a login that was free is registered, logging in with the same password returns the new user's id as the token. |
| Store.RegisterTwice | main.py:51-53 | Registering a login a second time fails with "User already exists", whatever the password. |
| Store.ValidateTask | main.py:57-60 | A task body is accepted exactly when the text has at most 256 characters and any given date is after today. An accepted date is always after today. An omitted date becomes tomorrow and an omitted tag becomes "". A rejection lists exactly the failing fields. |
| Store.ValidateTaskAsWritten | main.py:59 | The validation as written: it accepts the same bodies, but an omitted date becomes the day after the server started. |
| Store.StaleDefaultDate | main.py:59 | A server started on day 3 that gets a request without a date on day 10 accepts the task with a past date (day 4). |
| Store.AsWrittenAgreesOnFirstDay | main.py:59 | Both validations agree when a date is given, and on requests made on the day the server started. |
| Store.FindTask | main.py:66-74 | Finds the first task with the id. It is absent exactly when no task has that id. |
| Store.SetDone | main.py:147 | The `UPDATE` of `mark_done`. It keeps every row in place and changes only the done flag. It sets the flag on exactly the rows with that id and never clears it. |
| Store.SetDoneTwice | main.py:139-149 | Marking done is idempotent. After the update, a second request finds the same task, with the same owner and text. |
| Store.OpenTasks | main.py:98-103 | The `WHERE` clause keeps each task that the filter admits as often as it occurs in the table, and drops every other task. Admitted means: owned by the requester, not done, and carrying exactly the tag when the filter is non-empty. |
| Store.SortByDate | main.py:108 | `ORDER BY date ASC` returns a permutation of its input in ascending date order. |
| Store.ListOpen | main.py:98-108 | The listing query is in ascending date order. It keeps each admitted task with its multiplicity, and no other task. |
| Store.ListOpenMembers | main.py:99-103 | A task is listed exactly when it is in the table and passes the filter. |
| Store.SetDoneOpenRows | main.py:147 | After the update, the open rows are the earlier open rows except those with the updated id. |
| Store.SetDoneHidesTask | main.py:147 | After marking a task done, every listing lists the same tasks as before, except those with that id. |
| Grouping.SelectMembers | main.py:111-130 | The group for a key holds the items of exactly the rows whose tag is that key. Empty tags count as the key "without tag". |
| Grouping.KeysExact | main.py:115-125 | The dictionary lists each key at most once. A key is listed exactly when some row has it. |
| Grouping.GroupTasks | main.py:111-132 | The loop produces the keys in first-occurrence order (`Keys`). Its dictionary has exactly those keys, and each key maps to its group (`Select`). |
| Grouping.KeysStep | main.py:115-116 | One step of the scan adds a row's key to the key order exactly when the key has not been seen yet. |
| Grouping.SelectStep | main.py:117-130 | One step of the scan appends the row's item to its own key's group and to no other group. |
| Grouping.SelectAppend | main.py:117-130 | Grouping is stable. The group of a concatenation is the first part's group followed by the second part's group. |
| Grouping.GroupNonEmpty | main.py:115-130 | A group is non-empty exactly when its key is listed, so no listed group is empty. |
| Grouping.KeysOfPrefix | main.py:112-125 | The keys of every prefix of the rows are a prefix of the final key order. |
| Grouping.KeysInFirstOccurrenceOrder | main.py:124-125 | If key a is listed before key b, every row with key b is preceded by a row with key a. |
| Grouping.GroupsDateAscending | main.py:108-130 | Date-ascending rows give date-ascending groups. |
| Grouping.ConcatExtend | main.py:126-130 | A new row adds its item exactly once to the combined groups of distinct keys that include its key. |
| Grouping.GroupsPartitionRows | main.py:112-130 | Together the groups hold every row's item exactly as often as the rows do, so every row is in exactly one group. |
| Grouping.UntaggedShareGroup | main.py:114-117 | An untagged row and a row tagged with the literal "without tag" land in the same group. |
| Grouping.SampleKeys | main.py:111-130 | For "work", "work", "", "personal", the keys are "work", "without tag", "personal". |
| Grouping.SampleGroups | main.py:117-130 | For the same rows, "work" holds the two work tasks in order, and each of the other groups holds one task. |
| Common.Status | main.py:53-163 | The status of each refusal. 404 is given only for a missing task (main.py:72), 400 only for an unknown login (main.py:159), and 500 only for the store's foreign-key refusal. Every other refusal is 422: validation, a taken login (main.py:53), another user's task (main.py:145) and a wrong password (main.py:163). |
| Store.Consistent | main.py:23-39 | What the tables keep between requests. Serial ids are positive, distinct and below the next id (`id serial PRIMARY KEY`). Logins are unique, as registration checks. Every task's `user_id` is an existing user (`FOREIGN KEY`). So the next user id and the next task id are fresh. The constructor and every handler keep it (`Valid`). |
| Tracker.TaskTracker.constructor | main.py:23-39 | The tables start empty and serial ids start at 1. The start day is recorded. The store invariant holds. |
| Tracker.TaskTracker.Register | main.py:78-84 | A refused body changes nothing and reports the validation's error. An accepted body appends exactly one user (the next id, the login and the hash of the password) and reports "<login> registered". Tasks are untouched and the store invariant is kept. |
| Tracker.TaskTracker.AddTask | main.py:86-93 | The handler with the intended default date. An invalid body is refused with the validation's error. A requester who is not a user is refused by the foreign key. Both refusals change nothing. Otherwise exactly one task is appended: the next id, the validated text, date and tag, not done, owned by the requester. Its id is returned. The stored date is always after the day of the request. |
| Tracker.TaskTracker.AddTaskAsWritten | main.py:57-93 | The handler as written. It refuses an invalid body with the validation's error, and a requester who is not a user by the foreign key; both refusals change nothing. Otherwise it appends the same kind of row as `AddTask`. For a body without a date, the stored date is the day after the server's start day, whatever the day of the request. |
| Tracker.TaskTracker.Insert | main.py:91 | The `INSERT ... RETURNING id`. An owner who is not a user is refused (foreign key) and nothing changes. Otherwise one open task with the next serial id is appended and that id is returned. |
| Tracker.TaskTracker.MarkDone | main.py:135-149 | An unknown id gives "Task not found" (404). Another user's task gives "You can change only yours tasks" (422). Both refusals leave the tasks unchanged. For the owner, the table becomes the update `SetDone` and the task's text is returned. |
| Tracker.TaskTracker.Login | main.py:152-167 | The handler returns `LoginOutcome` of the current users. |
| Tracker.TaskTracker.GetTasks | main.py:96-132 | The response is the grouping of the listing query. Its key order and its group for each key are those of `Keys` and `Select` over the rows of `ListOpen`. |
| Tracker.ListingGroupMembers | main.py:99-130 | An item is in group k of a listing exactly when it comes from a task in the table that the filter admits and whose key is k. |
| Tracker.ListingGroupsDateAscending | main.py:108-130 | Every group of every listing is in ascending date order. |
| Tracker.AddedTaskIsListed | main.py:91 | A task just added is listed for its owner in its key's group, both without a filter and with its own tag as the filter. |
| Tracker.MarkedTaskLeavesListing | main.py:147 | Once a task is marked done, no group of any listing holds it. |

## Findings

| source | as written | input that shows it | evidently intended | confidence | as-written member | corrected member |
|---|---|---|---|---|---|---|
| main.py:59 | The default date of `Task` is computed once, when the module is imported. A default value is not run through the `FutureDate` check. | The server starts on day 3. On day 10, `add_task` is called without a date. The task is stored with date day 4, in the past. | An omitted date means the day after the request, which is always in the future. | high; not executed | Store.ValidateTaskAsWritten, Store.StaleDefaultDate, Tracker.TaskTracker.AddTaskAsWritten | Store.ValidateTask, Tracker.TaskTracker.AddTask |

`TaskTracker.AddTaskAsWritten` calls `ValidateTaskAsWritten` with the start day
the constructor recorded. `TaskTracker.AddTask` calls the corrected
`ValidateTask`, and the rest of the model uses it.

## Left out

- HTTP routing, FastAPI dependencies and the OAuth2 form and bearer
  extraction are framework code. So are the 401 for a missing token and the
  500 that `int(token)` raises for a non-numeric token. The token is an
  integer user id.
- Database connections and the SQL text are not modelled. The tables are
  sequences of rows. The queries are built by string interpolation, so a
  quote in a login, text or tag breaks them or injects SQL. This is not
  modelled.
- Creating the tables at start-up is not modelled. The constructor starts from
  empty tables. The schema's mismatches are storage details:
  - `tasks` is created without a `tag` column, but inserts use one;
  - `password varchar(20)` is shorter than a pbkdf2 hash;
  - `login varchar(20)` and `text varchar(256)` are length limits of the
    database.
- Reading the two secrets from `../data.json` is configuration I/O and is not
  modelled.
- pbkdf2-sha256 is a foreign library. `Passwords.Hash` and `Passwords.Verify`
  are stand-ins, and the proofs use only `Passwords.VerifyHash`.
- The wall clock is not modelled. The current day is a parameter of each
  handler. The start-up day is a parameter of the constructor.
- Concurrency is not modelled. Each handler is one atomic step, so two
  requests cannot race between a check and the insert that follows it, for
  example two registrations of the same login.
- Response bodies are represented only by the values that carry information:
  - `Register` returns "<login> registered";
  - `AddTask` returns the new id;
  - `MarkDone` returns the task's text;
  - `Login` returns the token.

  The fixed wording and the `token_type` field are not modelled.
- Store.SortByDate: the database may order tasks with equal dates either way.
  The model fixes one order, a stable insertion sort. The grouping properties
  hold for any date-ascending order.
- Store.FindUser: a SQL `fetchone()` without `ORDER BY` may return any
  matching row. The model takes the first one. This makes no difference while
  logins are unique, which `Consistent` keeps.
- Tracker.TaskTracker.Insert: an insert refused by the foreign key still uses
  up a value of the `serial` sequence in the database. The model leaves
  `nextTaskId` unchanged. Ids stay fresh and increasing either way.
- NULL tags cannot occur, because tags are strings. The empty string is the
  only untagged value.

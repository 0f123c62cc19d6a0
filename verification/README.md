# ToDO-task: a Dafny model of the task tracker's core

The application is a personal task list. A React client lets a signed-in user add, list, toggle,
rename and delete short text tasks. An Express service stores the tasks per user behind
email/password accounts and signed bearer tokens. This project models the three pieces of
logic that can be stated exactly. Each is built from immutable datatypes and pure functions.

- **The task controller** (`TaskStore`, in `task_store.dfy`). The collection is a sequence of
  `Task(id, title, completed, owner, createdAt)` records. There are four operations:
  `GetTasks`, `CreateTask`, `UpdateTask` and `DeleteTask`. Every lookup is keyed on both the
  task id and the requesting user. The proved properties are:
  - owner isolation, for both reads and writes;
  - the partial-update rule (`??` for the title, `!== undefined` for `completed`);
  - newest-first listing;
  - delete idempotence;
  - the unique-id invariant.
- **The client page state** (`TaskList`, `TaskRow` and `TaskForm`). These are pure
  transitions for:
  - the home page's list: fetch, prepend, replace by id, remove by id, three-way filter, counters;
  - each row's `viewing ⇄ editing` machine, with its edit buffer and `loading` flag;
  - the new-task form's submit guard.
- **The authentication decisions** (`Auth`). These are `Register`, `Login`, `VerifyToken` and
  `GenerateToken`. They work over a sequence of `Account(id, email, hash)` records.
  - The bcrypt comparison is a `matches` relation that the caller passes in.
  - The JWT is its abstract payload `Token(subject, issuedAt, expiresAt)`.

Two support modules hold the shared helpers:

- `Text` models JavaScript's `trim` and its UTF-16 `length`.
- `Seqs` holds an order-preserving `Filter` (JavaScript's `Array.prototype.filter`) and a
  subsequence relation.

`Flows` connects the client and the server in end-to-end lemmas. For example, it shows what a
toggle sends, what the server stores, and what the page shows next.

Modelling choices:

- Values from outside the program become parameters:
  - the store's fresh ids, creation times and schema defaults (`Stamp`);
  - the bcrypt hash and the `matches` relation;
  - the clock for token issue (`now`, in seconds);
  - the outcome of every awaited HTTP call (`Call`);
  - the user's answer to the confirmation dialog (`confirmed`).
- A few points of the code's behaviour that the model keeps as written:
  - The server stores a created task's title as received, without trimming or rejecting a blank
    one. Only the client checks for blank titles.
  - The server does not set `completed` on create. The Task schema's default decides it, so the
    model takes it as `Stamp.completed`.
  - A duplicate email is answered with 400 (Bad Request).
  - Login answers 400 when the email or password is missing, and 401 for a wrong email or
    password.
- Emails are compared exactly, with no case folding. This matches the `findOne({ email })` query.

## Model

| member | source | states |
|---|---|---|
| Text.Trim | client/src/components/TaskForm.jsx:7 | the trimmed text is the input minus a whitespace-only prefix and a whitespace-only suffix; it neither starts nor ends with whitespace, and it is empty exactly when the input is whitespace only |
| Text.Utf16Length | server/controllers/authController.js:15 | a password's JavaScript length counts UTF-16 code units: the character count plus one for each character outside the Basic Multilingual Plane, so between one and two per character |
| Text.Utf16LengthOfBmp | server/controllers/authController.js:15 | for text inside the Basic Multilingual Plane, the length the minimum-password check sees is the character count |
| TaskStore.GetTasks | server/controllers/taskController.js:3-6 | the list holds a task iff the requester owns it; it is a permutation of the requester's tasks, ordered by creation time, newest first; status 200 |
| TaskStore.CreateTask | server/controllers/taskController.js:8-12 | exactly one record is added, owned by the requester and holding the title as given; every existing record stays as it was; the reply is 201 with the new record |
| TaskStore.FindOwned | server/controllers/taskController.js:15 | the lookup finds the first record matching both the id and the requester, and it finds nothing iff no record matches both |
| TaskStore.ApplyPatch | server/controllers/taskController.js:18-19 | the title changes only when a non-null title is supplied; `completed` changes only when it is present; id, owner and creation time never change |
| TaskStore.UpdateTask | server/controllers/taskController.js:14-22 | the reply is 404 iff the requester owns no task with that id, and then the store is unchanged; otherwise the reply is 200 with the requester's record; records not matching the key never change |
| TaskStore.DeleteTask | server/controllers/taskController.js:24-27 | the reply is always 204; nothing is added; every record not matching the key survives; the store shrinks by one exactly when a match existed |
| TaskStore.UpdateAppliesPatch | server/controllers/taskController.js:15-21 | with unique ids, updating an owned task answers with that task patched, and the patched record takes the old one's place |
| TaskStore.DeleteRemovesMatch | server/controllers/taskController.js:25 | with unique ids, no record matching the (id, requester) key remains after a delete |
| TaskStore.DeleteIdempotent | server/controllers/taskController.js:24-27 | with unique ids (the store's `_id` index), deleting twice leaves the same store and the same reply as deleting once |
| TaskStore.CreatePreservesUniqueIds | server/controllers/taskController.js:10 | creation with a fresh id keeps ids unique |
| TaskStore.UpdatePreservesUniqueIds | server/controllers/taskController.js:18-20 | updates never change ids, so ids stay unique |
| TaskStore.DeletePreservesUniqueIds | server/controllers/taskController.js:25 | deletes only remove records, so ids stay unique |
| TaskStore.WritesIsolateOwners | server/controllers/taskController.js:8-26 | a create, update or delete by user B leaves user A's tasks identical and in the same order, for every A other than B |
| TaskStore.FoundAmongOwnTasks | server/controllers/taskController.js:15 | the keyed lookup finds the same record in the whole collection as among the requester's own tasks |
| TaskStore.RepliesDependOnlyOnOwnTasks | server/controllers/taskController.js:4-21 | two stores that hold the same tasks for a user give that user the same list and the same update replies |
| TaskStore.CreatedTaskListedFirst | server/controllers/taskController.js:4-10 | a task created later than all of the owner's tasks heads the owner's newest-first list |
| TaskList.FetchTasks | client/src/pages/Home.jsx:22-36 | the list is the response only when it is an array, and `[]` otherwise or on error; logout happens iff the status is 401; loading always ends |
| TaskList.AddTask | client/src/pages/Home.jsx:38-41 | a POST with the title is sent; on success the returned record is prepended, so the length grows by one and the old list is an unchanged suffix; on failure the list is unchanged |
| TaskList.ReplaceById | client/src/pages/Home.jsx:47 | the length is kept; exactly the entries with the id become the returned record; all others are unchanged |
| TaskList.TogglePatch | client/src/pages/Home.jsx:44-46 | a toggle sends the negation of the row's current flag and no title |
| TaskList.ToggleTask | client/src/pages/Home.jsx:43-48 | the PUT carries the flipped flag; on success only the entries with the task's id are replaced, and the length is kept; on failure the list is unchanged |
| TaskList.UpdateTask | client/src/pages/Home.jsx:50-53 | the PUT carries only the new title; on success only the entries with that id are replaced; on failure the list is unchanged |
| TaskList.RemoveById | client/src/pages/Home.jsx:58 | exactly the entries with the id are dropped, and every other entry is kept as often as it occurred and in its relative order |
| TaskList.DeleteTask | client/src/pages/Home.jsx:55-60 | without confirmation nothing is sent and the list is unchanged; a confirmed, successful delete removes exactly the task's entries and keeps every other entry, as often as it occurred and in order |
| TaskList.FilteredTasks | client/src/pages/Home.jsx:62-66 | "active" shows exactly the open tasks and "completed" exactly the done ones, each as often as it is listed and in list order; any other filter value shows the whole list |
| TaskList.CompletedCount | client/src/pages/Home.jsx:68 | the completed counter equals the number of tasks the "completed" filter shows |
| TaskList.ActiveCount | client/src/pages/Home.jsx:69 | the active counter equals the number of open tasks the "active" filter shows, and the two counters add up to the list length |
| TaskList.AddThenDeleteRestores | client/src/pages/Home.jsx:38-59 | deleting a task that was just added restores the list to what it was before the add |
| TaskRow.Mount | client/src/components/TaskItem.jsx:4-6 | a row starts in viewing mode, with the buffer holding the task's title and `loading` false |
| TaskRow.HandleUpdate | client/src/components/TaskItem.jsx:8-25 | no call is made iff the buffer is whitespace only or equals the title as typed, and then the row leaves editing with the title restored; otherwise the trimmed, non-blank buffer is sent with `loading` raised; success leaves editing; failure restores the title and stays editing; `loading` drops either way |
| TaskRow.Handle | client/src/components/TaskItem.jsx:27-79 | a double-click or the edit button enters editing from viewing; typing sets the buffer; Escape leaves editing and restores the title without a call; other keys change nothing; a viewing row ignores everything else; while editing, the double-click and the edit button change nothing, and Blur or Enter on an enabled input runs the update handler; a row whose input is disabled while its call is awaited ignores every event; only Blur or Enter ever makes a call |
| TaskRow.LoadingOnlyWhileAwaiting | client/src/components/TaskItem.jsx:15-24 | `loading` is true exactly while an update call is awaited, and a settled row is settled again after every event |
| TaskRow.EditThenEscapeRestoresMount | client/src/components/TaskItem.jsx:4-33 | starting an edit on a fresh row, typing anything and pressing Escape makes no call and leaves the row exactly as it was mounted |
| TaskRow.AwaitingRowIgnoresEvents | client/src/components/TaskItem.jsx:47-55 | once the update handler makes a call, the row it leaves pending (input disabled by `loading`) ignores every event until the call settles |
| TaskRow.EnterActsAsBlur | client/src/components/TaskItem.jsx:27-50 | pressing Enter and leaving the field confirm an edit in the same way |
| TaskRow.SentTitleIsTrimmed | client/src/components/TaskItem.jsx:17 | a title the row sends is non-empty and has no leading or trailing whitespace |
| TaskForm.Submit | client/src/components/TaskForm.jsx:5-10 | `onAdd` is called at most once, and only when the field has a non-whitespace character; it gets the text as typed, untrimmed; then the field is cleared; otherwise the field keeps its text |
| TaskForm.NoDoubleSubmit | client/src/components/TaskForm.jsx:5-10 | for every field, a second submit right after the first adds nothing and leaves the field as the first submit left it |
| Auth.GenerateToken | server/controllers/authController.js:4-5 | a token binds exactly the given account id and lives for seven days (604800 seconds) from issue |
| Auth.FindByEmail | server/controllers/authController.js:19 | the email lookup finds an account with exactly that email, and finds nothing iff none exists |
| Auth.FindById | server/controllers/authController.js:79 | the id lookup finds an account with that id, and finds nothing iff none exists |
| Auth.Register | server/controllers/authController.js:7-43 | success (201) happens iff both fields are present, the password has at least 6 UTF-16 units and the email is new; failures are 400 with the message of the first failed check, in order, and store nothing; success appends exactly one account and returns a token for its id and only `{id, email}` |
| Auth.Login | server/controllers/authController.js:45-75 | missing fields give 400; every credential failure is the same 401; success (200) returns a token for an account with that email whose hash matches the password, plus its `{id, email}`; the account store is not an output |
| Auth.VerifyToken | server/controllers/authController.js:77-95 | the reply is 401 iff no account has the id; otherwise it is 200 with that account's `{id, email}` only |
| Auth.LoginSucceedsIff | server/controllers/authController.js:53-58 | with emails unique, login succeeds exactly when an account with that email has a hash matching the password |
| Auth.LoginFailureIsGeneric | server/controllers/authController.js:53-55 | an unknown email and a wrong password for a known email get identical responses |
| Auth.RegisterPreservesWellFormed | server/controllers/authController.js:19-24 | registration keeps emails and ids unique across accounts |
| Auth.RegisterTwiceConflicts | server/controllers/authController.js:19-22 | a second registration of the same email fails with the "already exists" 400 and stores nothing |
| Auth.RegisterThenLogin | server/controllers/authController.js:24-66 | after registering, login with the same password returns a token for the new id, and checking that id's token returns the same `{id, email}` |
| Flows.ToggleRoundTrip | client/src/pages/Home.jsx:43-48 | a toggle makes the server flip exactly the task's flag and nothing else, and the page then shows the flipped record in the task's place |
| Flows.ToggleTwiceRestores | server/controllers/taskController.js:14-22 | toggling a task twice through the server, each time from the record it returned, gives back the original record and leaves the store exactly as it was |
| Flows.RowEditReachesStore | client/src/components/TaskItem.jsx:15-18 | an edit confirmed in a row is sent as a title-only PUT, reaches the store as the trimmed, non-blank buffer and changes nothing but the title; the page then shows the returned record at the task's positions |
| Flows.FormTitleStoredAsTyped | server/controllers/taskController.js:9-10 | a title submitted through the form is stored exactly as typed: never blank, but with any surrounding whitespace kept |
| Flows.FetchShowsOwnTasks | client/src/pages/Home.jsx:22-26 | loading the page shows exactly the user's tasks, newest first, without logging out |
| Flows.CreateToggleDelete | server/controllers/taskController.js:3-27 | a created task heads the list; once toggled, it is listed with its flag flipped; once deleted, no task with its id is listed |

## Left out

- HTTP and framework plumbing is not modelled: axios, Express routing, the hard-coded API URL,
  the global `axios.defaults` header, JSON serialisation, React rendering and CSS.
- The authentication middleware and the Task schema are not part of this model. The requester
  is an opaque id. The schema's default for `completed` is a parameter.
- The user schema's bcrypt hooks are foreign library calls. The stored hash is a parameter, and
  the password comparison is the `matches` relation. bcrypt's 72-byte input limit is not modelled.
- JWT signing and verification are not modelled: the secret, the signature and the expiry check
  all live in the library and the middleware. A token is its payload, with the id and the
  seven-day lifetime.
- 500 replies caused by store or library exceptions are not modelled, nor is the `NODE_ENV`
  message switch. This covers cast errors on malformed ids, schema validation failures, a
  duplicate-key race on the email index, and the 401 "Invalid token" from `verifyToken`'s
  catch block.
- Console logging is not modelled.
- Concurrency is not modelled: overlapping requests, stale `tasks` closures in the page's
  handlers, and two tabs racing on one task. Each model step is atomic and takes its call's
  outcome as an input.
- Store timestamps other than `createdAt` are not modelled, because no operation reads them.
- The `loading` flag of the home page is modelled only as the `FetchTasks` result. The
  "Loading your tasks..." rendering is left out.
- TaskStore.UpdateTask: a `completed` field that is `null` or not a boolean is not modelled.
  The Task schema decides how to cast it, and that schema is not part of this model. The patch
  carries `completed` as absent or a boolean.
- TaskStore.CreateTask: the title is a string. A missing or non-string title is cast or rejected
  by the Task schema, which is not part of this model.
- Auth.Register: email and password are modelled as strings, absent or `null`. A non-string JSON
  value (a number, for example) is not modelled; the source's truthiness and `.length` checks
  treat those differently.
- TaskStore.GetTasks: records with equal creation times come out in an order the store chooses.
  The contract states only the sort order and the permutation, and the model fixes one order.
- TaskRow.Handle: an event reaches the edit input only while the input is rendered and enabled
  (editing and not loading). Whether a browser fires blur when a focused input becomes disabled
  is not modelled, and neither is a blur fired when the focused input is removed, as happens
  when Escape or a successful save leaves editing.
- Strings are sequences of Unicode scalar values, so a lone UTF-16 surrogate cannot be
  represented.

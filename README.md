# Task list client: snapshot handlers and form submit rule

This project models the stateful core of a single-page task-management
client: the task list component, which holds the client's snapshot of the
server's tasks together with its `loading`/`error` flags and dialog flags,
and the task form, which validates a title and then issues one create or
update request. Every remote call a handler awaits is a parameter of that
handler, an `Outcome` that is either `Success(value)` or `Failure`. Each
handler runs atomically.

Modules:

- `Remote` (`remote.dfy`): the task record `Task(id, title, completed)`,
  the request body `TaskData(title, completed)`, `Outcome` and `Option`.
- `TaskSeq` (`task_seq.dfy`): the three list rewrites as pure functions:
  `Append` (the spread-append), `RemoveById` (the `filter`) and
  `ReplaceById` (the `map`). Beside them are lemmas saying what each
  rewrite keeps and changes. The component never checks that ids are
  unique, so no lemma about what a rewrite keeps or changes assumes it.
  Each such property covers every entry that carries the id. Only the
  three `KeepsUnique` lemmas take unique ids as a hypothesis; they say
  when unique ids stay unique.
- `TaskListComponent` (`task_list.dfy`): class `TaskList`, whose fields
  are the component's state and whose methods are its handlers.
  `FetchTasks` ties the new `tasks` to the server's list. The add, delete,
  toggle and update handlers tie it to a `TaskSeq` function of the old
  list, and also restate the lemmas' conclusions for that call. Delete and
  toggle also return the request they sent.
- `TaskFormComponent` (`task_form.dfy`): ECMAScript `trim`, the status
  select, and class `TaskForm` with its `title`/`completed`/`submitting`
  fields. `HandleSubmit` returns a `Submission` recording three things:
  the request issued, the callbacks fired in order, and whether
  `submitting` was raised.
- `TaskDialogs` (`task_dialogs.dfy`): the add and edit dialogs in which
  the list hosts the form, with the form's callbacks wired to the list's
  handlers. `Session` is only a usage example of these contracts.

A few behaviours of the code are worth stating plainly:

- A failed delete leaves the list unchanged; the code never drops the
  local entry.
- A toggle sends the whole task with `completed` negated.
- A successful load never clears an earlier `error`.

## Model

| member | source | states |
|---|---|---|
| `TaskSeq.Append` | src/components/TaskList.js:37 | the spread-append: one entry longer, the new task last, the old list as prefix |
| `TaskSeq.RemoveById` | src/components/TaskList.js:51 | the delete `filter`: never longer, no entry carries the id, every entry comes from the old list (exact counts and order: see RemoveByIdCounts, RemoveByIdMembership, RemoveByIdOrder) |
| `TaskSeq.ReplaceById` | src/components/TaskList.js:67 | the replace `map` used by toggle (line 67) and update (line 88): same length, every entry is the replacement or an old entry (pointwise meaning: see ReplaceByIdAt) |
| `TaskSeq.RemoveByIdCounts` | src/components/TaskList.js:51 | after the delete filter no entry carries the id, and every task with another id occurs exactly as often as before |
| `TaskSeq.RemoveByIdMembership` | src/components/TaskList.js:51 | a task is in the filtered list iff it was in the list and its id differs from the deleted id |
| `TaskSeq.RemoveByIdOrder` | src/components/TaskList.js:51 | the filtered list is a subsequence of the old list (kept entries keep their relative order) |
| `TaskSeq.RemoveByIdLength` | src/components/TaskList.js:51 | the list shrinks by exactly the number of entries carrying the id; it never grows, and keeps its length iff no entry had the id |
| `TaskSeq.RemoveByIdAbsent` | src/components/TaskList.js:51 | deleting an id no entry carries returns the list unchanged |
| `TaskSeq.RemoveByIdIdempotent` | src/components/TaskList.js:49-51 | repeating a successful delete of the same id changes nothing |
| `TaskSeq.RemoveByIdKeepsUnique` | src/components/TaskList.js:51 | a list with unique ids still has unique ids after the delete |
| `TaskSeq.ReplaceByIdAt` | src/components/TaskList.js:86-89 | the replace map keeps the length; entry i becomes the new task iff the old entry i carried the matched id, otherwise it is untouched |
| `TaskSeq.ReplaceByIdAbsent` | src/components/TaskList.js:66-68 | replacing an id no entry carries inserts nothing and changes nothing |
| `TaskSeq.ReplaceByIdIdempotent` | src/components/TaskList.js:86-89 | applying the same replacement twice equals applying it once |
| `TaskSeq.ReplaceByIdKeepsIds` | src/components/TaskList.js:86-89 | when the replacement carries the matched id, every position keeps its id |
| `TaskSeq.ReplaceByIdKeepsUnique` | src/components/TaskList.js:88 | such a replacement keeps a list with unique ids unique |
| `TaskSeq.AppendKeepsUnique` | src/components/TaskList.js:37 | appending a task whose id is absent keeps ids unique |
| `TaskSeq.AppendDuplicateBreaksUnique` | src/components/TaskList.js:37 | appending a task whose id is already present makes ids non-unique: the add handler does not guard against it |
| `TaskListComponent.TaskList.constructor` | src/components/TaskList.js:10-17 | the list starts empty and loading, with no error, no selection and every dialog closed |
| `TaskListComponent.TaskList.FetchTasks` | src/components/TaskList.js:19-30 | success replaces the snapshot by the server list exactly and keeps the error; failure keeps the snapshot and records the load error; loading ends false; an earlier error is never cleared |
| `TaskListComponent.TaskList.HandleAddTask` | src/components/TaskList.js:36-39 | the list becomes the old list with the new task appended: it grows by one, the new task is last, earlier entries are unchanged, unique ids stay unique when the new id is fresh, the add dialog closes |
| `TaskListComponent.TaskList.HandleDelete` | src/components/TaskList.js:41-58 | the delete request for the id goes out iff the user confirms; a confirmed successful delete leaves no entry with the id, keeps the rest in order and never lengthens the list; a cancelled or failed delete leaves the list unchanged |
| `TaskListComponent.TaskList.ToggleTaskStatus` | src/components/TaskList.js:60-74 | the request targets the task's id with a copy of the task whose status is negated; success replaces exactly the entries carrying the task's id by the server's task, keeping length; failure changes nothing |
| `TaskListComponent.TaskList.HandleViewTask` | src/components/TaskList.js:76-79 | selects the task id and opens the detail dialog |
| `TaskListComponent.TaskList.HandleEditTask` | src/components/TaskList.js:81-84 | records the task to edit and opens the edit dialog |
| `TaskListComponent.TaskList.HandleTaskUpdated` | src/components/TaskList.js:86-91 | exactly the entries carrying the updated task's id become it, length and order are kept, unique ids stay unique, the edit dialog closes |
| `TaskListComponent.TaskList.CloseDetailModal` | src/components/TaskList.js:155 | the detail dialog is closed |
| `TaskListComponent.TaskList.CloseAddModal` | src/components/TaskList.js:168-173 | the add dialog is closed |
| `TaskListComponent.TaskList.CloseEditModal` | src/components/TaskList.js:181-187 | the edit dialog is closed |
| `TaskFormComponent.Trim` | src/components/TaskForm.js:19 | `title.trim()`: a slice of the title, no longer than it, that neither starts nor ends with a character ECMAScript trim strips (that only such characters are cut: see TrimSpec; emptiness: see TrimEmptyIffBlank) |
| `TaskFormComponent.TrimSpec` | src/components/TaskForm.js:19 | the trimmed title is the slice left after cutting from each end only characters ECMAScript trim strips, and it neither starts nor ends with such a character; this fixes `title.trim()` exactly |
| `TaskFormComponent.ParseStatus` | src/components/TaskForm.js:64 | `e.target.value === 'true'`: true exactly when the value is the option string rendered for a completed task |
| `TaskFormComponent.TrimEmptyIffBlank` | src/components/TaskForm.js:19 | a title trims to the empty string iff every character is one that ECMAScript trim strips |
| `TaskFormComponent.StatusRoundTrip` | src/components/TaskForm.js:63-68 | choosing the option shown for a status yields that status; every other string means not completed |
| `TaskFormComponent.TaskForm.constructor` | src/components/TaskForm.js:5-8 | title and status come from the task being edited, else empty and false; not submitting |
| `TaskFormComponent.TaskForm.InitialTaskChanged` | src/components/TaskForm.js:10-15 | a newly passed task reloads title and status; an absent one keeps what was typed |
| `TaskFormComponent.TaskForm.TitleChanged` | src/components/TaskForm.js:54 | the title becomes the typed value |
| `TaskFormComponent.TaskForm.StatusChanged` | src/components/TaskForm.js:64 | the status becomes true exactly when the option value is the string "true" |
| `TaskFormComponent.TaskForm.HandleSubmit` | src/components/TaskForm.js:17-44 | a blank title issues nothing, fires nothing and never raises submitting; otherwise exactly one update (with the edited task's id) or create is sent with the untrimmed title; on success the matching callback (if given) then close fire; on failure nothing fires; submitting ends false |
| `TaskDialogs.SubmitAddDialog` | src/components/TaskList.js:171-174 | a successful create through the add dialog appends the server's task and closes the dialog; a blank title or a failure changes neither; the form's `submitting` ends false after a non-blank submit and is untouched after a blank one |
| `TaskDialogs.SubmitEditDialog` | src/components/TaskList.js:184-188 | the form edits the list's task to edit; a successful update through the edit dialog replaces the entries with the server task's id and closes the dialog; a blank title or a failure changes neither; the form's `submitting` ends false after a non-blank submit and is untouched after a blank one |

## Left out

- The HTTP layer (`src/services/api.js`) is not modelled. Each call is reduced to the `Outcome` its promise settles with. The axios client, URLs and logging interceptors are absent.
- Application routing and the forced page reload after an add (`src/App.js`) are not modelled. They are navigation and a browser side effect with no data invariant.
- Login and registration (`src/components/Login.js`, `src/components/Register.js`) are not modelled. Login is a network call plus a `localStorage` write of the token. Register checks that the two passwords match, then makes a network call.
- Rendering is not modelled. This covers the loading and error screens, the table and its pagination, toasts, console logging, and the disabled state of inputs while submitting.
- The delete confirmation dialog is a `confirmed` flag on `HandleDelete`.
- Concurrency is not modelled. Handlers are atomic, so a slow load finishing after a toggle is outside the model.
- `TaskDetail` and `TaskEditForm` are not part of this model.
- `TaskFormComponent.TaskForm.HandleSubmit`: assumes `onClose` is always given, as both dialogs give it. It also assumes the owner's callbacks never throw. In the code, a throw inside the `try` would skip `onClose` and report the generic error toast.
- Nothing in the list component opens the add dialog (`isAddModalVisible` is only ever set to false). The model therefore has no opening handler for it.
- Nothing in the rendered list calls `toggleTaskStatus` (src/components/TaskList.js:60): the status column only shows a tag. `ToggleTaskStatus` therefore models a handler the component defines but never invokes.

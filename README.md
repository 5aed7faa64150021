# To-do list state machine

A Dafny model of the task list held by the `App` component of a single-screen
React Native to-do application. The component keeps four pieces of state: the
input text `task`, the list `tasks` of `{id, text, status}` records, the
edit-mode flag `isEditClicked` and the edit slot `editTask`. Six handlers
change them: `addTask`, `deleteTask`, `markAsCompleted`, `editTaskFun`,
`editDone` and `clearCompletedTasks`.

The model has four modules:

- `Wrappers` (wrappers.dfy): `Option`, standing for a value or `undefined`.
- `Text` (text.dfy): JavaScript's `trim` and the guard `if (s.trim())`. The
  guard holds exactly when the string has a character that is not white space.
- `Tasks` (tasks.dfy): the `Task` record and the pure list rewrites the
  handlers pass to `setTasks`. `filter` is `Filter`, used by `WithoutId` for
  delete and `Pending` for clear. `map` is `Map`, used by `Completed` for
  mark-as-completed and `Retexted` for commit-edit. `find` is `Find`. Lemmas
  give their meaning: order kept, membership exact, multiplicities kept,
  length and ids kept, idempotence, unique ids kept, and no completed task
  reopened.
- `TodoApp` (app.dfy): class `App`. Its fields `input`, `tasks`, `editMode`
  and `editSlot` are the four hooks. Its methods are the handlers, plus
  `ChangeText` for the text box's `onChangeText`. Each method states the whole
  new state in terms of the old one. Each also states that it keeps ids unique
  (`Valid`) and reopens no completed task (`NoneReopened`). For `AddTask` this
  holds when the new id is fresh. `EditFlow` and `ClearFlow` are client runs
  of the edit and the clear scenarios.

Where a reader might expect otherwise, the model follows the code as written:

- a new or edited task stores the raw input, not the trimmed one. `trim` is
  only the guard.
- `editDone` never clears `editTask`. It only ends edit mode.
- `editTaskFun` with an unknown id leaves edit mode and the input as they were.

## Model

| member | source | states |
|---|---|---|
| Text.TrimStart | App.js:57 | the result is a suffix of the input; everything cut off is white space; it does not start with white space |
| Text.TrimEnd | App.js:57 | the result is a prefix of the input; everything cut off is white space; it does not end with white space |
| Text.Trim | App.js:57 | `trim` never lengthens the input, and what it returns neither starts nor ends with white space |
| Text.TrimInfix | App.js:57 | `trim` returns the infix of the input that starts after its leading white space, and everything outside that infix is white space |
| Text.HasText | App.js:57 | the guard `if (task.trim())`: when it holds the input has a character that is not white space; `HasTextIffNotBlank` gives both directions |
| Text.HasTextIffNotBlank | App.js:104 | the guard `if (task.trim())` holds exactly when the input is not empty and not only white space |
| Tasks.Filter | App.js:77 | `filter` never lengthens the list and keeps exactly the elements that pass the test |
| Tasks.FilterAppend | App.js:77 | filtering a concatenation is the concatenation of the filtered parts, in order |
| Tasks.FilterIsSubsequence | App.js:120 | the filtered list is a subsequence of the original: nothing is reordered |
| Tasks.FilterPartition | App.js:120 | the kept and the dropped elements together are the original list, counted with multiplicity |
| Tasks.FilterKeepsAll | App.js:77 | when every element passes, `filter` returns the list unchanged |
| Tasks.FilterIdempotent | App.js:120 | filtering twice with one test equals filtering once |
| Tasks.FilterUnique | App.js:77 | filtering a list with unique ids gives a list with unique ids |
| Tasks.FilterNoneReopened | App.js:120 | with unique ids, filtering shows no completed task as pending |
| Tasks.WithoutId | App.js:77 | `filter((item) => item.id !== taskId)`: never longer than the list and holds no task with the id; `DeleteSpec`, `DeleteAbsent` and `DeleteOne` give its full meaning |
| Tasks.DeleteSpec | App.js:76-78 | delete keeps exactly the tasks with another id, in their order; it removes exactly the tasks with that id; no task with that id is left |
| Tasks.DeleteAbsent | App.js:77 | deleting an id that is not in the list leaves the list unchanged |
| Tasks.DeleteOne | App.js:77 | with unique ids, deleting a present id shortens the list by exactly one |
| Tasks.AddThenDelete | App.js:59-77 | deleting a task just appended with a fresh id gives back the list before the add |
| Tasks.Pending | App.js:120 | `filter((task) => !task.status)`: never longer than the list and holds no completed task; `ClearSpec` and `ClearIdempotent` give its full meaning |
| Tasks.ClearSpec | App.js:119-121 | clear keeps exactly the pending tasks, in their order; it removes exactly the completed ones; no completed task is left |
| Tasks.ClearIdempotent | App.js:120 | a second clear changes nothing |
| Tasks.Map | App.js:83-85 | `map` keeps the length and applies the function at every position |
| Tasks.Completed | App.js:83-85 | the `map` of mark-as-completed keeps length and ids and never turns a completed task pending; `CompleteSpec`, `CompleteIdempotent` and `CompleteSafe` give its full meaning |
| Tasks.CompleteSpec | App.js:81-87 | mark-as-completed keeps length, order, ids and texts; it completes every task with the id and leaves the others as they were |
| Tasks.CompleteIdempotent | App.js:83-85 | marking the same id twice equals marking it once |
| Tasks.CompleteSafe | App.js:84 | mark-as-completed keeps ids unique and reopens no completed task |
| Tasks.Retexted | App.js:106-108 | the `map` of commit-edit keeps length, ids and statuses; `RetextSpec` and `RetextSafe` give its full meaning |
| Tasks.RetextSpec | App.js:105-109 | commit-edit keeps length, order, ids and statuses; it gives every task with the id the new text and leaves the others as they were |
| Tasks.RetextSafe | App.js:107 | commit-edit keeps ids unique and reopens no completed task |
| Tasks.AppendFreshSafe | App.js:59-65 | appending a task with a fresh id keeps ids unique and reopens no completed task |
| Tasks.Find | App.js:91 | `find` is `undefined` exactly when no task has the id; otherwise it is the first task with that id |
| TodoApp.App.constructor | App.js:18-21 | the hooks start as `''`, `[]`, `false` and `undefined`, and ids are unique |
| TodoApp.App.ChangeText | App.js:148 | typing replaces the input and changes nothing else, so unique ids are kept and nothing is reopened |
| TodoApp.App.AddTask | App.js:56-73 | with text in the input, the list gains one pending task at the end with the raw input as text, and the input is cleared; otherwise list and input stay as they were; edit state is untouched; a fresh id keeps ids unique and reopens nothing |
| TodoApp.App.DeleteTask | App.js:76-78 | the list becomes the tasks with another id, in order; nothing else changes; unique ids are kept and nothing is reopened |
| TodoApp.App.MarkAsCompleted | App.js:81-87 | the list becomes the one with every task of the id completed; nothing else changes; unique ids are kept and nothing is reopened |
| TodoApp.App.EditTask | App.js:90-99 | with a task of the id, the slot gets the first such task, the input gets its text and edit mode begins; otherwise the alert is raised and nothing changes; the list never changes, so unique ids are kept and nothing is reopened |
| TodoApp.App.EditDone | App.js:102-116 | with a slot and text in the input, every task with the slot's id gets the raw input as text and the input is cleared; otherwise list and input stay; the alert is raised exactly when the slot is empty; edit mode ends and the slot stays |
| TodoApp.App.ClearCompletedTasks | App.js:119-121 | the list becomes its pending tasks, in order; nothing else changes; unique ids are kept and nothing is reopened |

## Left out

- Persistence through AsyncStorage: `saveTasks`, `loadTasks` and the `useEffect` hooks that run them (App.js:24-53). They are asynchronous foreign I/O with JSON encoding. A list loaded from storage is not checked for unique ids, so `Valid` is not established after a load.
- Id generation: `Date.now().toString()` is a clock call, so `AddTask` takes the id as a parameter.
- TodoApp.App.AddTask: keeps unique ids only when the given id is fresh. Two adds within one millisecond get the same id from the clock, and the source does not guard against that.
- The `Animated.Value` of each task and its fade-in timing. They are presentation and floating point, so `Task` has only `id`, `text` and `status`.
- `Alert.alert`: a foreign UI call. `EditTask` and `EditDone` return it as the boolean `notified`.
- The JSX view and the style sheet, including the view hiding the complete and delete buttons of completed tasks and showing "Clear Completed" only when some task is completed. The model lets every handler run in every state.
- React's batching of state updates: each handler's setter calls are applied in sequence, which matches how the handlers read state within one event.
- Strings are sequences of Unicode scalar values, not UTF-16 code units. White space is ECMAScript's WhiteSpace and LineTerminator set, spelled out in `Text.IsWhitespace`.
- Completion monotonicity (`NoneReopened`) is stated by id, so it is proved under the unique-ids invariant.

# Task manager core, modelled in Dafny

A desktop task manager: a Go back end keeps tasks in a table (through an
ORM), a service layer builds new tasks and projects the task list, and a
React page lists, adds, toggles and deletes tasks over a generated bridge.
This project models the part with logic in it:

- **`Models`** (`task.dfy`): the `Task` record (id, title, completion flag,
  created/updated timestamps, optional due date, priority), its defaults,
  and the shared `Option`/`Result`/`Error` shapes.
- **`Selection`** (`selection.dfy`): order-preserving filters over task
  lists, the criterion behind every projection (active, completed, one
  priority, overdue at a given instant, all but one id), with stability,
  counting and partition lemmas.
- **`Repository`** (`repository.dfy`): the id-keyed table as a sequence of
  rows in storage order plus the next value of the id sequence, with
  `Create`, `GetAll`, `Update` (the ORM's `Save`), `Delete` and
  `ToggleComplete`. Every operation keeps the primary key unique. While
  every insert draws its id from the sequence, the sequence stays ahead of
  every stored id (`Fresh`), and then a create always succeeds. An insert
  with an explicit id does not advance the sequence, as in PostgreSQL, so
  a later drawn id can collide with it.
- **`Service`** (`service.dfy`): `CreateTask`, and the projections
  `GetTasksByStatus`, `GetTasksByPriority` and `GetOverdueTasks`, written as
  loops like the originals and proved equal to reference definitions. A
  projection takes the outcome of `GetAll` as a parameter, so its error
  path is modelled. `now` and the date parser are parameters too.
- **`DateText`** (`datetext.dfy`): the date-time syntax of section 5.6 of
  RFC 3339, the page's due-date text as written, and a corrected
  RFC 3339 rendering. A reference reader (`ReadRfc3339`) reads the
  corrected text back, so the rendering can be checked as a round trip.
  That reader is not Go's parser: the back end's parser stays a parameter.
- **`View`** (`view.dfy`): the page's state hooks as one record; the
  `trim` guard; `parseInt` of the priority select; `getPriorityColor`;
  `loadTasks`, which flattens `Active ++ Completed`; the two re-filtered
  lists; and the add, toggle and delete handlers as pure steps over
  (view, store).

The model follows the code in three places where a reader might expect otherwise:

- deleting a missing id is not an error;
- the service validates neither the title nor the priority range;
- nothing makes `updatedAt` move forward, because the clock is a
  parameter.

## Model

| member | source | states |
|---|---|---|
| `Repository.Find` | internal/repository/task_repository.go:58-62 | A lookup by primary key returns a stored row carrying that id, and returns nothing exactly when no stored row has that id. |
| `Repository.FindUnique` | internal/models/task.go:12 | With a unique primary key, every stored row is exactly the row its id finds. |
| `Repository.AppendFresh` | internal/models/task.go:12 | Adding a row whose id is not yet stored keeps the key unique and adds exactly that id to the key set. |
| `Repository.Create` | internal/repository/task_repository.go:25-27 | Keeps the key unique. The id used is the caller's own, or the next sequence value when the caller gives 0; only the latter advances the sequence. The create succeeds exactly when that id is not stored; otherwise it is a key violation and adds no row. On success, exactly one row is appended after the unchanged old rows. It carries that id, the caller's title, completion, priority and due date, and both timestamps set to `now` by the store. |
| `Repository.CreateAutoIdSucceeds` | internal/repository/task_repository.go:25-27 | While the sequence is ahead of every stored id, a create with id 0 always succeeds. It stores the next sequence value as the id and keeps the sequence ahead. |
| `Repository.GetAll` | internal/repository/task_repository.go:33-37 | Returns every stored row and nothing else: a task is in the result exactly when looking up its id finds that task. |
| `Repository.Update` | internal/repository/task_repository.go:42-44 | If the id is stored: replaces that row in place, with `updatedAt` refreshed, and leaves all other rows, their positions and the id sequence alone. Otherwise: inserts like `Create`. Keeps the key unique. |
| `Repository.ReplaceStored` | internal/repository/task_repository.go:42-44 | Saving over a stored row in place keeps the set of ids and the key unique, and the lookup then finds the saved row. |
| `Repository.Delete` | internal/repository/task_repository.go:49-51 | The id is gone afterwards. Every other row survives in its order. The table shrinks by one exactly when the id was stored. No error is reported for a missing id. |
| `Repository.DeleteCount` | internal/repository/task_repository.go:49-51 | Under a unique key, deleting by id removes one row if the id is present and none otherwise. |
| `Repository.ToggleComplete` | internal/repository/task_repository.go:56-67 | A missing id yields `NotFound` and leaves the store unchanged. Otherwise only the target row changes: `completed` is negated and `updatedAt` is set to `now`. Its id, title, priority, due date and position stay, and so does every other row. |
| `Repository.DeleteKeepsFresh` | internal/repository/task_repository.go:49-51 | A delete keeps the sequence ahead of every stored id. |
| `Repository.ToggleKeepsFresh` | internal/repository/task_repository.go:56-67 | A toggle keeps the sequence ahead of every stored id. |
| `Repository.ToggleTwiceRestores` | internal/repository/task_repository.go:65-66 | Toggling the same task twice restores every field except `updatedAt`, and leaves the rest of the table as it was. |
| `Repository.DeleteThenToggleNotFound` | internal/repository/task_repository.go:59-62 | After a delete, toggling that id reports `NotFound`. |
| `Selection.Filter` | internal/service/task_service.go:77-83 | The filtered list holds exactly the tasks of the input that meet the criterion, and is no longer than the input. |
| `Selection.FilterIsSubsequence` | internal/service/task_service.go:77-83 | Stability: a filter's result is an in-order subsequence of its input. |
| `Selection.FilterCount` | internal/service/task_service.go:77-83 | A filter keeps every copy of a task that meets the criterion and no copy of one that does not. |
| `Selection.StatusPartition` | internal/service/task_service.go:77-83 | The active and completed filters together hold each task exactly as often as the input does, and their lengths add up to the input's. |
| `Service.CreateTask` | internal/service/task_service.go:39-56 | Keeps the key unique. A non-empty due date the parser rejects yields `InvalidDate` and stores nothing. With an empty or accepted due date, the create succeeds exactly when the next sequence value is not a stored id. On success, the one new row has a fresh id, the caller's title and priority verbatim, `completed` false, no due date for an empty string (otherwise the parsed one), and store-set timestamps. |
| `Service.CreateTaskSucceeds` | internal/service/task_service.go:39-56 | While the sequence is ahead of every stored id, a request with an empty or accepted due date always creates its task, and keeps the sequence ahead. |
| `Service.GetTasksByStatus` | internal/service/task_service.go:62-85 | A failed fetch returns the error with both lists empty. Otherwise there is no error and the lists are the in-order incomplete and completed subsequences of the fetched tasks. |
| `Service.StatusSplitIsPartition` | internal/service/task_service.go:77-83 | Active holds exactly the incomplete tasks and Completed exactly the completed ones, each in input order. Together they are a permutation of the input and their lengths add up. |
| `Service.BucketsSnoc` | internal/service/task_service.go:112-114 | Appending one task extends exactly the bucket of its own priority, creating the bucket if it was missing. |
| `Service.GetTasksByPriority` | internal/service/task_service.go:105-116 | A failed fetch yields the error and no map. Otherwise it yields one bucket per priority that occurs (no range check on the key), each holding that priority's tasks in order. |
| `Service.BucketsAreExact` | internal/service/task_service.go:111-114 | Every task lies in the bucket of its own priority and in no other. Every bucket is non-empty and an in-order subsequence of the input, and keeps every copy of its tasks. |
| `Service.GetOverdueTasks` | internal/service/task_service.go:122-137 | A failed fetch yields the error. Otherwise it returns, in order, exactly the tasks with a due date strictly before `now` that are not completed. |
| `Service.ToggleLeavesOverdue` | internal/service/task_service.go:131-135 | Once an overdue task is toggled to completed, no version of it is overdue. Every other task's overdue status is unchanged. |
| `DateText.PickerDateIsNotRfc3339` | frontend/src/app/page.tsx:44 | The page's due-date text (`yyyy-MM-dd HH:mm:ss`) is 19 characters long and is never an RFC 3339 date-time. |
| `DateText.Rfc3339IsWellFormed` | internal/service/task_service.go:43 | The corrected due-date text is always an RFC 3339 date-time, the layout the back end parses. |
| `DateText.Rfc3339RoundTrip` | frontend/src/app/page.tsx:44 | The reference reader, given the corrected due-date text, gives back the picked date, time and offset exactly. |
| `DateText.ReadThenFormat` | frontend/src/app/page.tsx:44 | The other direction: any text the reference reader accepts is exactly the corrected text of the date it reads, except that an offset of `+00:00` or `-00:00` is written back as `Z`. |
| `View.TrimStart` | frontend/src/app/page.tsx:38 | The result is a suffix of the input that starts with a non-whitespace character (when non-empty), and everything dropped is whitespace. |
| `View.TrimEnd` | frontend/src/app/page.tsx:38 | The result is a prefix of the input that ends with a non-whitespace character (when non-empty), and everything dropped is whitespace. |
| `View.BlankIffAllWhitespace` | frontend/src/app/page.tsx:38 | The add-task guard fires exactly when every character of the title is JavaScript whitespace. |
| `View.JsParseInt` | frontend/src/app/page.tsx:43 | Base-ten `parseInt`: a string of decimal digits reads as the number it denotes, and a `-` followed by digits reads as its negation. |
| `View.ParsePriority` | frontend/src/app/page.tsx:43 | Each value the select offers parses to its position: "0" to 0, "1" to 1, "2" to 2. So the sent priority lies in 0..2. Other digit strings read as their number, negative ones included. |
| `View.PriorityColor` | frontend/src/app/page.tsx:209-218 | Total over all integers: red exactly for 2, yellow exactly for 1, gray exactly for everything else. |
| `View.PriorityColorsDistinguishOptions` | frontend/src/app/page.tsx:209-218 | The three offered priorities get three different colours, and any out-of-range value is shown like Low. |
| `View.LoadTasks` | frontend/src/app/page.tsx:26-35 | On success the page holds `Active ++ Completed`. On failure it keeps its last list. Either way loading ends and the form is untouched. |
| `View.RenderedListsPartition` | frontend/src/app/page.tsx:88-89 | The active and completed lists on the page are disjoint and keep the page's order. Together they hold every task of the page exactly as often as the page does. |
| `View.RefilterRecoversSplit` | frontend/src/app/page.tsx:88-89 | Flattening a status split into `Active ++ Completed` and filtering it again gives back exactly the two lists of the split. |
| `View.ReloadShowsStore` | frontend/src/app/page.tsx:29 | After a reload, the page's active and completed lists are the store's incomplete and completed tasks in storage order, and the page holds a permutation of the store. |
| `View.AddTaskInput` | frontend/src/app/page.tsx:41-45 | The request carries the raw, untrimmed title and `parseInt` of the select's value as the priority, which lies in 0..2 when the select holds an offered value. The due date is empty exactly when none is picked. Otherwise it is the picked date in `yyyy-MM-dd'T'HH:mm:ssXXX` form, an RFC 3339 date-time that reads back as the picked date. This is the corrected line 44. |
| `View.AddTaskInputAsWritten` | frontend/src/app/page.tsx:41-45 | As the code is written: the raw title and `parseInt` of the select's value. With no picked date the due date is empty. Otherwise it is the picked date as `yyyy-MM-dd HH:mm:ss`: 19 characters with a space at index 10, never an RFC 3339 date-time. |
| `View.HandleAddTask` | frontend/src/app/page.tsx:37-54 | A blank title changes neither page nor store. Otherwise the store is the service's result. A failed create leaves the page as it was. A successful one resets the form (title `""`, no date, priority `"0"`) and shows the reloaded `Active ++ Completed`. The due date is sent in RFC 3339 form; see Findings. |
| `View.HandleAddTaskAsWritten` | frontend/src/app/page.tsx:37-54 | The handler as written: a blank title changes nothing. With no picked date it behaves exactly as `HandleAddTask`: it creates, then resets the form and reloads on success, or keeps the page on failure. |
| `View.PickerTextRejected` | frontend/src/app/page.tsx:44 | With the code as written, whenever the parser refuses the picker's text, the service returns `InvalidDate` and neither page nor store changes. |
| `View.AsWrittenDueDateRejected` | frontend/src/app/page.tsx:44 | With the code as written, a picked due date makes the service return `InvalidDate`, and neither page nor store changes. This holds for any parser that, like the `time.RFC3339` layout, accepts only text with a `T` after its ten-character date. |
| `View.CorrectedDueDateStored` | frontend/src/app/page.tsx:37-54 | With the corrected due-date text, a picked real date is stored: for a parser that accepts that text, the add succeeds, the new row's due date is the parsed date, and the form is reset. |
| `View.HandleToggleTask` | frontend/src/app/page.tsx:56-63 | A missing id changes nothing. Otherwise the store is toggled and the page shows the reloaded list. |
| `View.HandleDeleteTask` | frontend/src/app/page.tsx:65-74 | Without confirmation nothing changes. With it, the task is deleted and the page shows the reloaded list. |
| `View.AddedTaskShowsAsActive` | frontend/src/app/page.tsx:37-54 | While the sequence is ahead of every stored id, adding a task with a non-blank title and no due date always succeeds and keeps the sequence ahead. Exactly one new task appears among the active ones. It has the raw title, the chosen priority, no due date and `completed` false, and the other active tasks are as before. |
| `View.ToggleMovesBetweenLists` | frontend/src/app/page.tsx:56-63 | Toggling moves the task's new version into the other list on the page, and no version of it stays in the list it left. |
| `View.DeletedTaskDisappears` | frontend/src/app/page.tsx:65-74 | After a confirmed delete the page no longer shows the task, and toggling it afterwards changes nothing. |
| `View.SubmitKeepsPriority` | frontend/src/app/page.tsx:46-53 | Submitting a create request leaves the priority field as it was, or resets it to `"0"` after a successful create. |
| `View.PriorityStaysInOptions` | frontend/src/app/page.tsx:103-111 | The priority field only ever holds an offered value. The initial value, every setter and every handler keep it there: both add handlers (as written and corrected), toggle and delete. |

## Left out

- Storage plumbing: the database configuration and connection, table migration, application bootstrapping, and the generated bridge classes. The model has no storage engine; the table is a plain value.
- The service's `ToggleTask` and `DeleteTask` are one-line delegations. The page model calls `Repository.ToggleComplete` and `Repository.Delete` directly.
- Storage failures: the model has no I/O. The one failure modelled is a `GetAll` that fails, passed into the projections as a `Result`. `Create`, `Update`, `Delete` and `ToggleComplete` report only the failures the logic itself produces: a key violation and `NotFound`.
- Repository.GetAll: the query has no `ORDER BY`, so the real order is up to the database. The model returns rows in storage order, which is insertion order.
- Repository.Create: the ORM keeps a caller-supplied non-zero `CreatedAt`. The model always stamps `now`, because no caller here supplies a timestamp.
- Repository.Update: whether a record is stored is decided by its id alone, as in the ORM's `Save` (update; if nothing is updated, insert).
- Integer widths: ids are unbounded naturals and priorities unbounded integers. The 64-bit id sequence and Go `int` never wrap in the model.
- Service.GetOverdueTasks: Go returns a nil slice when nothing is overdue, which the bridge serialises as `null` rather than `[]`. The model does not tell the two apart.
- Time and parsing: timestamps are integers, and the clock reading is a parameter. `time.Parse` with the `time.RFC3339` layout is the `parse` parameter, and its full grammar is not modelled. Two properties of that layout are stated as assumptions. `DateText.DemandsDateThenT`: the year, month and day take exactly ten characters, followed by a literal `T`. `DateText.AcceptsRfc3339Text`: the corrected text of every real calendar date is accepted. The layout is more lenient than RFC 3339 elsewhere: it takes a one-digit hour and a comma before fractional seconds. So accepted text is not assumed to be an RFC 3339 date-time. The parsed instant itself is left abstract.
- DateText.ReadRfc3339: a reference reader for the corrected text, not Go's parser. It does not check the day against the length of the month, and it rejects fractional seconds, which the `time.RFC3339` layout accepts. Like that layout, it wants an upper-case `T` and `Z`.
- View.JsParseInt: the `0x` prefix that `parseInt` reads as hexadecimal, and the loss of precision of JavaScript numbers beyond 2^53, are not modelled.
- DateText.CalendarDate: years are 0..9999, the range `yyyy` writes as four digits. Rendering a picked date in local time is not modelled: the date arrives with its fields and UTC offset already known.
- Rendering: the JSX, the `confirm` dialog (a `confirmed` parameter), console logging, `loading` screen and the async sequencing of awaited calls.
- The generated bridge class names fields `ID`, `Title`, … while the page's type uses `id`, `title`, …. This casing mismatch is a property of the serialisation glue and is not modelled.

## Findings

| source | as written | input that shows it | evidently intended | confidence | as-written member | corrected member |
|---|---|---|---|---|---|---|
| frontend/src/app/page.tsx:44 | The page formats a picked due date as `yyyy-MM-dd HH:mm:ss`, while internal/service/task_service.go:43 parses it with Go's `time.RFC3339` layout. That text has a space instead of `T` and no UTC offset, so it is never an RFC 3339 date-time. Every add with a picked date fails with a date-format error and creates nothing. | picking 1 March 2025 sends `"2025-03-01 00:00:00"` | send an RFC 3339 date-time, e.g. `yyyy-MM-dd'T'HH:mm:ssXXX` giving `"2025-03-01T00:00:00+05:00"` | high; not executed | `View.AsWrittenDueDateRejected` | `View.AddTaskInput` |

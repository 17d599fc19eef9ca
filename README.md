# To-do list task store, modelled in Dafny

The to-do page keeps one state object: an ordered list of tasks
(`{id, title, completed}`) and the current filter (`all`, `active` or
`completed`). Five operations change the list: add, toggle, delete, clear
completed and edit. Toggle, delete and clear completed always end by saving
the whole list to a single browser-storage slot, even when they change
nothing. Add returns before saving when the title is blank, and edit returns
before saving when no task carries the id. The filter is changed separately
and is never saved.
Two read-only projections are derived from the state: the visible list for
the current filter, and the "N item(s) left" counter. An inline edit session
sits on top of edit: Enter or blur commits the field's text, and Escape
cancels. Both listeners are detached before the session acts, so it commits
at most once.

The model has four modules:

- `Text` (`text.dfy`): `String.prototype.trim` over the ECMAScript whitespace
  set, and the decimal rendering of a count.
- `TaskList` (`tasklist.dfy`): the `Task` record, the filters the store
  applies, find-by-id, and the list each mutation produces. It also holds
  the visible projection, the counter, and the lemmas about all of them.
  These are pure functions, as in the source.
- `Store` (`store.dfy`): the `TaskStore` class, whose fields are the state
  object. Its methods make the same step-by-step changes as the source. A
  ghost field `persisted` stands for the storage slot, and each `save()` sets
  it. The `EditSession` class holds the edit field's text and whether its
  listeners are still attached.
- `Scenarios` (`scenarios.dfy`): clients that drive the store through the
  page's typical flows. Each scenario holds for every title of the stated
  kind.

The store promises that ids are pairwise distinct and that every title is
non-empty with no whitespace at either end (`TaskList.WellFormed`, which is
`TaskStore.Valid`). Every mutation keeps this promise. Add keeps it only when
the new id is fresh. Every operation that saves leaves the slot equal to the
list (`TaskStore.Synced`).

## Model

| member | source | states |
|---|---|---|
| `Text.Trim` | app.js:36 | the result is the slice of the input between its leading and trailing whitespace, has no whitespace at either end, and is empty exactly when the input is all whitespace |
| `Text.TrimIdempotent` | app.js:36 | trimming a trimmed title changes nothing |
| `Text.TrimOfTrimmed` | app.js:65 | a string with no whitespace at either end is its own trim |
| `Text.DecimalText` | app.js:91 | the decimal text of a count is non-empty, all digits, and has no leading zero except for 0 itself |
| `Text.DecimalRoundTrip` | app.js:91 | reading the decimal text back yields the count |
| `Text.DecimalTextInjective` | app.js:91 | different counts have different decimal texts |
| `TaskList.Select` | app.js:51 | `filter` returns a list no longer than its input; which tasks it keeps, how often and in what order is stated by `SelectMembers`, `SelectMultiplicity` and `SelectIsSubsequence` |
| `TaskList.SelectMembers` | app.js:51 | `filter` keeps exactly the tasks that satisfy the predicate |
| `TaskList.SelectMultiplicity` | app.js:51 | `filter` keeps each task that satisfies the predicate exactly as often as the list holds it, and keeps no other task |
| `TaskList.SelectCountsPositions` | app.js:90 | the length of a `filter` result is the number of positions whose task satisfies the predicate |
| `TaskList.SelectIsSubsequence` | app.js:57 | `filter` keeps the relative order of what it keeps |
| `TaskList.SelectAll` | app.js:51 | a filter that every task passes returns the list unchanged |
| `TaskList.SelectIdempotent` | app.js:57 | filtering twice by the same predicate is filtering once |
| `TaskList.CompletionPartition` | app.js:83-84 | the not-completed and completed selections together hold every task exactly once (as multisets), so their lengths sum to the list's length |
| `TaskList.SelectCountAfterUpdate` | app.js:45 | replacing one task changes how many tasks pass a filter only by whether the old and the new task pass it |
| `TaskList.FindIndex` | app.js:44 | `find` by id returns the first position carrying the id, and returns none exactly when no task carries it |
| `TaskList.FindIndexUnique` | app.js:63 | where ids are distinct, `find` returns the one task with that id |
| `TaskList.FindIndexSameIds` | app.js:44 | two lists with the same ids at the same positions give the same `find` result |
| `TaskList.Added` | app.js:35-41 | a non-blank title appends exactly one task, with the trimmed title and `completed` false, and keeps every earlier task; a blank title leaves the list as it was |
| `TaskList.Toggled` | app.js:43-48 | length, ids and titles are unchanged; a task's flag flips exactly when it is the first task carrying the id, so an unknown id changes nothing |
| `TaskList.Deleted` | app.js:50-54 | no task carries the id afterwards; every task with another id is kept exactly as often as the list holds it, in its original order |
| `TaskList.Cleared` | app.js:56-60 | every task not completed is kept exactly as often as the list holds it, in its original order, and no completed task is kept |
| `TaskList.Edited` | app.js:62-74 | an unknown id changes nothing; a blank title removes the task; otherwise only the first matching task's title changes, to the trimmed text, and its id, flag and position stay |
| `TaskList.EditedBlankIsDeleted` | app.js:66-68 | for every list, editing to a blank title gives the same list as deleting that id |
| `TaskList.DeletedUnknown` | app.js:51 | deleting an id that no task carries changes nothing |
| `TaskList.DeletedRemovesOne` | app.js:51 | where ids are distinct, deleting a present id removes exactly one task |
| `TaskList.ToggledTwice` | app.js:45 | toggling the same id twice restores the list |
| `TaskList.ToggledFlipsOnlyThatTask` | app.js:44-45 | where ids are distinct, toggle flips the flag of exactly the task carrying the id |
| `TaskList.ClearedIdempotent` | app.js:57 | clearing completed tasks twice is clearing them once |
| `TaskList.EditedIdempotent` | app.js:62-74 | committing the same edit twice is committing it once |
| `TaskList.SelectWellFormed` | app.js:51 | any filter keeps ids distinct and titles non-empty and trimmed |
| `TaskList.AddedWellFormed` | app.js:36-38 | add keeps the list well formed when the new id is fresh |
| `TaskList.ToggledWellFormed` | app.js:45 | toggle keeps the list well formed |
| `TaskList.DeletedWellFormed` | app.js:51 | delete keeps the list well formed |
| `TaskList.ClearedWellFormed` | app.js:57 | clear completed keeps the list well formed |
| `TaskList.EditedWellFormed` | app.js:65-71 | edit keeps the list well formed, and a blank edit never leaves an empty title behind |
| `TaskList.FilteredTasks` | app.js:81-87 | any filter value other than 'active' or 'completed' shows the whole list; 'active' shows exactly the not-completed tasks and 'completed' exactly the completed ones |
| `TaskList.FilteredViews` | app.js:81-87 | every view is an order-preserving subsequence of the list; the active and completed views together are the list's tasks, and their lengths sum to its length |
| `TaskList.RemainingCount` | app.js:90 | the count of tasks left is the number of positions holding a task that is not completed |
| `TaskList.ClearedKeepsRemaining` | app.js:89-90 | clearing completed tasks leaves the remaining count unchanged, and afterwards every task counts as remaining |
| `TaskList.AddedRemaining` | app.js:38 | a non-blank add raises the remaining count by one; a blank add leaves it unchanged |
| `TaskList.SelectAppend` | app.js:38 | filtering a list with one task appended is filtering the list, then appending that task if it passes |
| `TaskList.ToggledRemaining` | app.js:45 | toggling a present task lowers the remaining count by one when the task becomes completed and raises it by one when it is reopened; an unknown id leaves it unchanged |
| `TaskList.EditedRemaining` | app.js:70 | renaming a task leaves the remaining count unchanged |
| `TaskList.CounterText` | app.js:91 | the label is "1 item left" exactly when the count is 1; every other count, 0 included, gives "<n> items left" |
| `TaskList.CounterTextInjective` | app.js:91 | different counts give different labels |
| `Store.TaskStore.constructor` | app.js:14-29 | the list is the stored list when the slot holds one, and empty when the slot is empty or unreadable; the filter starts at 'all' |
| `Store.TaskStore.Save` | app.js:31-33 | afterwards the slot holds exactly the in-memory list |
| `Store.TaskStore.AddTask` | app.js:35-41 | the list becomes `Added`; a blank title returns without saving; otherwise the slot is synced; validity is kept when the id is fresh |
| `Store.TaskStore.ToggleTask` | app.js:43-48 | the list becomes `Toggled`; the slot is synced even when the id is unknown; validity is kept |
| `Store.TaskStore.DeleteTask` | app.js:50-54 | the list becomes `Deleted`; the slot is synced; validity is kept |
| `Store.TaskStore.ClearCompleted` | app.js:56-60 | the list becomes `Cleared`; the slot is synced; validity is kept |
| `Store.TaskStore.EditTask` | app.js:62-74 | the list becomes `Edited`; an unknown id returns without saving; otherwise the slot is synced; validity is kept |
| `Store.TaskStore.SetFilter` | app.js:76-79 | only the filter changes; neither the list nor the slot does |
| `Store.TaskStore.Visible` | app.js:81-87 | the shown tasks are an order-preserving subsequence of the list, selected by the current filter |
| `Store.TaskStore.ItemsLeft` | app.js:89-92 | the label counts the active view of the whole list, whatever view the filter currently shows |
| `Store.EditSession.constructor` | app.js:154-163 | a new session edits the given task, its field starts out holding the task's title, and both listeners are attached |
| `Store.EditSession.Type` | app.js:169 | the text that commit reads is whatever is currently in the field |
| `Store.EditSession.Finish` | app.js:165-173 | the listeners are detached first; a commit applies `editTask` with the field's text; a cancel leaves the list and the slot unchanged |
| `Store.EditSession.OnKey` | app.js:174-177 | Enter commits and Escape cancels, and either one ends the session; an Enter commit changes the list and the slot as `editTask` does; other keys do nothing; after the session ends, no key has any effect |
| `Store.EditSession.OnBlur` | app.js:178 | blur commits while the session is live, changing the list and the slot as `editTask` does, and does nothing once it has ended |
| `Store.EnterThenBlur` | app.js:165-181 | Enter commits the field's text, with the slot rule of `editTask`; whatever the field holds when the blur that follows arrives does not reach the store |
| `Store.EscapeThenBlur` | app.js:165-181 | Escape, then a blur, commits nothing: the list and the slot are unchanged |
| `Scenarios.BlankEditOfOnlyTask` | app.js:66-68 | editing a one-task list's only task to a blank title leaves the list empty |

## Left out

- Rendering is not modelled. This covers `render`'s reset and append loop, `renderItem`, the radio sync, and focus and caret placement (app.js:94-152, 161-163). They only present data, and the data they present is `FilteredTasks` and `CounterText`. For the same reason, the claim that at most one row is in edit mode at a time is not modelled.
- `localStorage` and JSON are not modelled. The storage slot is the ghost field `persisted` of type `Slot`. A value that parses to something falsy (`null`, `0`, `""`, `false`) is folded into `Empty`, the same as a missing slot. A value that parses to a truthy non-array is not representable, because `Slot.Holds` carries only task lists. The source does not check the shape of what it loads (app.js:25), so a loaded list need not be well formed, and the constructor does not claim that it is.
- `uid()` is not modelled (app.js:19-21). It uses `Math.random` and `Date.now`. `AddTask` takes the new id as a parameter and does not require it to be fresh, because nothing in the source guarantees that. Validity is promised only when the id is fresh.
- Event wiring is not modelled: form submit, the clear button, the radio change handlers and the Ctrl+L shortcut (app.js:185-204). They only dispatch to the modelled operations.
- Tasks are objects that `toggleTask` and `editTask` change in place (app.js:45, 70). In the model they are values, and the list element is replaced at the found position. The only other holders of a task object are the render closures. Of those, `startEdit` reads `task.title` when the session starts, and `finish` reads `task.id`, which never changes. `EditSession` copies both.
- A blank add (app.js:37) and an edit of an unknown id (app.js:64) return before `save()`. The model follows the code, so in those cases the slot keeps its previous contents.
- The whitespace set of `Trim` is the ECMAScript WhiteSpace and LineTerminator set, with the Unicode space separators fixed at the Zs list of current Unicode versions.

# Task list with pagination: a verified model

This project models the state machine behind a browser task list (`script.js`). The page keeps four pieces of state:

- the list of tasks, each with an id, a text and a creation or last-edit time, kept newest first;
- the current page;
- the page size;
- the id of the task being edited, if any.

The event handlers change that state in place:

- adding a task puts it at the front;
- editing enters edit mode;
- updating rewrites the edited task and re-sorts the list;
- deleting filters a task out and pulls the page back;
- the previous and next buttons step through the pages;
- the page-size selector changes the page size and returns to page 1.

The model has four modules:

- `Text`: JavaScript's `String.prototype.trim`.
- `Tasks`: the task record and the list operations the handlers use. These are lookup by id (`find`/`findIndex`), removal by id (`filter`) and the stable newest-first sort.
- `Pagination`: the page count, the slice shown on a page, the state of the previous/next buttons and the page clamp applied after a delete.
- `TaskList`: the class `TaskStore`. Its fields are the four state variables plus a ghost copy of what browser storage holds. Its methods are the handlers.

The central property is the page-bounds invariant: `1 <= currentPage <= max(1, ceil(|tasks| / itemsPerPage))`. Every handler preserves it, with one exception. For delete it holds only when task ids are unique. `DuplicateIdsCanLeavePageZero` shows why. The clamp at script.js:83 computes the page count without the `|| 1` that the render uses. So a delete that empties the list while page 2 or later is shown sets the page to 0, and that can happen only when two tasks share an id.

Three behaviours of the code are worth spelling out, because they are easy to assume otherwise:

- Adding a task leaves `editId` as it is (script.js:33-47 never assigns it).
- `loadTasks` has no error handling (script.js:18-25): unreadable stored data makes it throw, and no fallback to an empty list exists.
- Deleting never touches `editId` (script.js:77-90). After deleting the task under edit, submit finds no task with that id and does nothing until another task is edited.

## Model

| member | source | states |
|---|---|---|
| Text.IsWhitespace | script.js:34 | the white-space and line-terminator set of `trim`: space, tab, line feed and carriage return are in it; letters and digits never are |
| Text.TrimStart | script.js:34 | the result is a suffix of the input; everything dropped is white space; the result does not start with white space |
| Text.TrimEnd | script.js:34 | the result is a prefix of the input; everything dropped is white space; the result does not end with white space |
| Text.Trim | script.js:34 | never longer than the input; what it keeps is stated by TrimEmpty, TrimIsInfix, TrimEnds and TrimIdempotent |
| Text.TrimEmpty | script.js:34-35 | the trimmed text is empty exactly when the input is all white space, which is when add and update ignore the input |
| Text.TrimIsInfix | script.js:34 | the trimmed text is the part of the input between a white-space prefix and a white-space suffix |
| Text.TrimEnds | script.js:34 | non-empty trimmed text neither starts nor ends with white space |
| Text.TrimIdempotent | script.js:34 | trimming twice gives the same text as trimming once |
| Tasks.NewestFirstOrdered | script.js:22 | in a newest-first list every task is at least as recent as every task after it, not only its neighbour |
| Tasks.FindIndex | script.js:63-64 | -1 exactly when no task has the id; otherwise the index of the first task with that id |
| Tasks.RemoveId | script.js:79 | no kept task has the id, and the list does not grow |
| Tasks.RemoveIdContents | script.js:79 | exactly the tasks with the id are dropped; every other task is kept as often as it occurred |
| Tasks.RemoveIdConcat | script.js:79 | filtering distributes over concatenation, so kept tasks stay in their original relative order |
| Tasks.RemoveIdAbsent | script.js:79 | deleting an id no task has leaves the list unchanged |
| Tasks.RemoveIdKeepsNewestFirst | script.js:79 | filtering keeps a newest-first list newest-first |
| Tasks.RemoveIdIds | script.js:79 | one task is removed per occurrence of the id; the remaining ids are a sub-multiset of the old ids |
| Tasks.RemoveIdUnique | script.js:79 | with unique ids a delete removes at most one task, and the remaining ids stay unique |
| Tasks.PrependKeepsUnique | script.js:41 | putting a task with an unused id at the front keeps the ids unique |
| Tasks.PrependKeepsNewestFirst | script.js:41 | putting a task no older than the current head at the front keeps the list newest-first |
| Tasks.Insert | script.js:22 | one task longer than the list; the stable insertion step of the sort, whose order and contents are stated by InsertSorted, InsertPermutes and InsertIds |
| Tasks.InsertSorted | script.js:22 | inserting into a newest-first list keeps it newest-first |
| Tasks.InsertPermutes | script.js:22 | insertion adds exactly the inserted task |
| Tasks.InsertIds | script.js:22 | insertion adds exactly the inserted task's id |
| Tasks.SortNewestFirst | script.js:22 | as long as its input; that it sorts and permutes is stated by SortSorts and SortPermutes |
| Tasks.SortSorts | script.js:22 | the sort returns a newest-first list |
| Tasks.SortPermutes | script.js:22 | the sort returns a permutation of its input |
| Tasks.SortKeepsIds | script.js:68 | the sort permutes the ids |
| Tasks.WithTime | script.js:22 | a filter by timestamp: every task it keeps has that timestamp, and it is no longer than the list; SortStable is stated with it |
| Tasks.InsertStable | script.js:22 | insertion puts the task in front of every task with the same timestamp and keeps their order |
| Tasks.SortStable | script.js:22 | the sort is stable: tasks that share a timestamp keep their input order |
| Tasks.SortKeepsNewestFirst | script.js:22 | a list already newest-first is left unchanged, so a saved list loads back as it was |
| Tasks.SortPutsNewestFirst | script.js:68 | a task strictly newer than all others comes first after the sort |
| Tasks.Revise | script.js:65-66 | the task at the index gets the new text and time and keeps its id; every other task is unchanged |
| Tasks.ReviseKeepsIds | script.js:65-66 | an edit keeps every id in its place |
| Tasks.ReviseThenSort | script.js:65-68 | editing and then re-sorting permutes the ids and yields a newest-first list |
| Tasks.EditedTaskComesFirst | script.js:65-68 | a task edited later than every other task's time moves to the top |
| Pagination.CeilDiv | script.js:83 | the least page count whose pages hold all the tasks, which is 0 for no tasks |
| Pagination.TotalPages | script.js:121 | the least page count holding all the tasks, but at least 1 |
| Pagination.JsSlice | script.js:103 | a slice is never longer than the list |
| Pagination.PageSlice | script.js:100-104 | at most a page of tasks; from page 1 on, the tasks from position (page-1)*size on, cut at the end of the list; nothing on page 0 |
| Pagination.PageOfIndex | script.js:100-104 | the task at position k is row k % size of page k / size + 1, so every task is on some page |
| Pagination.PageInBoundsShowsTasks | script.js:100-104 | a page within the bounds shows at least one task of a non-empty list |
| Pagination.PagerView | script.js:121-125 | the page count is max(1, Math.ceil(n / size)); "previous" is disabled exactly on page 1; with no tasks there is one page and "next" is disabled |
| Pagination.ButtonsMatchHandlers | script.js:124-125 | within the bounds, "previous" is disabled exactly when its handler would not move, and so is "next" |
| Pagination.PageAfterDelete | script.js:83-86 | the clamp never moves the page forward, and when it moves it, it moves it from past page 1 to Math.ceil(n / size); a non-empty list keeps a page from 1 up |
| Pagination.PageAfterDeleteInBounds | script.js:83-86 | from page 1 or later, the clamped page is within the bounds exactly when the list is not empty or the page was 1 |
| Pagination.DeleteKeepsPageInBounds | script.js:83-86 | a delete that removes at most one task keeps the page within the bounds |
| Pagination.TwelveTasksFivePerPage | script.js:121-125 | twelve tasks at five a page: three pages, two tasks on the last, "next" disabled there, "previous" disabled on the first; no tasks: one page, both disabled |
| TaskList.TaskStore.EditActive | script.js:62 | JavaScript truthiness of `editId`: true only for a present, non-empty id; null and the empty string are false |
| TaskList.TaskStore.constructor | script.js:12-24 | initial state and load: the stored list sorted newest-first (or empty), page 1, page size 5, not editing, within the bounds |
| TaskList.TaskStore.SaveTasks | script.js:28-30 | storage then holds the whole list |
| TaskList.TaskStore.Add | script.js:33-47 | blank input changes nothing; otherwise the new task with the trimmed text is in front of the unchanged old list, page 1 is shown, the list is saved and edit mode is kept; keeps the bounds, unique ids (given a fresh id) and newest-first order (given a current time) |
| TaskList.TaskStore.Edit | script.js:50-57 | enters edit mode for the id exactly when some task has it; otherwise nothing changes |
| TaskList.TaskStore.ResetEdit | script.js:93-97 | leaves edit mode |
| TaskList.TaskStore.ReviseAndResort | script.js:65-70 | the found task gets the text and time, the list is re-sorted newest-first as a permutation of the old ids and saved, edit mode ends, the page stays |
| TaskList.TaskStore.Update | script.js:60-74 | with non-blank input, edit mode on and the task found: the first task with the id gets the text and time, the list is re-sorted newest-first as a permutation of the old ids, saved, and edit mode ends; otherwise nothing changes; the page and the bounds are kept |
| TaskList.TaskStore.Delete | script.js:77-90 | unconfirmed: nothing changes; confirmed: the tasks with the id are filtered out, the list is saved and the page is clamped; with unique ids the bounds and uniqueness are kept; order is always kept; edit mode is untouched |
| TaskList.TaskStore.Prev | script.js:194-199 | one page back unless already on page 1; keeps the bounds |
| TaskList.TaskStore.Next | script.js:201-207 | one page forward while below the page count; keeps the bounds |
| TaskList.TaskStore.SetItemsPerPage | script.js:209-213 | the chosen page size, shown from page 1, within the bounds |
| TaskList.TaskStore.Submit | script.js:176-192 | update in edit mode, add otherwise; keeps the bounds |
| TaskList.TaskStore.Render | script.js:119-146 | the placeholder exactly when the list is empty; otherwise at most a page of tasks, and at least one within the bounds; the pager as the render computes it |
| TaskList.DuplicateIdsCanLeavePageZero | script.js:83-86 | two tasks sharing an id, one per page, page 2 shown: deleting the id leaves page 0, outside the bounds |

## Left out

- DOM element lookups, the list markup, button labels, clearing and filling the text box, and the `window` exports: these are user-interface plumbing. The text box contents are a parameter of add, update and submit.
- `escapeHtml`, `formatDate`, `updateDateTime` and the one-second timer: these delegate to the browser's text serialisation and locale formatting.
- `localStorage` and JSON: storage is a ghost field, and loading takes the already parsed list as a parameter (`None` when nothing usable is stored, including an empty string). Unreadable stored data makes `JSON.parse` throw; no error path is modelled because the source has none.
- `Date.now()`, `new Date()` and `confirm()`: the fresh id, the current time and the user's answer are parameters. Ids are not assumed unique, because `Date.now()` does not guarantee it. Uniqueness is a hypothesis wherever the bounds depend on it.
- Timestamps are integer milliseconds, not ISO-8601 strings. Invalid dates (a NaN comparison in the sort) are not modelled.
- `Math.ceil` on floating point is modelled as exact integer ceiling division. `parseInt` of the selector is modelled as the precondition that the new page size is a positive integer.
- Tasks are values, so the in-place field writes on `tasks[taskIndex]` are modelled as replacing that element. No other reference to a task object exists in the source, so nothing is lost by this.
- TaskList.TaskStore.Add: newest-first order is promised only when the current time is no earlier than the newest task's, because the source does not re-sort after adding.
- TaskList.TaskStore.Delete: the page bounds are promised only for unique ids, because with duplicates the source can leave page 0 (see `DuplicateIdsCanLeavePageZero`).

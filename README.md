# Task board: a verified model of the board's data

The board is a single React component. It keeps one ordered list of task records and
shows it as three columns: "Not Yet Started", "In Progress" and "Finished". Two event
handlers change that list:

- submitting the creation form appends a task and clears the form;
- finishing a drag-and-drop takes one task out of the list, gives it the category of the
  column it was dropped on, and puts it back at the drop position.

Each column is the list filtered by category. A task is flagged overdue when its due date
compares below today's date as a string.

The Dafny project models that data and those handlers, and proves their properties.

- `wrappers.dfy` (module `Wrappers`): `Option` for the drag library's optional
  destination, and `Result` for the one way the drop handler fails.
- `text.dfy` (module `Text`): the JavaScript string operations the board uses. These are
  `split` on a one-character separator, `trim` (with ECMAScript's whitespace set) and
  the string `<` operator (`LexLess`).
- `dates.dfy` (module `Dates`): `YYYY-MM-DD` dates, and the proof that for two
  well-formed dates the string order is the chronological order.
- `tasks.dfy` (module `Tasks`): the task record, the categories, building a record from
  the form, the columns, and the overdue check.
- `drag.dfy` (module `Drag`): the drop handler as a function on the task list, built
  from remove-at and insert-at the way the handler's two `splice` calls are, with its
  properties.
- `board.dfy` (module `Board`): the component's state as a class `App`. Its fields are
  the task list and the form fields. `HandleTaskSubmit` and `HandleOnDragEnd` update
  those fields step by step, as the handlers do, and their postconditions tie the new
  state to the functions above. `Valid()` (every task is in one of the three columns) is
  kept by both handlers.

The task identifier and today's date are parameters. The component reads both from the
clock.

## The code as written

The model follows the code. In three places the code does something a user of the board
might not expect:

- **Drag positions are used on the master list.** The drag library numbers tasks within
  a column: each column's `Draggable`s get the index from the filtered list
  (src/index.js:193-199). The handler still uses `source.index` and `destination.index`
  directly on the full task list (src/index.js:96, 98). `Reorder` does the same.
  `ColumnPositions` is the missing column-to-master translation: column entry k is the
  task at master position `ColumnPositions(tasks, c)[k]`. The lemma
  `Drag.ColumnPositionTakenAsMasterPosition` gives a concrete two-task board. Dragging
  the only "In Progress" task moves the "Not Yet Started" task into "In Progress"
  instead.
- **Empty names are kept in `sharedWith`.** The list is `split` then `trim` with no
  filter, so `""` gives `[""]` and `","` gives `["", ""]`. A consequence: a submitted task
  always has at least one shared-with entry, so the display's "No one" fallback
  (src/index.js:220-222) never shows for such a task.
- **A source position with no task makes the handler throw.** The handler does not check
  the position. When `splice` removes nothing, `removed` is undefined, the category
  assignment throws, and the task list is not replaced. The model returns
  `Failure(RemovedIsUndefined)`, and `HandleOnDragEnd` leaves the state unchanged and
  returns `false`. This cannot happen for a position the drag library reports: that
  position counts within the source column, and a column is never longer than the list
  (`Drag.ColumnPositionNeverFails`). A destination past the end is not an error: `splice`
  then appends.

Priority and category stay strings, as in the code: the form's `<select>` gives the
priority, and the category is whatever `droppableId` the library reports.

## Model

| member | source | states |
|---|---|---|
| `Text.Split` | src/index.js:77 | `split(",")` gives exactly one more piece than there are commas in the input, so blank input gives one (empty) piece |
| `Text.SplitPiecesExcludeSeparator` | src/index.js:77 | no piece produced by `split` contains the separator |
| `Text.JoinSplit` | src/index.js:77 | joining the pieces with the separator gives back the input, so `split` loses nothing |
| `Text.SplitJoin` | src/index.js:77 | splitting a join of separator-free pieces gives back those pieces |
| `Text.LeadingWhitespace` | src/index.js:77 | counts the whitespace that `trim` removes at the front: all of it whitespace, and the next character is not |
| `Text.TrailingWhitespace` | src/index.js:77 | counts the whitespace that `trim` removes at the back: all of it whitespace, and the character before it is not |
| `Text.Trim` | src/index.js:77 | the trimmed name is empty exactly when the input is all whitespace, and otherwise neither starts nor ends with whitespace |
| `Text.TrimIsInfix` | src/index.js:77 | `trim` removes only whitespace: the result is the infix of the input after its leading whitespace, with only whitespace around it |
| `Text.TrimIdempotent` | src/index.js:77 | trimming a trimmed name changes nothing |
| `Text.LexLess` | src/index.js:106 | string `<`: after the longest common prefix, a string that ends there is less exactly when the other goes on, and otherwise the first differing character decides |
| `Text.LexLessIrreflexive` | src/index.js:106 | no string is `<` itself |
| `Text.LexLessAsymmetric` | src/index.js:106 | `a < b` and `b < a` never hold together |
| `Text.LexLessTotal` | src/index.js:106 | any two different strings are ordered by `<` one way or the other |
| `Text.LexLessTransitive` | src/index.js:106 | string `<` is transitive |
| `Text.LexLessConcat` | src/index.js:106 | with equally long prefixes, the prefixes decide `<` unless they are equal, and then the rest decides |
| `Dates.DigitOrderIsNumericOrder` | src/index.js:105-106 | for digit strings of equal length, string `<` is numeric `<`, and equal values mean equal strings |
| `Dates.IsoDateOrderIsChronological` | src/index.js:105-106 | for two `YYYY-MM-DD` dates, `a < b` as strings holds exactly when `a` is earlier by year, then month, then day |
| `Tasks.CategoriesDistinct` | src/index.js:23 | the three category names are pairwise different |
| `Tasks.SharedWith` | src/index.js:77 | one entry per comma-separated piece of the input, each the trimmed piece |
| `Tasks.SharedWithEntriesAreClean` | src/index.js:77 | no entry contains a comma or starts or ends with whitespace |
| `Tasks.SharedWithOfEmptyInput` | src/index.js:77 | blank input gives `[""]`, not `[]` |
| `Tasks.SharedWithOfLoneComma` | src/index.js:77 | `","` gives two empty names |
| `Tasks.SharedWithOfJoin` | src/index.js:77 | a comma-joined list of clean names is read back as that list |
| `Tasks.NewTask` | src/index.js:71-79 | the new task has the given id, copies name, description, due date and priority from the form, has category "Not Yet Started", and its shared-with list is `SharedWith` of the form's text (so one entry per comma plus one) |
| `Tasks.Column` | src/index.js:193-194 | a column holds only tasks of its category and is no longer than the list |
| `Tasks.ColumnPositions` | src/index.js:193-199 | column entry k is the task at a master position; the positions strictly increase, so the column keeps the master order; every task of the category is listed |
| `Tasks.ColumnConcat` | src/index.js:193-194 | filtering a concatenation filters each part |
| `Tasks.ColumnSnoc` | src/index.js:193-194 | appending a task extends only its own column |
| `Tasks.ColumnsPartition` | src/index.js:183-194 | when every task has one of the three categories, the three columns together hold each task exactly once |
| `Tasks.ColumnSizesAddUp` | src/index.js:183-194 | so the three column sizes add up to the number of tasks |
| `Tasks.NewTaskJoinsFirstColumn` | src/index.js:78-80 | a submitted task appears last in "Not Yet Started" and leaves the other columns unchanged |
| `Tasks.CreatedTasksFormFirstColumn` | src/index.js:78-80 | a list of "Not Yet Started" tasks is its own first column in the same order; with `NewTask`'s category, tasks submitted with no drag between them form the first column in creation order |
| `Tasks.IsOverdue` | src/index.js:104-107 | a task is overdue exactly when its due date is set, is not today's date, and does not compare above today as a string; as string order is total, that is a set due date comparing below today |
| `Tasks.NoDueDateNeverOverdue` | src/index.js:106 | an empty due date is never overdue |
| `Tasks.IsOverdueChronological` | src/index.js:104-107 | for well-formed dates, overdue means due on an earlier calendar day than today |
| `Tasks.OverdueExamples` | src/index.js:104-107 | due 2024-05-01 is overdue on 2024-06-01; due 2024-07-01 is not |
| `Tasks.DueTodayNotOverdue` | src/index.js:106 | a task due today is not overdue |
| `Drag.RemoveAt` | src/index.js:96 | `splice(i, 1)` drops element i: earlier elements stay put, later ones shift down by one |
| `Drag.InsertAt` | src/index.js:98 | `splice(i, 0, x)` puts x at i: earlier elements stay put, later ones shift up by one |
| `Drag.RemoveInserted` | src/index.js:96-98 | removing what was just inserted gives back the list |
| `Drag.Reorder` | src/index.js:89-101 | fails exactly when there is a destination and no task at the source position; with no destination the list is unchanged; otherwise the length is kept |
| `Drag.ColumnPositionNeverFails` | src/index.js:95-97 | a source position within the source column always finds a task in the master list, so the handler does not throw for it |
| `Drag.ReorderMovesOneTask` | src/index.js:95-98 | the dropped task lands at the destination position (the last one when that is past the end) with the destination's category; taking it out again gives the list without the source task, so every other task keeps its fields and relative order |
| `Drag.ReorderPermutesIds` | src/index.js:95-98 | after a drop the multiset of task ids is the one before: nothing is created, lost or duplicated |
| `Drag.ReorderKeepsCategorized` | src/index.js:95-98 | a drop on one of the three columns keeps every task in one of the three columns |
| `Drag.ReorderKeepsOtherColumns` | src/index.js:95-98 | a column that is neither the moved task's old category nor its new one is unchanged, in content and order |
| `Drag.DropInPlaceIsNoOp` | src/index.js:95-98 | dropping a task at its own master position on its own column changes nothing |
| `Drag.DropPastEndAppends` | src/index.js:98 | a destination position at or past the last one appends the task (as `splice` does) |
| `Drag.ColumnPositionTakenAsMasterPosition` | src/index.js:89-101 | on a concrete board, the column position of the dragged task is used as a master position, so a different task is moved |
| `Board.App.constructor` | src/index.js:13-20 | the board starts with no tasks and an empty form with priority "Medium" |
| `Board.App.HandleTaskSubmit` | src/index.js:69-86 | the list becomes the old list plus the new task at the end; the form is reset to empty fields and priority "Medium"; every task stays categorized |
| `Board.App.HandleOnDragEnd` | src/index.js:89-101 | the new list is the `Reorder` result, or the old list when the handler throws; the form does not change; every task stays categorized |

## Left out

- Rendering, the React and react-dom libraries, and the drag library's components
  (src/index.js:1-4, 110-243). Only the `result` record that the drag library hands to
  the handler is modelled. Of that record, the handler reads `source.index`,
  `destination.index` and `destination.droppableId`.
- The form's `onChange` setters (src/index.js:143-174). They only copy an input's value
  into a field. The browser's `required` check on the name and due date, which stops
  the submit event, is not modelled either: the model accepts any form.
- Login, logout and the commented-out remote login (src/index.js:7-10, 25-66). These are a
  hardcoded credential check plus `localStorage`, `alert` and network I/O.
- `Date.now()` and `new Date().toISOString()` (src/index.js:72, 105). These read the
  clock. The id and today's date are parameters. Id uniqueness is not claimed: two
  submits in the same millisecond get the same id.
- Object aliasing: `removed.category = ...` (src/index.js:97) also changes the task
  object that the previous state still holds, because the copy at line 95 is shallow.
  The model uses values, so the old list is not affected.
- Negative positions: the location's `index` is a `nat`, so the negative-start rules of
  `splice` are not modelled.
- `Tasks.IsOverdue`: returns a boolean. The source expression gives `""` for an empty due
  date, and the display treats that as false.
- `Text.LexLess`: compares Unicode code points, while JavaScript compares UTF-16 code
  units. The two orders differ only for characters outside the Basic Multilingual Plane,
  and dates are ASCII.

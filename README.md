# Kanban task board: the state of `App`

This project models the state manager inside the `App` component of a
browser Kanban board (`src/App.js`). The board maps four fixed column keys
(`requested`, `toDo`, `inProgress`, `done`) to columns. Each column has a
display name and an ordered list of tasks `{id, content, description}`.
Beside the board the component keeps an edit mode (`editingTask`, either
`null` or the id of the task being edited), the edit draft
(`editedTaskData`) and the two "add a task" input fields.

The handlers are modelled as methods of one mutable object, `App.Board`:

- `onDragEnd` moves a task within a column or across columns, by splicing
  it out of one list and into another.
- `deleteTask` filters a column by id.
- `startEditingTask`, the two draft inputs, `saveEditedTaskData` and
  `cancelEditingData` run edit mode.
- `addNewTask` appends to `requested`, but only when the trimmed title is
  not empty.

Three modules:

- `Strings` (`strings.dfy`): JavaScript's `trim`, over the ECMAScript white
  space and line terminator characters.
- `Kanban` (`kanban.dfy`): the values (tasks, columns, drop results, the
  edit draft). It also holds the value-level steps the handlers are built
  from: `splice`, `filter`, `findIndex`, the object spread. The properties
  of these steps are proved as lemmas, both per column and for the whole
  board. The main ones: a move conserves the tasks, a move can be undone, a
  delete is an order-preserving filter, and ids stay unique.
- `App` (`app.dfy`): the class `Board`. Its fields are the component's
  state hooks, and there is one method per handler. `Valid()` is the
  invariant every method keeps: four named columns, no id twice on the
  board, and edit mode either Idle with the empty draft or Editing one task
  with a draft for that task. Each method's postcondition gives the whole
  new state in terms of the `Kanban` functions. Two client methods,
  `Session` and `EditSession`, walk through adding a task, dragging it,
  editing and cancelling, then editing and saving, using only the methods'
  contracts.

Two behaviours of the code that the model keeps as written:

- Dropping beyond the end of a column is clamped to the end, as `splice`
  clamps its start index.
- The draft inputs exist only while a task is in edit mode. Their handlers
  do not check this themselves, so the model requires edit mode instead of
  treating a call outside it as a no-op.

## Model

| member | source | states |
|---|---|---|
| `App.Board.constructor` | src/App.js:4-35 | The board starts with the four named, empty columns from `taskStatus`, in edit mode Idle with the empty draft, and with both input fields empty. |
| `App.Board.OnDragEnd` | src/App.js:37-72 | With no destination nothing changes. A drop into another column is `MoveAcross`, a drop into the same column is `MoveWithin`. The number of tasks, edit mode and the input fields are kept. Ids stay unique. |
| `App.Board.DeleteTask` | src/App.js:74-80 | The column becomes its items filtered by id, and nothing else changes. If a task of the column carries the id, exactly that task is spliced out and the board has one task fewer. If no task carries it, the board is unchanged. |
| `App.Board.StartEditingTask` | src/App.js:82-85 | Edit mode becomes Editing(taskId) with draft `{taskId, content, description}`, whatever draft was there before. The board and the input fields are unchanged. |
| `App.Board.SetEditedContent` | src/App.js:208-213 | Only the draft's title changes, to the typed value. Edit mode and the board are unchanged. |
| `App.Board.SetEditedDescription` | src/App.js:218-223 | Only the draft's description changes, to the typed value. Edit mode and the board are unchanged. |
| `App.Board.SaveEditedTaskData` | src/App.js:87-102 | If the draft's id matches a task of the column, the first such task takes the draft's title and description (`SaveAt`), and edit mode returns to Idle with the empty draft. If none matches, nothing changes, the draft included. The task count is kept. |
| `App.Board.CancelEditingData` | src/App.js:104-107 | Edit mode becomes Idle with the empty draft, from any state, so a second call changes nothing. The board is unchanged. |
| `App.Board.SetNewTaskContent` | src/App.js:133 | Only the new-task title field changes. |
| `App.Board.SetNewTaskDescription` | src/App.js:139 | Only the new-task description field changes. |
| `App.Board.AddNewTask` | src/App.js:109-122 | A title that is only white space changes nothing. Otherwise one task with the fresh id and the untrimmed title and description is appended to `requested`, the board has one more task, both input fields are cleared, and ids stay unique. |
| `Strings.TrimStart` | src/App.js:110 | The result is a suffix of the input that does not start with white space, and everything cut off is white space. |
| `Strings.TrimEnd` | src/App.js:110 | The result is a prefix of the input that does not end with white space, and everything cut off is white space. |
| `Strings.Trim` | src/App.js:110 | The trimmed string is empty exactly when every character is white space. This is the `addNewTask` guard. |
| `Strings.TrimIdempotent` | src/App.js:110 | Trimming twice gives the same string as trimming once. |
| `Strings.IsWhitespace` | src/App.js:110 | The characters `trim` removes: space, tab, line feed and carriage return are white space, and ASCII letters and digits are not. |
| `Kanban.Clamp` | src/App.js:47 | The index `splice` really inserts at: never past the end and never past the requested index, and equal to one of the two. |
| `Kanban.RemoveAt` | src/App.js:46 | `splice(index, 1)`: one element shorter. The elements before `index` stay in place and the ones after it move down by one. |
| `Kanban.InsertAt` | src/App.js:47 | `splice(index, 0, t)`: `t` sits at `index`. The elements before it stay in place and the ones after it move up by one. |
| `Kanban.RemoveThenInsert` | src/App.js:46-47 | Inserting the removed element back at the same index restores the list. |
| `Kanban.InsertThenRemove` | src/App.js:46-47 | Removing the element just inserted restores the list. |
| `Kanban.RemoveAtMultiset` | src/App.js:46 | Removal takes exactly the removed element out of the multiset of tasks. |
| `Kanban.InsertAtMultiset` | src/App.js:47 | Insertion adds exactly the inserted element to the multiset of tasks. |
| `Kanban.Reorder` | src/App.js:61-63 | The same-column splice pair keeps the column's length and puts the task from `source.index` at the destination index, clamped to the last position. |
| `Kanban.ReorderIsPermutation` | src/App.js:61-63 | A same-column move keeps the length and the multiset (it is a permutation). The moved task lands at the clamped destination, and the other tasks keep their relative order. |
| `Kanban.ReorderRoundTrip` | src/App.js:61-63 | Dragging the task back from where it landed to where it came from restores the column. |
| `Kanban.WithoutTask` | src/App.js:76-78 | The filter keeps exactly the tasks whose id differs. Its length is the old length minus the number of tasks carrying the id. |
| `Kanban.WithoutTaskAppend` | src/App.js:76-78 | The filter works piece by piece over concatenation, so it keeps the relative order of the tasks it keeps. |
| `Kanban.WithoutAbsentTask` | src/App.js:76-78 | Filtering out an id that no task carries leaves the list unchanged. |
| `Kanban.WithoutUniqueTask` | src/App.js:76-78 | Filtering out an id that exactly one task carries is splicing out that one task. |
| `Kanban.WithoutTaskIdCount` | src/App.js:76-78 | After the filter no task carries the id, and the counts of all other ids are unchanged. |
| `Kanban.FindIndex` | src/App.js:89-91 | `findIndex` returns -1 exactly when no task matches. Otherwise it returns the index of the first matching task. A `null` id matches nothing. |
| `Kanban.UpdateAt` | src/App.js:94-97 | The task at the index keeps its id and takes the new title and description. Every other task is unchanged. |
| `Kanban.UpdateAtIdCount` | src/App.js:94-97 | Saving an edit changes no id count. |
| `Kanban.ColumnName` | src/App.js:6-23 | The display names of `taskStatus`: `requested` is "Requested", `toDo` "To do", `inProgress` "In Progress", `done` "Done", and each name belongs to exactly one key. |
| `Kanban.InitialColumns` | src/App.js:6-23 | `taskStatus`: every key has its column with its fixed name, and all four columns are empty. |
| `Kanban.WithItems` | src/App.js:48-57 | The spread `{...columns, [k]: {...columns[k], items}}`: column `k` gets the new items and keeps its name, and every other column is unchanged. |
| `Kanban.MoveAcross` | src/App.js:41-58 | A cross-column drop gives a board with the four named columns again. The source column is its items with `source.index` spliced out. The destination column is its items with that task spliced in at the clamped destination index. Every other column is unchanged. |
| `Kanban.MoveAcrossConserves` | src/App.js:41-58 | A cross-column move takes exactly the task at `source.index` out of the source column (one shorter) and puts that task at the clamped destination index (one longer). The other columns are unchanged, and both multisets change by that one task. The total task count and every id count are kept, so ids stay unique. |
| `Kanban.MoveAcrossRoundTrip` | src/App.js:41-58 | Dragging the task back from where it landed to where it came from restores the board. |
| `Kanban.MoveWithin` | src/App.js:59-70 | A same-column drop gives a board with the four named columns again. That column becomes `Reorder` of its items, and every other column is unchanged. |
| `Kanban.MoveWithinConserves` | src/App.js:59-70 | A same-column move permutes that column and puts the moved task at the clamped destination. Every other column, the task count and every id count are unchanged. |
| `Kanban.Delete` | src/App.js:74-80 | Deleting gives a board with the four named columns again. The column becomes its items filtered by id, and every other column is unchanged. |
| `Kanban.DeleteKeepsIdsUnique` | src/App.js:74-80 | Deleting lowers only the deleted id's count on the board, so ids stay unique. |
| `Kanban.DeletePresentTask` | src/App.js:74-80 | On a board with unique ids, deleting the id of a task in the column splices out exactly that task. The board has one task fewer and the other columns are unchanged. |
| `Kanban.DeleteAbsentTask` | src/App.js:74-80 | Deleting an id that the column does not hold leaves the board unchanged. |
| `Kanban.SaveAt` | src/App.js:93-98 | Saving gives a board with the four named columns again. In the column, the task at the found index takes the draft's title and description (`UpdateAt`), and every other column is unchanged. |
| `Kanban.SaveAtConserves` | src/App.js:93-98 | Saving an edit keeps the task count and every id count, so ids stay unique. |
| `Kanban.Append` | src/App.js:111-118 | Adding gives a board with the four named columns again. `requested` gets the new task pushed at its end, and every other column is unchanged. |
| `Kanban.AppendFresh` | src/App.js:111-118 | Appending a task whose id is not on the board puts it last in `requested` and keeps the earlier tasks and the other columns. The board gains one task and ids stay unique. |

## Left out

- Rendering, styling and the drag-and-drop library (`src/App.js:124-280`) are presentation. The drop result is an input value `{source, destination?}`. The choice of which task shows its edit inputs (`editingTask === item.id`) is rendering and is not modelled.
- Id generation `(Math.random() * 100).toString()` (`src/App.js:113`) is random and floating point. `AddNewTask` takes the new id as a parameter and requires that no task on the board carries it. A collision of the random ids is therefore not modelled.
- React's `useState` setters are modelled as plain field assignments taking effect at once. Batching and re-rendering are not modelled. Neither is the sharing of item arrays and task objects between the old and the new state: the handlers mutate those in place (`src/App.js:76`, `src/App.js:94-97`, `src/App.js:117`). The model keeps one store of values.
- App.Board.OnDragEnd: requires `source.index` to be a valid index of its column. The library only reports drags of existing tasks. Out of range, `splice` would remove nothing and insert `undefined`, which the model does not represent. A destination index past the end is clamped, as `splice` does. Negative indexes are not modelled (indexes are `nat`).
- Column ids outside the four keys are not modelled. `droppableId` has the type `ColumnKey`, because droppables exist only for the board's own columns.
- App.Board.SetEditedContent and App.Board.SetEditedDescription: require edit mode, because their inputs exist only in edit mode (`src/App.js:203-224`). Outside edit mode the source handlers would write the draft anyway; that case is not modelled.
- Strings are sequences of Unicode scalar values, not UTF-16 code units. The white space set is the ECMAScript WhiteSpace and LineTerminator code points, with the Unicode Zs category written out as it stands today.

/**
 * The state of the `App` component and its event handlers. The component's
 * state hooks become the fields of one mutable `Board`; each handler is a
 * method that changes them the way the handler's setters do.
 */
module App {
  import opened Kanban
  import opened Strings

  class Board {
    /** The columns, keyed by column key (`columns`). */
    var columns: Columns
    /** The id of the task in edit mode; `None` is the source's `null` (Idle). */
    var editingTask: Option<TaskId>
    /** The draft of the task in edit mode (`editedTaskData`). */
    var editedTaskData: EditDraft
    /** The "Add a new task" input field. */
    var newTaskContent: string
    /** The "Add task description" input field. */
    var newTaskDescription: string

    /** The board keeps its four named columns and no id twice; edit mode is
        either Idle, with the empty draft, or Editing one task, with a draft
        that names that task. */
    ghost predicate Valid()
      reads this
    {
      && WellFormed(columns)
      && UniqueIds(columns)
      && editedTaskData.taskId == editingTask
      && (editingTask.None? ==> editedTaskData == EmptyDraft)
    }

    /** The initial state: the four empty columns, Idle, empty input fields. */
    constructor ()
      ensures Valid()
      ensures columns == InitialColumns()
      ensures forall k: ColumnKey :: columns[k].items == []
      ensures editingTask == None && editedTaskData == EmptyDraft
      ensures newTaskContent == "" && newTaskDescription == ""
    {
      columns := InitialColumns();
      editingTask := None;
      newTaskContent := "";
      editedTaskData := EmptyDraft;
      newTaskDescription := "";
    }

    /** `onDragEnd`: no destination leaves everything as it was; a drop in
        another column moves the task there, a drop in the same column
        reorders it. Either way the number of tasks is kept. */
    method OnDragEnd(result: DropResult)
      requires Valid()
      requires result.destination.Some? ==> result.source.index < |columns[result.source.droppableId].items|
      modifies this
      ensures Valid()
      ensures result.destination.None? ==> unchanged(this)
      ensures result.destination.Some? && result.source.droppableId != result.destination.value.droppableId ==>
        columns == MoveAcross(old(columns), result.source.droppableId, result.source.index,
                              result.destination.value.droppableId, result.destination.value.index)
      ensures result.destination.Some? && result.source.droppableId == result.destination.value.droppableId ==>
        columns == MoveWithin(old(columns), result.source.droppableId, result.source.index,
                              result.destination.value.index)
      ensures TaskCount(columns) == old(TaskCount(columns))
      ensures editingTask == old(editingTask) && editedTaskData == old(editedTaskData)
      ensures newTaskContent == old(newTaskContent) && newTaskDescription == old(newTaskDescription)
    {
      if result.destination.None? {
        return;
      }
      var source, destination := result.source, result.destination.value;
      if source.droppableId != destination.droppableId {
        var sourceColumn := columns[source.droppableId];
        var destColumn := columns[destination.droppableId];
        var sourceItems := sourceColumn.items;
        var destItems := destColumn.items;
        var removed := sourceItems[source.index];
        sourceItems := RemoveAt(sourceItems, source.index);
        destItems := InsertAt(destItems, Clamp(destination.index, |destItems|), removed);
        MoveAcrossConserves(columns, source.droppableId, source.index, destination.droppableId, destination.index);
        columns := WithItems(WithItems(columns, source.droppableId, sourceItems), destination.droppableId, destItems);
      } else {
        var column := columns[source.droppableId];
        var copiedItems := column.items;
        var removed := copiedItems[source.index];
        copiedItems := RemoveAt(copiedItems, source.index);
        copiedItems := InsertAt(copiedItems, Clamp(destination.index, |copiedItems|), removed);
        MoveWithinConserves(columns, source.droppableId, source.index, destination.index);
        columns := WithItems(columns, source.droppableId, copiedItems);
      }
    }

    /** `deleteTask`: column `columnId` keeps, in order, the tasks whose id is
        not `taskId`. With ids unique that removes exactly the one task that
        carries it; when the column holds no such task nothing changes. */
    method DeleteTask(columnId: ColumnKey, taskId: TaskId)
      requires Valid()
      modifies this
      ensures Valid()
      ensures columns == Delete(old(columns), columnId, taskId)
      ensures forall i :: 0 <= i < |old(columns)[columnId].items| && old(columns)[columnId].items[i].id == taskId ==>
        && columns[columnId].items == RemoveAt(old(columns)[columnId].items, i)
        && TaskCount(columns) == old(TaskCount(columns)) - 1
      ensures (forall i :: 0 <= i < |old(columns)[columnId].items| ==> old(columns)[columnId].items[i].id != taskId) ==>
        columns == old(columns)
      ensures editingTask == old(editingTask) && editedTaskData == old(editedTaskData)
      ensures newTaskContent == old(newTaskContent) && newTaskDescription == old(newTaskDescription)
    {
      var updatedColumns := columns;
      updatedColumns := WithItems(updatedColumns, columnId, WithoutTask(updatedColumns[columnId].items, taskId));
      DeleteKeepsIdsUnique(columns, columnId, taskId);
      forall i | 0 <= i < |columns[columnId].items| && columns[columnId].items[i].id == taskId
        ensures Delete(columns, columnId, taskId)[columnId].items == RemoveAt(columns[columnId].items, i)
        ensures TaskCount(Delete(columns, columnId, taskId)) == TaskCount(columns) - 1
      {
        DeletePresentTask(columns, columnId, taskId, i);
      }
      if forall i :: 0 <= i < |columns[columnId].items| ==> columns[columnId].items[i].id != taskId {
        DeleteAbsentTask(columns, columnId, taskId);
      }
      columns := updatedColumns;
    }

    /** `startEditingTask`: edit mode becomes Editing(taskId) with a fresh
        draft, whatever draft was there before; the board is not touched. */
    method StartEditingTask(taskId: TaskId, content: string, description: string)
      requires Valid()
      modifies this
      ensures Valid()
      ensures editingTask == Some(taskId)
      ensures editedTaskData == EditDraft(Some(taskId), content, description)
      ensures columns == old(columns)
      ensures newTaskContent == old(newTaskContent) && newTaskDescription == old(newTaskDescription)
    {
      editingTask := Some(taskId);
      editedTaskData := EditDraft(Some(taskId), content, description);
    }

    /** The title input of the task in edit mode: only the draft's title
        changes. The input is rendered only in edit mode. */
    method SetEditedContent(value: string)
      requires Valid() && editingTask.Some?
      modifies this
      ensures Valid()
      ensures editedTaskData == EditDraft(old(editedTaskData).taskId, value, old(editedTaskData).description)
      ensures editingTask == old(editingTask) && columns == old(columns)
      ensures newTaskContent == old(newTaskContent) && newTaskDescription == old(newTaskDescription)
    {
      editedTaskData := editedTaskData.(content := value);
    }

    /** The description input of the task in edit mode: only the draft's
        description changes. The input is rendered only in edit mode. */
    method SetEditedDescription(value: string)
      requires Valid() && editingTask.Some?
      modifies this
      ensures Valid()
      ensures editedTaskData == EditDraft(old(editedTaskData).taskId, old(editedTaskData).content, value)
      ensures editingTask == old(editingTask) && columns == old(columns)
      ensures newTaskContent == old(newTaskContent) && newTaskDescription == old(newTaskDescription)
    {
      editedTaskData := editedTaskData.(description := value);
    }

    /** `saveEditedTaskData`: the first task of column `columnId` whose id is
        the draft's takes the draft's title and description, and edit mode
        returns to Idle; when no task of that column matches, nothing changes,
        the draft included. */
    method SaveEditedTaskData(columnId: ColumnKey)
      requires Valid()
      modifies this
      ensures Valid()
      ensures forall i :: && 0 <= i < |old(columns)[columnId].items|
                          && old(editedTaskData).taskId == Some(old(columns)[columnId].items[i].id)
                          && (forall j :: 0 <= j < i ==> old(editedTaskData).taskId != Some(old(columns)[columnId].items[j].id))
                          ==>
        && columns == SaveAt(old(columns), columnId, i, old(editedTaskData).content, old(editedTaskData).description)
        && editingTask == None && editedTaskData == EmptyDraft
      ensures (forall i :: 0 <= i < |old(columns)[columnId].items| ==>
                 old(editedTaskData).taskId != Some(old(columns)[columnId].items[i].id)) ==>
        unchanged(this)
      ensures TaskCount(columns) == old(TaskCount(columns))
      ensures newTaskContent == old(newTaskContent) && newTaskDescription == old(newTaskDescription)
    {
      var updatedColumns := columns;
      var items := updatedColumns[columnId].items;
      var taskIndex := FindIndex(items, editedTaskData.taskId);
      if taskIndex != -1 {
        SaveAtConserves(columns, columnId, taskIndex, editedTaskData.content, editedTaskData.description);
        updatedColumns := WithItems(updatedColumns, columnId,
                                    UpdateAt(items, taskIndex, editedTaskData.content, editedTaskData.description));
        columns := updatedColumns;
        editingTask := None;
        editedTaskData := EmptyDraft;
      }
    }

    /** `cancelEditingData`: back to Idle with the empty draft, from any edit
        state (so a second call changes nothing); the board is not touched. */
    method CancelEditingData()
      requires Valid()
      modifies this
      ensures Valid()
      ensures editingTask == None && editedTaskData == EmptyDraft
      ensures columns == old(columns)
      ensures newTaskContent == old(newTaskContent) && newTaskDescription == old(newTaskDescription)
    {
      editingTask := None;
      editedTaskData := EmptyDraft;
    }

    /** The "Add a new task" input field. */
    method SetNewTaskContent(value: string)
      requires Valid()
      modifies this
      ensures Valid()
      ensures newTaskContent == value && newTaskDescription == old(newTaskDescription)
      ensures columns == old(columns)
      ensures editingTask == old(editingTask) && editedTaskData == old(editedTaskData)
    {
      newTaskContent := value;
    }

    /** The "Add task description" input field. */
    method SetNewTaskDescription(value: string)
      requires Valid()
      modifies this
      ensures Valid()
      ensures newTaskDescription == value && newTaskContent == old(newTaskContent)
      ensures columns == old(columns)
      ensures editingTask == old(editingTask) && editedTaskData == old(editedTaskData)
    {
      newTaskDescription := value;
    }

    /** `addNewTask`: when the title is only white space nothing changes;
        otherwise a task with id `freshId` and the typed title and description
        (untrimmed) is appended to `requested`, and both input fields are
        cleared. `freshId` stands for the generated id. */
    method AddNewTask(freshId: TaskId)
      requires Valid() && BoardIdCount(columns, freshId) == 0
      modifies this
      ensures Valid()
      ensures Trim(old(newTaskContent)) == "" ==> unchanged(this)
      ensures Trim(old(newTaskContent)) != "" ==>
        && columns == Append(old(columns), Task(freshId, old(newTaskContent), old(newTaskDescription)))
        && TaskCount(columns) == old(TaskCount(columns)) + 1
        && newTaskContent == "" && newTaskDescription == ""
      ensures editingTask == old(editingTask) && editedTaskData == old(editedTaskData)
    {
      if Trim(newTaskContent) != "" {
        var newTask := Task(freshId, newTaskContent, newTaskDescription);
        AppendFresh(columns, newTask);
        columns := Append(columns, newTask);
        newTaskContent := "";
        newTaskDescription := "";
      }
    }
  }

  /** A session: add a task, then drag it to "To do". */
  method Session() {
    var board := new Board();
    board.SetNewTaskContent("Write spec");
    assert Trim("Write spec") != "" by {
      assert !IsWhitespace("Write spec"[0]);
    }
    board.AddNewTask("t1");
    var task := Task("t1", "Write spec", "");
    assert board.columns[Requested].items == [] + [task];
    DragSession(board, task);
  }

  /** The session goes on: drag the new task from "Requested" to "To do". */
  method DragSession(board: Board, task: Task)
    requires board.Valid() && board.columns[Requested].items == [task] && board.columns[ToDo].items == []
    modifies board
  {
    board.OnDragEnd(DropResult(DraggableLocation(Requested, 0), Some(DraggableLocation(ToDo, 0))));
    assert board.columns[Requested].items == RemoveAt([task], 0) == [];
    assert board.columns[ToDo].items == InsertAt([], 0, task) == [task];
    EditSession(board, task);
  }

  /** The session goes on: edit the task's title and cancel, then edit its
      description and save. */
  method EditSession(board: Board, task: Task)
    requires board.Valid() && board.columns[ToDo].items == [task]
    modifies board
  {
    board.StartEditingTask(task.id, task.content, task.description);
    board.SetEditedContent("Rewrite spec");
    board.CancelEditingData();
    assert board.columns[ToDo].items == [task];

    board.StartEditingTask(task.id, task.content, task.description);
    board.SetEditedDescription("done by Friday");
    assert board.editedTaskData == EditDraft(Some(task.id), task.content, "done by Friday");
    board.SaveEditedTaskData(ToDo);
    assert board.columns[ToDo].items == UpdateAt([task], 0, task.content, "done by Friday");
    assert board.columns[ToDo].items[0] == Task(task.id, task.content, "done by Friday");
    assert board.editingTask == None;
  }
}

/** The board's state and its two event handlers. The component keeps the
    task list and the creation form's fields as separate pieces of state;
    here they are the fields of one object, and each handler replaces them
    the way the component's state setters do. */
module Board {
  import opened Wrappers
  import opened Tasks
  import opened Drag

  class App {
    var tasks: seq<Task>
    var taskName: string
    var description: string
    var dueDate: string
    var priority: string
    var shareWith: string

    /** Every task sits in one of the three columns. */
    ghost predicate Valid()
      reads this
    {
      AllCategorized(tasks)
    }

    /** The form's fields as one value. */
    function CurrentForm(): Form
      reads this
    {
      Form(taskName, description, dueDate, priority, shareWith)
    }

    /** The state the component starts with: no tasks and an empty form. */
    constructor ()
      ensures Valid()
      ensures tasks == [] && CurrentForm() == EmptyForm
    {
      tasks := [];
      taskName, description, dueDate, priority, shareWith := "", "", "", DefaultPriority, "";
    }

    /** `handleTaskSubmit`: appends the task built from the form, with the
        given identifier, and clears the form. */
    method HandleTaskSubmit(id: string)
      requires Valid()
      modifies this
      ensures Valid()
      ensures tasks == old(tasks) + [NewTask(old(CurrentForm()), id)]
      ensures CurrentForm() == EmptyForm
    {
      var newTask := NewTask(CurrentForm(), id);
      tasks := tasks + [newTask];
      taskName := "";
      description := "";
      dueDate := "";
      priority := DefaultPriority;
      shareWith := "";
    }

    /** `handleOnDragEnd`: without a destination it returns at once;
        otherwise it takes the task at `source.index` out of a copy of the
        list, sets its category, inserts it at `destination.index` and
        stores the copy. When there is nothing at `source.index` the handler
        throws before it stores anything, so the state stays as it was and
        `ok` is false. The drag library only reports the droppable ids the
        board renders, which are the three categories. */
    method HandleOnDragEnd(result: DropResult) returns (ok: bool)
      requires Valid()
      requires result.destination.Some? ==> result.destination.value.droppableId in Categories
      modifies this
      ensures Valid()
      ensures ok <==> Reorder(old(tasks), result).Success?
      ensures tasks == if ok then Reorder(old(tasks), result).value else old(tasks)
      ensures CurrentForm() == old(CurrentForm())
    {
      if result.destination.None? {
        return true;
      }
      var destination := result.destination.value;
      var updatedTasks := tasks;
      if result.source.index >= |updatedTasks| {
        return false;
      }
      var removed := updatedTasks[result.source.index];
      updatedTasks := RemoveAt(updatedTasks, result.source.index);
      removed := removed.(category := destination.droppableId);
      updatedTasks := InsertAt(updatedTasks, Min(destination.index, |updatedTasks|), removed);
      ReorderKeepsCategorized(tasks, result);
      tasks := updatedTasks;
      ok := true;
    }
  }
}

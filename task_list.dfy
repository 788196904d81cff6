/** The task list component: the client's snapshot of the server's tasks
    and the handlers that change it. Each handler is atomic here; the
    promise it awaits is given to it already settled, as an Outcome. */
module TaskListComponent {
  import opened Remote
  import opened TaskSeq

  /** The message stored in `error` when loading the list fails. */
  const LoadError: string := "Erreur lors du chargement des tâches"

  class TaskList {
    /** The snapshot, in the order the server and the handlers produced it. */
    var tasks: seq<Task>
    var loading: bool
    /** `null` until a load fails, then the load error message. */
    var error: Option<string>
    var selectedTaskId: Option<int>
    var isDetailModalVisible: bool
    var isAddModalVisible: bool
    var isEditModalVisible: bool
    var taskToEdit: Option<Task>

    /** Initial component state, before the mount effect's fetch settles. */
    constructor ()
      ensures tasks == [] && loading && error == None
      ensures selectedTaskId == None && taskToEdit == None
      ensures !isDetailModalVisible && !isAddModalVisible && !isEditModalVisible
    {
      tasks := [];
      loading := true;
      error := None;
      selectedTaskId := None;
      isDetailModalVisible := false;
      isAddModalVisible := false;
      isEditModalVisible := false;
      taskToEdit := None;
    }

    /** Load the whole list. On success the server's list replaces the
        snapshot as is; on failure the snapshot stays and the error is
        recorded. Neither path clears an earlier error. */
    method FetchTasks(response: Outcome<seq<Task>>)
      modifies this`tasks, this`loading, this`error
      ensures !loading
      ensures response.Success? ==> tasks == response.value && error == old(error)
      ensures response.Failure? ==> tasks == old(tasks) && error == Some(LoadError)
      ensures old(error).Some? ==> error.Some?
    {
      loading := true;
      match response {
        case Success(data) =>
          tasks := data;
          loading := false;
        case Failure =>
          error := Some(LoadError);
          loading := false;
      }
    }

    /** Append the task the add form reports and close the add dialog.
        The id of the new task is not checked against the list. */
    method HandleAddTask(newTask: Task)
      modifies this`tasks, this`isAddModalVisible
      ensures tasks == Append(old(tasks), newTask)
      ensures |tasks| == |old(tasks)| + 1
      ensures tasks[|tasks| - 1] == newTask
      ensures tasks[..|old(tasks)|] == old(tasks)
      ensures UniqueIds(old(tasks)) && NoneWithId(old(tasks), newTask.id) ==> UniqueIds(tasks)
      ensures !isAddModalVisible
    {
      ghost var before := tasks;
      tasks := Append(tasks, newTask);
      isAddModalVisible := false;
      if UniqueIds(before) && NoneWithId(before, newTask.id) {
        AppendKeepsUnique(before, newTask);
      }
    }

    /** Delete a task: the delete request for `id` goes out only once the
        user confirms; if it then succeeds, every entry carrying `id`
        leaves the snapshot and the others keep their order; otherwise the
        snapshot is untouched. */
    method HandleDelete(id: int, confirmed: bool, response: Outcome<()>) returns (requested: Option<int>)
      modifies this`tasks
      ensures requested == if confirmed then Some(id) else None
      ensures confirmed && response.Success? ==> tasks == RemoveById(old(tasks), id)
      ensures confirmed && response.Success? ==>
                NoneWithId(tasks, id) && IsSubsequence(tasks, old(tasks)) && |tasks| <= |old(tasks)|
      ensures !(confirmed && response.Success?) ==> tasks == old(tasks)
    {
      requested := if confirmed then Some(id) else None;
      if confirmed && response.Success? {
        ghost var before := tasks;
        tasks := RemoveById(tasks, id);
        RemoveByIdCounts(before, id);
        RemoveByIdOrder(before, id);
        RemoveByIdLength(before, id);
      }
    }

    /** Flip a task's status. The request is `updateTask(task.id, payload)`
        with the payload a copy of `task` whose `completed` is negated; on
        success the server's task replaces every entry carrying `task.id`. */
    method ToggleTaskStatus(task: Task, response: Outcome<Task>) returns (requestId: int, payload: Task)
      modifies this`tasks
      ensures requestId == task.id
      ensures payload.id == task.id && payload.title == task.title && payload.completed == !task.completed
      ensures response.Success? ==> tasks == ReplaceById(old(tasks), task.id, response.value)
      ensures response.Success? ==>
                |tasks| == |old(tasks)| &&
                forall i :: 0 <= i < |tasks| ==>
                  tasks[i] == if old(tasks)[i].id == task.id then response.value else old(tasks)[i]
      ensures response.Success? && response.value.id == task.id && UniqueIds(old(tasks)) ==> UniqueIds(tasks)
      ensures response.Failure? ==> tasks == old(tasks)
    {
      requestId := task.id;
      payload := task.(completed := !task.completed);
      match response {
        case Success(updatedTask) =>
          ReplaceByIdAt(tasks, task.id, updatedTask);
          if updatedTask.id == task.id && UniqueIds(tasks) {
            ReplaceByIdKeepsUnique(tasks, updatedTask);
          }
          tasks := ReplaceById(tasks, task.id, updatedTask);
        case Failure =>
      }
    }

    /** Open the detail dialog for one task. */
    method HandleViewTask(taskId: int)
      modifies this`selectedTaskId, this`isDetailModalVisible
      ensures selectedTaskId == Some(taskId) && isDetailModalVisible
    {
      selectedTaskId := Some(taskId);
      isDetailModalVisible := true;
    }

    /** Open the edit dialog on one task. */
    method HandleEditTask(task: Task)
      modifies this`taskToEdit, this`isEditModalVisible
      ensures taskToEdit == Some(task) && isEditModalVisible
    {
      taskToEdit := Some(task);
      isEditModalVisible := true;
    }

    /** Take the task the edit form reports: every entry carrying its id
        becomes it, nothing else moves, and the edit dialog closes. */
    method HandleTaskUpdated(updatedTask: Task)
      modifies this`tasks, this`isEditModalVisible
      ensures tasks == ReplaceById(old(tasks), updatedTask.id, updatedTask)
      ensures |tasks| == |old(tasks)| &&
        forall i :: 0 <= i < |tasks| ==>
          tasks[i] == if old(tasks)[i].id == updatedTask.id then updatedTask else old(tasks)[i]
      ensures UniqueIds(old(tasks)) ==> UniqueIds(tasks)
      ensures !isEditModalVisible
    {
      ghost var before := tasks;
      ReplaceByIdAt(tasks, updatedTask.id, updatedTask);
      tasks := ReplaceById(tasks, updatedTask.id, updatedTask);
      isEditModalVisible := false;
      if UniqueIds(before) {
        ReplaceByIdKeepsUnique(before, updatedTask);
      }
    }

    /** Close the detail dialog (its cancel button and its back link). */
    method CloseDetailModal()
      modifies this`isDetailModalVisible
      ensures !isDetailModalVisible
    {
      isDetailModalVisible := false;
    }

    /** Close the add dialog (its cancel button and the form's `onClose`). */
    method CloseAddModal()
      modifies this`isAddModalVisible
      ensures !isAddModalVisible
    {
      isAddModalVisible := false;
    }

    /** Close the edit dialog (its cancel button and the form's `onClose`). */
    method CloseEditModal()
      modifies this`isEditModalVisible
      ensures !isEditModalVisible
    {
      isEditModalVisible := false;
    }
  }
}

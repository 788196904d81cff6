/** The two dialogs through which the task list hosts the task form: the
    add dialog wires `onTaskAdded` to the list's add handler, the edit
    dialog wires `onTaskUpdated` to its update handler, and both wire
    `onClose` to closing their own dialog. The form's callbacks run in the
    order the submit fired them. */
module TaskDialogs {
  import opened Remote
  import opened TaskSeq
  import opened TaskListComponent
  import opened TaskFormComponent

  /** Submit the form shown in the add dialog. A successful create puts
      the server's task at the end of the list and closes the dialog; a
      blank title or a failed create leaves the list and dialog as they were. */
  method SubmitAddDialog(list: TaskList, form: TaskForm, response: Outcome<Task>) returns (sub: Submission)
    requires form.initialTask.None? && form.hasOnTaskAdded
    modifies list`tasks, list`isAddModalVisible, form`submitting
    ensures sub.request.None? <==> AllTrimmable(form.title)
    ensures form.submitting == if AllTrimmable(form.title) then old(form.submitting) else false
    ensures sub.request.Some? ==> sub.request == Some(CreateTask(TaskData(form.title, form.completed)))
    ensures !AllTrimmable(form.title) && response.Success? ==>
              list.tasks == old(list.tasks) + [response.value] && !list.isAddModalVisible
    ensures AllTrimmable(form.title) || response.Failure? ==>
              list.tasks == old(list.tasks) && list.isAddModalVisible == old(list.isAddModalVisible)
  {
    sub := form.HandleSubmit(response);
    if |sub.callbacks| > 0 && sub.callbacks[0].TaskAdded? {
      list.HandleAddTask(sub.callbacks[0].task);
    }
    if Close in sub.callbacks {
      list.CloseAddModal();
    }
  }

  /** Submit the form shown in the edit dialog. A successful update puts
      the server's task in place of every entry carrying its id and closes
      the dialog; a blank title or a failed update changes nothing. */
  method SubmitEditDialog(list: TaskList, form: TaskForm, response: Outcome<Task>) returns (sub: Submission)
    requires form.initialTask.Some? && form.initialTask == list.taskToEdit && form.hasOnTaskUpdated
    modifies list`tasks, list`isEditModalVisible, form`submitting
    ensures sub.request.None? <==> AllTrimmable(form.title)
    ensures form.submitting == if AllTrimmable(form.title) then old(form.submitting) else false
    ensures sub.request.Some? ==>
              sub.request == Some(UpdateTask(form.initialTask.value.id, TaskData(form.title, form.completed)))
    ensures !AllTrimmable(form.title) && response.Success? ==>
              list.tasks == ReplaceById(old(list.tasks), response.value.id, response.value) &&
              !list.isEditModalVisible
    ensures AllTrimmable(form.title) || response.Failure? ==>
              list.tasks == old(list.tasks) && list.isEditModalVisible == old(list.isEditModalVisible)
  {
    sub := form.HandleSubmit(response);
    if |sub.callbacks| > 0 && sub.callbacks[0].TaskUpdated? {
      list.HandleTaskUpdated(sub.callbacks[0].task);
    }
    if Close in sub.callbacks {
      list.CloseEditModal();
    }
  }

  /** A usage example only, modelling no code of its own: a client of the
      contracts above loads an empty list, adds a task, flips its status,
      deletes it, tries to delete it again, and submits a blank title. */
  method Session()
  {
    var list := new TaskList();
    list.FetchTasks(Success([]));
    assert list.tasks == [] && !list.loading && list.error == None;

    var form := new TaskForm(None, true, false);
    form.TitleChanged("Buy milk");
    var milk := Task(1, "Buy milk", false);
    var sub := SubmitAddDialog(list, form, Success(milk));
    assert !AllTrimmable("Buy milk") by { assert !IsTrimmable("Buy milk"[0]); }
    assert sub.request == Some(CreateTask(TaskData("Buy milk", false)));
    assert list.tasks == [milk];

    var done := Task(1, "Buy milk", true);
    var id, payload := list.ToggleTaskStatus(milk, Success(done));
    assert id == 1 && payload == done;
    assert list.tasks == [done];

    var requested := list.HandleDelete(1, true, Success(()));
    assert requested == Some(1) && list.tasks == [];
    requested := list.HandleDelete(1, true, Failure);
    assert list.tasks == [];

    var blank := new TaskForm(None, true, false);
    blank.TitleChanged(" \t ");
    sub := SubmitAddDialog(list, blank, Success(milk));
    assert AllTrimmable(" \t ");
    assert sub.request == None && list.tasks == [];
  }
}

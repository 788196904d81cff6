/** The task form: its field state, the status select, and the submit
    rule that validates the title, issues one create or update request
    and reports the server's answer to the form's owner. */
module TaskFormComponent {
  import opened Remote

  // ---------------------------------------------------------------
  // The title check: `!title.trim()`
  // ---------------------------------------------------------------

  /** The characters ECMAScript's String.prototype.trim strips: the
      WhiteSpace code points (tab, vertical tab, form feed, the byte order
      mark and every space separator) and the LineTerminator code points. */
  predicate IsTrimmable(c: char)
  {
    c == '\t' || c == '\n' || c == '\U{000B}' || c == '\U{000C}' || c == '\r' ||
    c == ' ' || c == '\U{00A0}' || c == '\U{1680}' ||
    ('\U{2000}' <= c <= '\U{200A}') ||
    c == '\U{2028}' || c == '\U{2029}' || c == '\U{202F}' || c == '\U{205F}' ||
    c == '\U{3000}' || c == '\U{FEFF}'
  }

  /** Every character of `s` is one that trim strips. */
  predicate AllTrimmable(s: string)
  {
    forall i :: 0 <= i < |s| ==> IsTrimmable(s[i])
  }

  /** `r` occurs in `s` starting at index `a`. */
  predicate SliceAt(r: string, s: string, a: int)
  {
    0 <= a && a + |r| <= |s| && r == s[a..a + |r|]
  }

  /** `s` without its leading trimmable characters: a suffix of `s`
      that is empty or starts with a character trim keeps. */
  function TrimStart(s: string): (r: string)
    ensures |r| <= |s| && r == s[|s| - |r|..]
    ensures r != [] ==> !IsTrimmable(r[0])
  {
    if s != [] && IsTrimmable(s[0]) then TrimStart(s[1..]) else s
  }

  /** `s` without its trailing trimmable characters: a prefix of `s`
      that is empty or ends with a character trim keeps. */
  function TrimEnd(s: string): (r: string)
    ensures |r| <= |s| && r == s[..|r|]
    ensures r != [] ==> !IsTrimmable(r[|r| - 1])
  {
    if s != [] && IsTrimmable(s[|s| - 1]) then TrimEnd(s[..|s| - 1]) else s
  }

  /** `s.trim()`: a slice of `s` that neither starts nor ends with a
      character trim strips (that only such characters are cut is
      TrimSpec). */
  function Trim(s: string): (r: string)
    ensures |r| <= |s|
    ensures exists a :: SliceAt(r, s, a)
    ensures r != [] ==> !IsTrimmable(r[0]) && !IsTrimmable(r[|r| - 1])
  {
    var front := TrimStart(s);
    var r := TrimEnd(front);
    assert r == s[|s| - |front|..][..|r|] == s[|s| - |front|..|s| - |front| + |r|];
    assert r != [] ==> r[0] == front[0];
    assert SliceAt(r, s, |s| - |front|);
    r
  }

  /** Everything TrimStart cuts is trimmable. */
  lemma {:induction false} TrimStartCuts(s: string)
    ensures AllTrimmable(s[..|s| - |TrimStart(s)|])
  {
    if s != [] && IsTrimmable(s[0]) {
      TrimStartCuts(s[1..]);
      var k := |s| - |TrimStart(s)|;
      assert s[..k] == [s[0]] + s[1..][..k - 1];
    }
  }

  /** Everything TrimEnd cuts is trimmable. */
  lemma {:induction false} TrimEndCuts(s: string)
    ensures AllTrimmable(s[|TrimEnd(s)|..])
  {
    if s != [] && IsTrimmable(s[|s| - 1]) {
      TrimEndCuts(s[..|s| - 1]);
      var k := |TrimEnd(s)|;
      assert s[k..] == s[..|s| - 1][k..] + [s[|s| - 1]];
    }
  }

  /** What trimming keeps is the slice of `s` that starts where the
      leading run of trimmable characters ends. */
  lemma TrimKeepsSlice(s: string)
    ensures SliceAt(TrimEnd(TrimStart(s)), s, |s| - |TrimStart(s)|)
  {
  }

  /** What trimming cuts after the kept slice is trimmable. */
  lemma TrimCutsTail(s: string)
    ensures AllTrimmable(s[|s| - |TrimStart(s)| + |TrimEnd(TrimStart(s))|..])
  {
    var front := TrimStart(s);
    var r := TrimEnd(front);
    var a := |s| - |front|;
    TrimEndCuts(front);
    var cut := front[|r|..];
    var tail := s[a + |r|..];
    assert |tail| == |cut|;
    forall i | 0 <= i < |tail| ensures IsTrimmable(tail[i]) {
      assert tail[i] == s[a + |r| + i];
      assert cut[i] == front[|r| + i];
      assert front[|r| + i] == s[a..][|r| + i] == s[a + |r| + i];
      assert IsTrimmable(cut[i]);
    }
  }

  /** The meaning of `title.trim()`: the result is the slice of the title
      left after cutting trimmable characters, and only those, from both
      ends, and it neither starts nor ends with one. */
  lemma TrimSpec(s: string)
    ensures exists a :: SliceAt(Trim(s), s, a) && AllTrimmable(s[..a]) && AllTrimmable(s[a + |Trim(s)|..])
    ensures Trim(s) != [] ==> !IsTrimmable(Trim(s)[0]) && !IsTrimmable(Trim(s)[|Trim(s)| - 1])
  {
    var a := |s| - |TrimStart(s)|;
    TrimStartCuts(s);
    TrimKeepsSlice(s);
    TrimCutsTail(s);
    assert SliceAt(Trim(s), s, a);
  }

  lemma {:induction false} TrimStartEmpty(s: string)
    ensures TrimStart(s) == [] <==> AllTrimmable(s)
    ensures TrimStart(s) != [] ==> !IsTrimmable(TrimStart(s)[0])
  {
    if s != [] && IsTrimmable(s[0]) {
      TrimStartEmpty(s[1..]);
      assert forall i :: 1 <= i < |s| ==> s[i] == s[1..][i - 1];
    }
  }

  lemma {:induction false} TrimEndEmpty(s: string)
    ensures TrimEnd(s) == [] <==> AllTrimmable(s)
  {
    if s != [] && IsTrimmable(s[|s| - 1]) {
      TrimEndEmpty(s[..|s| - 1]);
      assert forall i :: 0 <= i < |s| - 1 ==> s[i] == s[..|s| - 1][i];
    }
  }

  /** The title is rejected exactly when it is empty or made only of
      characters that trim strips. */
  lemma TrimEmptyIffBlank(s: string)
    ensures Trim(s) == [] <==> AllTrimmable(s)
  {
    TrimStartEmpty(s);
    TrimEndEmpty(TrimStart(s));
    if TrimStart(s) != [] {
      assert !AllTrimmable(TrimStart(s)) by {
        assert !IsTrimmable(TrimStart(s)[0]);
      }
    }
  }

  // ---------------------------------------------------------------
  // The status select
  // ---------------------------------------------------------------

  /** The option value the select shows for a status: React renders
      the boolean `completed` as the string of its value. */
  function StatusOptionValue(completed: bool): string
  {
    if completed then "true" else "false"
  }

  /** The select's change handler: `e.target.value === 'true'`. */
  function ParseStatus(value: string): (completed: bool)
    ensures completed <==> value == StatusOptionValue(true)
  {
    value == "true"
  }

  /** Selecting the option shown for a status yields that status back,
      and any other string (including "TRUE" or " true") means false. */
  lemma StatusRoundTrip(completed: bool, value: string)
    ensures ParseStatus(StatusOptionValue(completed)) == completed
    ensures value != StatusOptionValue(true) ==> !ParseStatus(value)
  {
  }

  // ---------------------------------------------------------------
  // What a submit does
  // ---------------------------------------------------------------

  /** The one service request a submit can issue. */
  datatype Request =
    | CreateTask(data: TaskData)
    | UpdateTask(id: int, data: TaskData)

  /** The owner's callbacks a submit can invoke, in order of invocation. */
  datatype Callback =
    | TaskAdded(task: Task)
    | TaskUpdated(task: Task)
    | Close

  /** What one submit did: the request it issued (None when it returned
      early), the callbacks it fired, and whether it set `submitting`. */
  datatype Submission = Submission(request: Option<Request>, callbacks: seq<Callback>, raisedSubmitting: bool)

  class TaskForm {
    var title: string
    var completed: bool
    var submitting: bool
    /** The task being edited, or None for an add form. */
    var initialTask: Option<Task>
    /** Whether the owner passed `onTaskAdded` / `onTaskUpdated`. */
    const hasOnTaskAdded: bool
    const hasOnTaskUpdated: bool

    /** Initial field state: copied from the task being edited, else empty
        and not completed. */
    constructor (initialTask: Option<Task>, hasOnTaskAdded: bool, hasOnTaskUpdated: bool)
      ensures this.initialTask == initialTask
      ensures this.hasOnTaskAdded == hasOnTaskAdded && this.hasOnTaskUpdated == hasOnTaskUpdated
      ensures initialTask.Some? ==> title == initialTask.value.title && completed == initialTask.value.completed
      ensures initialTask.None? ==> title == "" && !completed
      ensures !submitting
    {
      this.initialTask := initialTask;
      this.hasOnTaskAdded := hasOnTaskAdded;
      this.hasOnTaskUpdated := hasOnTaskUpdated;
      title := if initialTask.Some? then initialTask.value.title else "";
      completed := if initialTask.Some? then initialTask.value.completed else false;
      submitting := false;
    }

    /** The owner passes a new `initialTask`: a present task reloads both
        fields, an absent one leaves what was typed. */
    method InitialTaskChanged(task: Option<Task>)
      modifies this`initialTask, this`title, this`completed
      ensures initialTask == task
      ensures task.Some? ==> title == task.value.title && completed == task.value.completed
      ensures task.None? ==> title == old(title) && completed == old(completed)
    {
      initialTask := task;
      if task.Some? {
        title := task.value.title;
        completed := task.value.completed;
      }
    }

    /** The title input's change handler. */
    method TitleChanged(value: string)
      modifies this`title
      ensures title == value
    {
      title := value;
    }

    /** The status select's change handler. */
    method StatusChanged(value: string)
      modifies this`completed
      ensures completed <==> value == "true"
    {
      completed := ParseStatus(value);
    }

    /** Submit the form, given how the one service call settles.
        A title that trims to nothing returns at once. Otherwise the form
        sets `submitting`, sends the fields as typed (the title untrimmed)
        to `updateTask` when editing and to `createTask` when adding, and
        on success hands the server's task to the matching callback (when
        the owner gave one) and then closes; on failure no callback fires.
        Either way `submitting` is false again at the end. */
    method HandleSubmit(response: Outcome<Task>) returns (sub: Submission)
      modifies this`submitting
      ensures sub.request.None? <==> AllTrimmable(title)
      ensures AllTrimmable(title) ==>
                sub.callbacks == [] && !sub.raisedSubmitting && submitting == old(submitting)
      ensures !AllTrimmable(title) ==> sub.raisedSubmitting && !submitting
      ensures !AllTrimmable(title) && initialTask.Some? ==>
                sub.request == Some(UpdateTask(initialTask.value.id, TaskData(title, completed)))
      ensures !AllTrimmable(title) && initialTask.None? ==>
                sub.request == Some(CreateTask(TaskData(title, completed)))
      ensures Close in sub.callbacks <==> !AllTrimmable(title) && response.Success?
      ensures response.Failure? ==> sub.callbacks == []
      ensures !AllTrimmable(title) && response.Success? ==>
                sub.callbacks ==
                  (if initialTask.Some? && hasOnTaskUpdated then [TaskUpdated(response.value)]
                   else if initialTask.None? && hasOnTaskAdded then [TaskAdded(response.value)]
                   else []) + [Close]
    {
      TrimEmptyIffBlank(title);
      if Trim(title) == [] {
        sub := Submission(None, [], false);
        return;
      }
      submitting := true;
      var request: Request;
      if initialTask.Some? {
        request := UpdateTask(initialTask.value.id, TaskData(title, completed));
      } else {
        request := CreateTask(TaskData(title, completed));
      }
      var fired: seq<Callback> := [];
      match response {
        case Success(task) =>
          if initialTask.Some? {
            if hasOnTaskUpdated {
              fired := fired + [TaskUpdated(task)];
            }
          } else {
            if hasOnTaskAdded {
              fired := fired + [TaskAdded(task)];
            }
          }
          fired := fired + [Close];
        case Failure =>
      }
      submitting := false;
      sub := Submission(Some(request), fired, true);
    }
  }
}

/**
 * The `App` component's task-list state and its six handlers. Each React
 * state hook is a field, each setter call an assignment to that field; the
 * list rewrites are the pure functions of module Tasks.
 */
module TodoApp {
  import opened Wrappers
  import opened Text
  import opened Tasks

  class App {
    /** `task`: the text currently in the input box. */
    var input: string
    /** `tasks`: the list shown on screen. */
    var tasks: seq<Task>
    /** `isEditClicked`: whether the screen is in edit mode. */
    var editMode: bool
    /** `editTask`: the copy of the task taken when an edit began (`undefined` at first). */
    var editSlot: Option<Task>

    /** The list invariant the handlers keep: ids are unique. */
    ghost predicate Valid()
      reads this
    {
      UniqueIds(tasks)
    }

    /** The initial state of the four hooks. */
    constructor ()
      ensures input == "" && tasks == [] && !editMode && editSlot == None
      ensures Valid()
    {
      input, tasks, editMode, editSlot := "", [], false, None;
    }

    /** `onChangeText={(text) => setTask(text)}`: the user types into the input box. */
    method ChangeText(text: string)
      modifies this
      ensures input == text
      ensures tasks == old(tasks) && editMode == old(editMode) && editSlot == old(editSlot)
      ensures old(Valid()) ==> Valid() && NoneReopened(old(tasks), tasks)
    {
      if UniqueIds(tasks) {
        SameNoneReopened(tasks);
      }
      input := text;
    }

    /**
     * `addTask`. `id` is the string the clock produced. When the input has
     * text, a pending task holding the raw input is appended and the input is
     * cleared; otherwise nothing changes. A fresh id keeps the invariant.
     */
    method AddTask(id: string)
      modifies this
      ensures HasText(old(input)) ==>
        tasks == old(tasks) + [Task(id, old(input), false)] && input == ""
      ensures !HasText(old(input)) ==> tasks == old(tasks) && input == old(input)
      ensures editMode == old(editMode) && editSlot == old(editSlot)
      ensures old(Valid()) && id !in Ids(old(tasks)) ==> Valid() && NoneReopened(old(tasks), tasks)
    {
      if HasText(input) {
        var newTask := Task(id, input, false);
        if UniqueIds(tasks) && id !in Ids(tasks) {
          AppendFreshSafe(tasks, newTask);
        }
        tasks := tasks + [newTask];
        input := "";
      } else if UniqueIds(tasks) {
        SameNoneReopened(tasks);
      }
    }

    /** `deleteTask(id)`: keeps exactly the tasks with another id, in order. */
    method DeleteTask(id: string)
      modifies this
      ensures tasks == WithoutId(old(tasks), id)
      ensures input == old(input) && editMode == old(editMode) && editSlot == old(editSlot)
      ensures old(Valid()) ==> Valid() && NoneReopened(old(tasks), tasks)
    {
      if UniqueIds(tasks) {
        FilterUnique(tasks, (t: Task) => t.id != id);
        FilterNoneReopened(tasks, (t: Task) => t.id != id);
      }
      tasks := WithoutId(tasks, id);
    }

    /** `markAsCompleted(id)`: the tasks with this id become completed. */
    method MarkAsCompleted(id: string)
      modifies this
      ensures tasks == Completed(old(tasks), id)
      ensures input == old(input) && editMode == old(editMode) && editSlot == old(editSlot)
      ensures old(Valid()) ==> Valid() && NoneReopened(old(tasks), tasks)
    {
      if UniqueIds(tasks) {
        CompleteSafe(tasks, id);
      }
      tasks := Completed(tasks, id);
    }

    /**
     * `editTaskFun(id)`: with a task of this id, the first one is copied into
     * the edit slot, its text into the input, and edit mode begins; without
     * one, the "Task doesn't exist" alert is raised (`notified`) and nothing
     * changes.
     */
    method EditTask(id: string) returns (notified: bool)
      modifies this
      ensures tasks == old(tasks)
      ensures notified <==> id !in Ids(tasks)
      ensures !notified ==>
        editSlot == Find(tasks, id) && editSlot.Some? && input == editSlot.value.text && editMode
      ensures notified ==>
        input == old(input) && editMode == old(editMode) && editSlot == old(editSlot)
      ensures old(Valid()) ==> Valid() && NoneReopened(old(tasks), tasks)
    {
      if UniqueIds(tasks) {
        SameNoneReopened(tasks);
      }
      var found := Find(tasks, id);
      if found.Some? {
        editSlot := found;
        input := found.value.text;
        editMode := true;
        notified := false;
      } else {
        notified := true;
      }
    }

    /**
     * `editDone`: with a task in the edit slot and text in the input, every
     * task with the slot's id takes the raw input as its text and the input
     * is cleared; with no text the edit is dropped; with an empty slot the
     * alert is raised. Edit mode always ends, and the slot is never cleared.
     */
    method EditDone() returns (notified: bool)
      modifies this
      ensures notified <==> old(editSlot).None?
      ensures !editMode && editSlot == old(editSlot)
      ensures old(editSlot).Some? && HasText(old(input)) ==>
        tasks == Retexted(old(tasks), old(editSlot).value.id, old(input)) && input == ""
      ensures !(old(editSlot).Some? && HasText(old(input))) ==>
        tasks == old(tasks) && input == old(input)
      ensures old(Valid()) ==> Valid() && NoneReopened(old(tasks), tasks)
    {
      notified := false;
      if editSlot.Some? {
        if HasText(input) {
          if UniqueIds(tasks) {
            RetextSafe(tasks, editSlot.value.id, input);
          }
          tasks := Retexted(tasks, editSlot.value.id, input);
          input := "";
        } else if UniqueIds(tasks) {
          SameNoneReopened(tasks);
        }
      } else {
        notified := true;
        if UniqueIds(tasks) {
          SameNoneReopened(tasks);
        }
      }
      editMode := false;
    }

    /** `clearCompletedTasks`: keeps exactly the pending tasks, in order. */
    method ClearCompletedTasks()
      modifies this
      ensures tasks == Pending(old(tasks))
      ensures input == old(input) && editMode == old(editMode) && editSlot == old(editSlot)
      ensures old(Valid()) ==> Valid() && NoneReopened(old(tasks), tasks)
    {
      if UniqueIds(tasks) {
        FilterUnique(tasks, IsPending);
        FilterNoneReopened(tasks, IsPending);
      }
      tasks := Pending(tasks);
    }
  }

  /** A handler that leaves the list as it is reopens nothing, given unique ids. */
  lemma SameNoneReopened(ts: seq<Task>)
    requires UniqueIds(ts)
    ensures NoneReopened(ts, ts)
  {
  }

  /**
   * A client run of the edit flow on one task: begin the edit, type new
   * text, commit. The text changes, the id and status do not, edit mode ends,
   * and the slot still holds the copy taken when the edit began.
   */
  method EditFlow()
  {
    var app := new App();
    app.ChangeText("Buy milk");
    HasTextIffNotBlank("Buy milk");
    assert !IsWhitespace("Buy milk"[0]);
    app.AddTask("1");
    assert app.tasks == [Task("1", "Buy milk", false)];
    assert Ids(app.tasks) == {"1"};

    var missing := app.EditTask("missing");
    assert missing && !app.editMode && app.editSlot == None;

    var notified := app.EditTask("1");
    assert !notified && app.input == "Buy milk" && app.editMode;
    assert app.editSlot == Some(Task("1", "Buy milk", false));

    app.ChangeText("Buy bread");
    HasTextIffNotBlank("Buy bread");
    assert !IsWhitespace("Buy bread"[0]);
    notified := app.EditDone();
    RetextSpec([Task("1", "Buy milk", false)], "1", "Buy bread");
    assert !notified && !app.editMode && app.input == "";
    assert app.tasks == [Task("1", "Buy bread", false)];
    assert app.editSlot == Some(Task("1", "Buy milk", false));
  }

  /**
   * A client run of clearing on a list holding one completed and one pending
   * task: only the pending one is left, and a second clear changes nothing.
   */
  method ClearFlow(app: App)
    requires app.tasks == [Task("1", "a", true), Task("2", "b", false)]
    modifies app
  {
    var before := app.tasks;
    assert before[1..] == [Task("2", "b", false)] && before[1..][1..] == [];
    assert Filter(before[1..], IsPending) == [Task("2", "b", false)];
    assert Pending(before) == [Task("2", "b", false)];
    app.ClearCompletedTasks();
    assert app.tasks == [Task("2", "b", false)];
    ClearIdempotent(before);
    app.ClearCompletedTasks();
    assert app.tasks == [Task("2", "b", false)];
  }
}

/**
 The page controller of the to-do list. The rendered task list, the task
 input, the title, the delete-selected button and the browser's local
 storage are fields of one object; each event handler is a method.
 */
module TodoApp {
  import opened WordLimit
  import opened Tasks
  import opened Persistence

  /** What activating the delete-selected button did. */
  datatype DeleteOutcome =
    | NothingChecked      // no box was checked: a notice was shown
    | Declined            // the user declined the confirmation
    | Deleted(count: nat) // this many checked entries were removed

  class TodoList {
    /** The rendered task entries, in document order. */
    var tasks: seq<TaskItem>
    /** The current value of the task input. */
    var input: string
    /** The text of the editable list title. */
    var title: string
    /** The browser's local storage. */
    var storage: Storage
    /** Whether the delete-selected button is displayed. */
    var deleteVisible: bool
    /** How many vibration/shake cues have been given. */
    var alerts: nat

    /** Between events: every entry is struck through exactly when it is
        checked, the delete button is shown exactly when some entry is
        checked, and storage holds exactly the rendered list. */
    ghost predicate Valid()
      reads this
    {
      && Consistent(tasks)
      && deleteVisible == AnyChecked(tasks)
      && StoredTasks(storage) == Snapshot(tasks)
    }

    /** Page load over the given storage: the title, then the tasks. */
    constructor (stored: Storage)
      ensures Valid()
      ensures storage == stored && input == "" && alerts == 0
      ensures title == LoadedTitle(stored)
      ensures tasks == Render(StoredTasks(stored))
    {
      var loaded := Render(StoredTasks(stored));
      SnapshotRender(StoredTasks(stored));
      assert [] + loaded == loaded;
      tasks, input, title, storage, deleteVisible, alerts := [], "", "", stored, false, 0;
      new;
      LoadTitle();
      LoadTasks();
      assert tasks == loaded;
    }

    /** The vibration and shake cue. */
    method TriggerAlert()
      modifies this`alerts
      ensures alerts == old(alerts) + 1
    {
      alerts := alerts + 1;
    }

    /** The live guard run on every change of the input. */
    method EnforceWordLimit()
      modifies this`input, this`alerts
      ensures input == LimitWords(old(input))
      ensures alerts == old(alerts) + if |Words(old(input))| > MAX_WORDS then 1 else 0
    {
      var words := Words(input);
      if |words| > MAX_WORDS {
        ghost var typed := input;
        TriggerAlert();
        assert input == typed;
        input := Join(words[..MAX_WORDS]);
        assert input == LimitWords(typed);
      }
    }

    /** The user changes the input to `typed`; the guard then runs. */
    method OnInput(typed: string)
      modifies this`input, this`alerts
      ensures input == LimitWords(typed) && |Words(input)| <= MAX_WORDS
      ensures alerts == old(alerts) + if |Words(typed)| > MAX_WORDS then 1 else 0
    {
      input := typed;
      EnforceWordLimit();
    }

    /** The user types into the editable title element. This is the
        browser's own editing, not a function of the script; only the shown
        text changes, and nothing is stored until the title is saved. */
    method EditTitle(text: string)
      requires Valid()
      modifies this`title
      ensures Valid() && title == text
      ensures storage == old(storage) && tasks == old(tasks)
    {
      title := text;
    }

    /** Stores the trimmed title; the shown title itself is not trimmed. */
    method SaveTitle()
      requires Valid()
      modifies this`storage
      ensures Valid()
      ensures storage == old(storage)[TITLE_STORAGE_KEY := Text(Trim(title))]
    {
      StoreTitle(Trim(title));
    }

    /** Writes `value` under the title key; the stored tasks are untouched. */
    method StoreTitle(value: string)
      requires Valid()
      modifies this`storage
      ensures Valid()
      ensures storage == old(storage)[TITLE_STORAGE_KEY := Text(value)]
    {
      SavesIndependent(storage, Text(value));
      storage := storage[TITLE_STORAGE_KEY := Text(value)];
    }

    /** Enter while editing the title commits it like losing focus does. */
    method OnTitleKeyPress(key: string)
      requires Valid()
      modifies this`storage
      ensures Valid()
      ensures storage == if key == "Enter" then old(storage)[TITLE_STORAGE_KEY := Text(Trim(title))] else old(storage)
    {
      if key == "Enter" {
        SaveTitle();
      }
    }

    /** Shows the stored title, or the empty string when none is stored. */
    method LoadTitle()
      modifies this`title
      ensures title == LoadedTitle(storage)
    {
      if TITLE_STORAGE_KEY in storage && storage[TITLE_STORAGE_KEY].Text? && storage[TITLE_STORAGE_KEY].value != "" {
        title := storage[TITLE_STORAGE_KEY].value;
      } else {
        title := "";
      }
    }

    /** Writes the records of the rendered entries, in order, under the
        tasks key, then refreshes the delete button. */
    method SaveTasks()
      modifies this`storage, this`deleteVisible
      ensures storage == old(storage)[TASK_STORAGE_KEY := TaskList(Snapshot(tasks))]
      ensures deleteVisible == AnyChecked(tasks)
    {
      var records := CollectRecords();
      storage := storage[TASK_STORAGE_KEY := TaskList(records)];
      UpdateDeleteButtonVisibility();
    }

    /** The records of the rendered entries, one per entry, in order. */
    method CollectRecords() returns (records: seq<Record>)
      ensures records == Snapshot(tasks)
    {
      records := [];
      var i := 0;
      while i < |tasks|
        invariant 0 <= i <= |tasks|
        invariant records == Snapshot(tasks[..i])
      {
        SnapshotAppend(tasks[..i], tasks[i]);
        assert tasks[..i + 1] == tasks[..i] + [tasks[i]];
        records := records + [Record(tasks[i].text, tasks[i].checked)];
        i := i + 1;
      }
      assert tasks[..i] == tasks;
    }

    /** Appends an entry for each stored record, in order, then refreshes
        the delete button. */
    method LoadTasks()
      requires Consistent(tasks)
      modifies this`tasks, this`deleteVisible
      ensures tasks == old(tasks) + Render(StoredTasks(storage))
      ensures Consistent(tasks)
      ensures deleteVisible == AnyChecked(tasks)
    {
      if TASK_STORAGE_KEY in storage && storage[TASK_STORAGE_KEY].TaskList? {
        RenderRecords(storage[TASK_STORAGE_KEY].records);
      }
      UpdateDeleteButtonVisibility();
    }

    /** Creates one entry per record, in order, after the existing ones. */
    method RenderRecords(records: seq<Record>)
      requires Consistent(tasks)
      modifies this`tasks
      ensures tasks == old(tasks) + Render(records)
      ensures Consistent(tasks)
    {
      ghost var start := tasks;
      var i := 0;
      while i < |records|
        invariant 0 <= i <= |records|
        invariant tasks == start + Render(records[..i])
      {
        var r := records[i];
        RenderAppend(records[..i], r);
        assert records[..i + 1] == records[..i] + [r];
        CreateTaskElement(r.text, r.checked);
        Assoc(start, Render(records[..i]), [TaskItem(r.text, r.checked, r.checked)]);
        i := i + 1;
      }
      assert records[..i] == records;
      ConsistentConcat(start, Render(records));
    }

    /** Appends one entry, struck through exactly when it is checked. */
    method CreateTaskElement(text: string, isChecked: bool)
      modifies this`tasks
      ensures tasks == old(tasks) + [TaskItem(text, isChecked, isChecked)]
    {
      tasks := tasks + [TaskItem(text, isChecked, isChecked)];
    }

    /** Adds the trimmed input as an unchecked task at the end, unless it is
        empty or the list already holds MAX_TASKS tasks; in those cases only
        the alert cue is given. */
    method AddTask()
      requires Valid()
      modifies this`tasks, this`input, this`storage, this`deleteVisible, this`alerts
      ensures Valid()
      ensures Trim(old(input)) == "" || |old(tasks)| >= MAX_TASKS ==>
        && tasks == old(tasks) && storage == old(storage) && input == old(input)
        && alerts == old(alerts) + 1
      ensures Trim(old(input)) != "" && |old(tasks)| < MAX_TASKS ==>
        && tasks == old(tasks) + [TaskItem(Trim(old(input)), false, false)]
        && input == "" && alerts == old(alerts)
        && storage == old(storage)[TASK_STORAGE_KEY := TaskList(Snapshot(tasks))]
      ensures |old(tasks)| <= MAX_TASKS ==> |tasks| <= MAX_TASKS
    {
      var taskText := Trim(input);
      if taskText == "" || |tasks| >= MAX_TASKS {
        TriggerAlert();
      } else {
        AppendTask(taskText);
      }
    }

    /** The accepted branch of AddTask: append an unchecked entry, clear the
        input, save the list. */
    method AppendTask(text: string)
      requires Valid()
      modifies this`tasks, this`input, this`storage, this`deleteVisible
      ensures Valid()
      ensures tasks == old(tasks) + [TaskItem(text, false, false)]
      ensures input == ""
      ensures storage == old(storage)[TASK_STORAGE_KEY := TaskList(Snapshot(tasks))]
    {
      CreateTaskElement(text, false);
      input := "";
      SaveTasks();
    }

    /** The strikethrough of entry `i` follows its checkbox. */
    method ToggleStrikethrough(i: nat)
      requires i < |tasks|
      modifies this`tasks, this`deleteVisible
      ensures tasks == old(tasks)[i := old(tasks)[i].(struck := old(tasks)[i].checked)]
      ensures deleteVisible == AnyChecked(tasks)
    {
      tasks := tasks[i := tasks[i].(struck := tasks[i].checked)];
      UpdateDeleteButtonVisibility();
    }

    /** The user clicks the checkbox of entry `i`: the box flips, the
        strikethrough follows it and the list is saved. */
    method OnCheckboxChange(i: nat)
      requires Valid() && i < |tasks|
      modifies this`tasks, this`storage, this`deleteVisible
      ensures Valid()
      ensures tasks == old(tasks)[i := TaskItem(old(tasks)[i].text, !old(tasks)[i].checked, !old(tasks)[i].checked)]
      ensures storage == old(storage)[TASK_STORAGE_KEY := TaskList(Snapshot(tasks))]
    {
      tasks := tasks[i := tasks[i].(checked := !tasks[i].checked)];
      ToggleStrikethrough(i);
      SaveTasks();
    }

    /** Shows the delete button exactly when some box is checked. */
    method UpdateDeleteButtonVisibility()
      modifies this`deleteVisible
      ensures deleteVisible == AnyChecked(tasks)
    {
      CountCheckedPositive(tasks);
      deleteVisible := CountChecked(tasks) > 0;
    }

    /** The delete-selected button. With no box checked only a notice is
        shown; otherwise, if the user confirms, every checked entry is
        removed and the list is saved, and if not, nothing changes. */
    method DeleteSelected(confirmed: bool) returns (outcome: DeleteOutcome)
      requires Valid()
      modifies this`tasks, this`storage, this`deleteVisible
      ensures Valid()
      ensures outcome ==
        if !AnyChecked(old(tasks)) then NothingChecked
        else if !confirmed then Declined
        else Deleted(CountChecked(old(tasks)))
      ensures outcome.Deleted? ==>
        && tasks == RemoveChecked(old(tasks))
        && storage == old(storage)[TASK_STORAGE_KEY := TaskList(Snapshot(tasks))]
        && !deleteVisible
      ensures !outcome.Deleted? ==> tasks == old(tasks) && storage == old(storage)
    {
      var checkedCount := CountChecked(tasks);
      CountCheckedPositive(tasks);
      if checkedCount == 0 {
        return NothingChecked;
      }
      if !confirmed {
        return Declined;
      }
      RemoveCheckedEntries();
      SaveTasks();
      outcome := Deleted(checkedCount);
    }

    /** Removes every checked entry from the list, one at a time, keeping
        the others in order. */
    method RemoveCheckedEntries()
      modifies this`tasks
      ensures tasks == RemoveChecked(old(tasks))
    {
      ghost var orig := tasks;
      ghost var j := 0;
      var i := 0;
      while i < |tasks|
        invariant 0 <= j <= |orig|
        invariant tasks == RemoveChecked(orig[..j]) + orig[j..]
        invariant i == |RemoveChecked(orig[..j])|
        decreases |tasks| - i
      {
        RemoveStep(orig, j, tasks, i);
        if tasks[i].checked {
          tasks := tasks[..i] + tasks[i + 1..];
        } else {
          i := i + 1;
        }
        j := j + 1;
      }
      assert orig[..j] == orig;
    }

    /** Reloading the page over the same storage shows the same tasks. */
    method Reload() returns (page: TodoList)
      requires Valid()
      ensures page.Valid()
      ensures page.tasks == tasks && page.storage == storage
      ensures page.title == LoadedTitle(storage) && page.input == ""
    {
      page := new TodoList(storage);
      RenderSnapshot(tasks);
    }
  }

  /** One step of the removal loop of DeleteSelected: the entry at the
      cursor is the next original entry; removing it when checked, or
      stepping past it when not, extends the processed prefix by one. */
  lemma RemoveStep(orig: seq<TaskItem>, j: nat, tasks: seq<TaskItem>, i: nat)
    requires j <= |orig|
    requires tasks == RemoveChecked(orig[..j]) + orig[j..]
    requires i == |RemoveChecked(orig[..j])|
    requires i < |tasks|
    ensures j < |orig| && tasks[i] == orig[j]
    ensures orig[j].checked ==>
      tasks[..i] + tasks[i + 1..] == RemoveChecked(orig[..j + 1]) + orig[j + 1..] && i == |RemoveChecked(orig[..j + 1])|
    ensures !orig[j].checked ==>
      tasks == RemoveChecked(orig[..j + 1]) + orig[j + 1..] && i + 1 == |RemoveChecked(orig[..j + 1])|
  {
    var done := RemoveChecked(orig[..j]);
    var x := orig[j];
    var rest := orig[j + 1..];
    assert tasks == done + [x] + rest by {
      assert orig[j..] == [x] + rest;
      Assoc(done, [x], rest);
    }
    assert RemoveChecked(orig[..j + 1]) == done + RemoveChecked([x]) by {
      assert orig[..j + 1] == orig[..j] + [x];
      RemoveCheckedConcat(orig[..j], [x]);
    }
    if x.checked {
      assert RemoveChecked([x]) == [];
      assert done + [] == done;
      assert tasks[..i] == done && tasks[i + 1..] == rest;
    } else {
      assert RemoveChecked([x]) == [x];
    }
  }
}

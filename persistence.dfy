/**
 The browser's local storage as a map from key to stored value, the two keys
 the list uses, and what loading reads back from it.
 */
module Persistence {
  import opened WordLimit
  import opened Tasks

  const TASK_STORAGE_KEY: string := "todoListTasks"
  const TITLE_STORAGE_KEY: string := "todoListTitle"

  /** A stored value: the list of task records written under the tasks key,
      or a plain string written under the title key. */
  datatype Stored = TaskList(records: seq<Record>) | Text(value: string)

  type Storage = map<string, Stored>

  /** The records `loadTasks` finds: those stored under the tasks key, or
      none when the key is absent. */
  function StoredTasks(st: Storage): (rs: seq<Record>)
    ensures TASK_STORAGE_KEY !in st ==> rs == []
    ensures TASK_STORAGE_KEY in st && st[TASK_STORAGE_KEY].TaskList? ==> rs == st[TASK_STORAGE_KEY].records
    ensures TASK_STORAGE_KEY in st && !st[TASK_STORAGE_KEY].TaskList? ==> rs == []
    ensures rs != [] ==> st[TASK_STORAGE_KEY] == TaskList(rs)
  {
    if TASK_STORAGE_KEY in st && st[TASK_STORAGE_KEY].TaskList? then st[TASK_STORAGE_KEY].records else []
  }

  /** The title `loadTitle` shows: the stored title when it is a non-empty
      string, and otherwise the empty string (there is no default title). */
  function LoadedTitle(st: Storage): (t: string)
    ensures t == "" || (TITLE_STORAGE_KEY in st && st[TITLE_STORAGE_KEY] == Text(t))
    ensures TITLE_STORAGE_KEY in st && st[TITLE_STORAGE_KEY].Text? ==> t == st[TITLE_STORAGE_KEY].value
    ensures TITLE_STORAGE_KEY !in st ==> t == ""
  {
    if TITLE_STORAGE_KEY in st && st[TITLE_STORAGE_KEY].Text? && st[TITLE_STORAGE_KEY].value != "" then
      st[TITLE_STORAGE_KEY].value
    else ""
  }

  /** The two keys are different, so writing one never disturbs the other. */
  lemma KeysDiffer()
    ensures TASK_STORAGE_KEY != TITLE_STORAGE_KEY
  {
    assert TASK_STORAGE_KEY[9] != TITLE_STORAGE_KEY[9];
  }

  /** Loading after saving gives back the saved records, whatever else was
      stored; rendering them reproduces a consistent list exactly. */
  lemma TasksRoundTrip(st: Storage, items: seq<TaskItem>)
    ensures StoredTasks(st[TASK_STORAGE_KEY := TaskList(Snapshot(items))]) == Snapshot(items)
    ensures Consistent(items) ==> Render(StoredTasks(st[TASK_STORAGE_KEY := TaskList(Snapshot(items))])) == items
  {
    if Consistent(items) {
      RenderSnapshot(items);
    }
  }

  /** Loading the title after saving it gives back the trimmed title. */
  lemma TitleRoundTrip(st: Storage, title: string)
    ensures LoadedTitle(st[TITLE_STORAGE_KEY := Text(Trim(title))]) == Trim(title)
  {
  }

  /** Saving the title leaves the stored tasks alone, and saving the tasks
      leaves the stored title alone. */
  lemma SavesIndependent(st: Storage, v: Stored)
    ensures StoredTasks(st[TITLE_STORAGE_KEY := v]) == StoredTasks(st)
    ensures LoadedTitle(st[TASK_STORAGE_KEY := v]) == LoadedTitle(st)
  {
    KeysDiffer();
  }
}

# To-do list: a verified model of the page controller

This project models the script behind a browser to-do list page in Dafny.
The page shows an editable title, a text input, an add button and a list of tasks.
Each task has a checkbox, and a "delete selected" button removes the checked tasks.
The list and the title are kept in the browser's local storage.

The model has four modules:

- `WordLimit` (`word_limit.dfy`) is the live input guard, as pure functions.
  It covers trimming, splitting on runs of white space, dropping empty tokens and
  keeping only the first five words. White space is the exact character set that
  JavaScript's `\s` and `trim` use. A `Layout` describes any text that is not all
  white space as words separated by white-space runs, with optional white space
  before and after. The lemmas about it show that the words of every input are
  exactly its runs of non-space characters, in order.
- `Tasks` (`tasks.dfy`) holds the task record `{text, checked}` and the rendered
  entry, which also records whether the text is struck through. It also holds the
  functions that collect records from entries and render entries from records, the
  count of checked boxes, and the removal of checked entries.
- `Persistence` (`persistence.dfy`) is local storage as a map from key to value.
  It holds the two storage keys and what loading reads back.
- `TodoApp` (`todo_app.dfy`) has the class `TodoList`. Its fields are the rendered
  list, the input value, the title, the storage map, whether the delete button is
  shown, and a counter of vibration/shake cues. Each event handler is a method.
  Every handler keeps the invariant `Valid()`:
  - each entry is struck through exactly when it is checked;
  - the delete button is shown exactly when some entry is checked;
  - storage holds exactly the records of the rendered list.

The `confirm()` dialog is a boolean parameter of `DeleteSelected`. The "no tasks
selected" `alert()` becomes the outcome `NothingChecked`. The vibration/shake cue
is counted in `alerts`.

On three points the model follows the code where a reader might expect otherwise:

- `loadTitle` has no default title. An absent or empty stored title shows as the
  empty string (index.js:61).
- `addTask` does not reject text with more than five words. The limit comes only
  from the live guard, which truncates the input (index.js:141-143).
  `GuardedTaskWithinLimit` proves that this is enough.
- The guard does not move the cursor.

## Model

| member | source | states |
|---|---|---|
| `WordLimit.Trim` | Assets/Styles/js/index.js:31 | the trimmed text is a slice of the input with only white space before and after it, and has no white space at either end; text already without it is unchanged; it is empty exactly when the input is all white space |
| `WordLimit.TrimPadded` | Assets/Styles/js/index.js:31 | trimming removes exactly the white space around a text, whatever white space that is |
| `WordLimit.SplitRuns` | Assets/Styles/js/index.js:33 | `split(/\s+/)` always yields at least one piece, and no piece contains white space |
| `WordLimit.SplitRunsAllSpace` | Assets/Styles/js/index.js:33 | splitting white space alone gives one empty piece for the empty string and two empty pieces otherwise |
| `WordLimit.SplitRunsOfSpaced` | Assets/Styles/js/index.js:33 | splitting words separated by any non-empty white-space runs, with optional white space behind, gives the words back in order, plus one empty piece when there is trailing white space |
| `WordLimit.SplitRunsOfLayout` | Assets/Styles/js/index.js:33 | for any text that is not all white space, `split(/\s+/)` gives its words in order, with one empty piece in front when it starts with white space and one behind when it ends with white space |
| `WordLimit.NonEmpty` | Assets/Styles/js/index.js:33 | the filter drops every empty token and keeps every copy of every non-empty token; it changes nothing when all tokens are non-empty |
| `WordLimit.NonEmptyConcat` | Assets/Styles/js/index.js:33 | the filter keeps the order: what survives of a concatenation is what survives of each part, in order |
| `WordLimit.Words` | Assets/Styles/js/index.js:31-33 | every word is a non-empty run without white space; there are no words exactly when the input is all white space |
| `WordLimit.WordsOfLayout` | Assets/Styles/js/index.js:31-33 | the words of a text made of words separated by any non-empty white-space runs, with any white space before and after, are exactly those words, in order |
| `WordLimit.LayoutOf` | Assets/Styles/js/index.js:31-33 | every text that is not all white space is made of words separated by non-empty white-space runs, with white space before and after |
| `WordLimit.WordsAreRuns` | Assets/Styles/js/index.js:31-33 | for every input, the words are exactly its runs of non-space characters, in order: none for an all-white-space input, otherwise the words of its layout |
| `WordLimit.Join` | Assets/Styles/js/index.js:40 | joining words with single spaces gives a non-empty string with no white space at either end |
| `WordLimit.LimitWords` | Assets/Styles/js/index.js:30-45 | after the guard the input has at most 5 words, and they are the first 5 words of the original, in order; an input of 5 or fewer words is left exactly as it was |
| `WordLimit.SplitRunsOfJoin` | Assets/Styles/js/index.js:33-40 | splitting words joined by single spaces gives back exactly those words |
| `WordLimit.WordsOfJoin` | Assets/Styles/js/index.js:31-40 | the words of the truncated value are exactly the words that were joined |
| `WordLimit.LimitWordsIdempotent` | Assets/Styles/js/index.js:35-44 | running the guard twice gives the same value as running it once |
| `WordLimit.WordsOfTrim` | Assets/Styles/js/index.js:127 | trimming the input does not change its words |
| `WordLimit.GuardedTaskWithinLimit` | Assets/Styles/js/index.js:141-144 | the trimmed text `addTask` takes from a guarded input has at most 5 words |
| `WordLimit.TrimEmptyIffNoWords` | Assets/Styles/js/index.js:127-133 | the empty-input check on the trimmed text holds exactly when the input has no words |
| `Tasks.Snapshot` | Assets/Styles/js/index.js:75-82 | `saveTasks` collects one record per entry, in order, with that entry's text and checkbox state |
| `Tasks.Render` | Assets/Styles/js/index.js:91-93 | loading creates one entry per record, in order, with the record's text and checkbox, struck through exactly when checked |
| `Tasks.RenderSnapshot` | Assets/Styles/js/index.js:75-96 | rendering the saved records reproduces a consistent list exactly |
| `Tasks.SnapshotRender` | Assets/Styles/js/index.js:75-96 | saving rendered records reproduces the records exactly |
| `Tasks.RenderAppend` | Assets/Styles/js/index.js:91-93 | appending one record to the loaded records appends exactly one entry at the end |
| `Tasks.SnapshotAppend` | Assets/Styles/js/index.js:77-82 | pushing one more entry's record appends exactly that record at the end |
| `Tasks.CountChecked` | Assets/Styles/js/index.js:164 | the number of checked boxes is at most the number of entries |
| `Tasks.CountCheckedPositive` | Assets/Styles/js/index.js:163-171 | the count of checked boxes is positive exactly when some entry is checked (both directions) |
| `Tasks.RemoveChecked` | Assets/Styles/js/index.js:183-186 | removal leaves as many entries as were unchecked, none of them checked, and keeps a consistent list consistent |
| `Tasks.RemoveCheckedConcat` | Assets/Styles/js/index.js:183-186 | removal keeps the relative order: survivors of a concatenation are the survivors of each part, in order |
| `Tasks.RemoveCheckedExactly` | Assets/Styles/js/index.js:175-186 | every copy of a checked entry is removed and every copy of an unchecked entry is kept |
| `Tasks.RemoveCheckedNoneChecked` | Assets/Styles/js/index.js:175-180 | with no entry checked, removal changes nothing |
| `Persistence.StoredTasks` | Assets/Styles/js/index.js:87-94 | load finds no records when the tasks key is absent, and exactly the list of records stored under it otherwise |
| `Persistence.LoadedTitle` | Assets/Styles/js/index.js:56-63 | the shown title is the stored title when one is stored, and the empty string otherwise (no default title) |
| `Persistence.KeysDiffer` | Assets/Styles/js/index.js:13-14 | the tasks key and the title key are different |
| `Persistence.TasksRoundTrip` | Assets/Styles/js/index.js:75-96 | loading after saving returns the saved records in order, whatever else is stored; rendering them reproduces the list |
| `Persistence.TitleRoundTrip` | Assets/Styles/js/index.js:52-62 | loading the title after saving it gives back the trimmed title |
| `Persistence.SavesIndependent` | Assets/Styles/js/index.js:53 | saving the title leaves the stored tasks alone, and saving the tasks leaves the stored title alone |
| `TodoApp.TodoList.constructor` | Assets/Styles/js/index.js:191-193 | page load over a storage shows the loaded title and exactly the stored tasks, and establishes the invariant |
| `TodoApp.TodoList.TriggerAlert` | Assets/Styles/js/index.js:17-27 | the vibration/shake cue is given once more |
| `TodoApp.TodoList.EnforceWordLimit` | Assets/Styles/js/index.js:30-45 | the input becomes the guard's value, and one cue is given exactly when there were more than 5 words |
| `TodoApp.TodoList.OnInput` | Assets/Styles/js/index.js:47-48 | after the user types, the input holds the guarded value, which has at most 5 words |
| `TodoApp.TodoList.EditTitle` | Assets/Styles/js/index.js:4 | the browser's own editing of the title element: the shown title becomes the typed text, nothing is stored, and the invariant is kept |
| `TodoApp.TodoList.SaveTitle` | Assets/Styles/js/index.js:52-54 | only the title key changes, and it now holds the trimmed title; the invariant is kept |
| `TodoApp.TodoList.StoreTitle` | Assets/Styles/js/index.js:53 | writing the title key changes only that key, so the stored tasks and the invariant are kept |
| `TodoApp.TodoList.OnTitleKeyPress` | Assets/Styles/js/index.js:66-71 | Enter commits the title as losing focus does; any other key stores nothing |
| `TodoApp.TodoList.LoadTitle` | Assets/Styles/js/index.js:56-63 | the shown title becomes the loaded title |
| `TodoApp.TodoList.SaveTasks` | Assets/Styles/js/index.js:75-85 | the records of the entries, in order, are stored under the tasks key; nothing else in storage changes; the delete button shows exactly when some entry is checked |
| `TodoApp.TodoList.CollectRecords` | Assets/Styles/js/index.js:77-82 | one record per rendered entry, in order, with that entry's text and checkbox state; nothing changes |
| `TodoApp.TodoList.LoadTasks` | Assets/Styles/js/index.js:87-96 | the stored records are appended in order as entries, and nothing is appended when the key is absent; the delete button is refreshed |
| `TodoApp.TodoList.RenderRecords` | Assets/Styles/js/index.js:91-93 | one entry per record is created after the existing entries, in order, struck through exactly when checked |
| `TodoApp.TodoList.CreateTaskElement` | Assets/Styles/js/index.js:98-116 | exactly one entry is appended at the end, struck through exactly when it is checked |
| `TodoApp.TodoList.AddTask` | Assets/Styles/js/index.js:126-147 | if the trimmed input is empty or 20 tasks are present, nothing changes but one cue is given; otherwise one unchecked task with the trimmed text is appended, earlier tasks are unchanged, the input is cleared and the list is saved; the count never rises above 20 |
| `TodoApp.TodoList.AppendTask` | Assets/Styles/js/index.js:144-146 | the accepted branch appends one unchecked entry, clears the input and saves, keeping the invariant |
| `TodoApp.TodoList.ToggleStrikethrough` | Assets/Styles/js/index.js:150-161 | only entry i changes: its strikethrough follows its checkbox; the delete button is refreshed |
| `TodoApp.TodoList.OnCheckboxChange` | Assets/Styles/js/index.js:110-113 | a click flips only entry i's checkbox and strikethrough, saves the list, and keeps the invariant |
| `TodoApp.TodoList.UpdateDeleteButtonVisibility` | Assets/Styles/js/index.js:163-171 | the delete button is shown exactly when at least one entry is checked |
| `TodoApp.TodoList.DeleteSelected` | Assets/Styles/js/index.js:174-189 | with nothing checked only a notice is shown; if the user declines, nothing changes; if they confirm, exactly the checked entries are removed, the rest keep their order, the list is saved and the button is hidden |
| `TodoApp.TodoList.RemoveCheckedEntries` | Assets/Styles/js/index.js:183-186 | removing the checked entries one by one leaves exactly the unchecked entries in order |
| `TodoApp.RemoveStep` | Assets/Styles/js/index.js:183-186 | one step of the removal loop extends the processed prefix by one entry |
| `TodoApp.TodoList.Reload` | Assets/Styles/js/index.js:191-193 | reloading the page over the same storage shows the same tasks and the stored title, with an empty input |

## Left out

- DOM construction and event wiring (`getElementById`, `innerHTML`, `querySelector`,
  `addEventListener`, `closest`) are not modelled. The rendered list is a sequence of
  entries in document order.
- The add button and Enter in the task input are not modelled as separate events.
  Both run `AddTask`.
- The user's typing in the editable title is modelled by `EditTitle`. Focus
  handling is not modelled.
- The vibration and the 300 ms shake class are not modelled. The cue is a counter.
- The `alert` and `confirm` dialogs are not modelled. The notice is an outcome value,
  and the user's answer is a boolean parameter.
- Task text is treated as opaque. It is interpolated into `innerHTML` without
  escaping, so text containing markup would not round-trip through `textContent`.
  The round trip is stated over records, not HTML.
- JSON encoding is not modelled. Storage maps the tasks key to the list of records
  and the title key to a string.
- `Persistence.StoredTasks` treats a stored value under the tasks key that is not a
  list of records as absent. This page never writes such a value. In the browser,
  `JSON.parse` could throw on it.
- `Persistence.LoadedTitle` treats a list value under the title key as no title.
  This page never writes one.
- Strings are sequences of Unicode scalar values, not UTF-16 code units. No white
  space character lies outside the Basic Multilingual Plane, so the guard and
  trimming are unaffected.
- `TodoApp.TodoList.Valid` does not include the input's five-word bound. That bound
  is stated by `OnInput`, and `GuardedTaskWithinLimit` carries it to the text that
  `AddTask` appends.
- Tasks loaded from storage are not checked against the 20-task or 5-word limits,
  as in the code. `AddTask` only promises not to raise the count above 20.
- The click-to-arm deletion variant and the splash animation are not in this page
  and are not modelled.

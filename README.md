# To-do list: a verified model

This project models a single-user to-do list program, `to_do_list.py`. It keeps an ordered list of tasks. Each task has a title, a description, a category and a completion flag. The user adds, views, completes and deletes tasks from a numbered menu. The list is loaded from a JSON file at start-up and written back only when the user chooses to exit.

The model has five modules.

- `Wrappers` holds `Option`. It is used for a number that did not parse, a file that does not exist, and a record that cannot be read.
- `Tasks` holds the `Task` class, which has four mutable fields. `TaskData` is the value such an object holds. The module also defines the record form a task is stored as: a map from field name to JSON value, with conversions both ways.
- `Persistence` saves and loads the whole list at record level. The file's content is a `seq<Record>`, and an absent file is `None`.
- `Collection` holds pure specification functions on `seq<TaskData>`: `Added`, `Marked`, `Deleted` and `Outcome`. It also holds the `TaskList` class, which keeps a `seq<Task>` of distinct task objects and a ghost view `Contents` of their values. `AddTask`, `MarkTaskCompleted` and `DeleteTask` are proved against `Added`, `Marked`, `Deleted` and `Outcome`. `ViewTasks` is proved against `RowOf`, `SaveTasks` against `Persistence.SaveRecords`, and `LoadTasks` against `Persistence.LoadFile`.
- `Shell` holds the menu. It has Python's whitespace trimming, one step of the menu loop, and a session run over a finite script of input lines.

User input is passed in as parameters. A task number is an `Option<int>`, where `None` means the input was not a number. Messages to the user are `Report` and `Listing` values, not printed text.

Titles are not validated: any text, including the empty string, is accepted (to_do_list.py:49, 52), and the model does the same.

## Model

| member | source | states |
|---|---|---|
| `Tasks.Task.constructor` | to_do_list.py:6-10 | a new task holds the given title, description and category and is not completed |
| `Tasks.Completed` | to_do_list.py:12-13 | the value-level completion: the flag becomes true and title, description and category are kept |
| `Tasks.Task.MarkCompleted` | to_do_list.py:12-13 | sets the completion flag to true; title, description and category are unchanged |
| `Tasks.CompletedIsOneWay` | to_do_list.py:12-13 | completing always leaves the flag true, never touches the text fields, and changes nothing on a task that is already completed |
| `Tasks.CompletedIdempotent` | to_do_list.py:12-13 | completing twice gives the same task as completing once |
| `Tasks.ToRecord` | to_do_list.py:15-22 | the saved record has exactly the keys title, description, category and completed, and reading it back gives the same task |
| `Tasks.Task.ToDict` | to_do_list.py:15-22 | a task object's record has the four keys, and reading it back gives the object's current field values |
| `Tasks.FromRecord` | to_do_list.py:24-29 | reading succeeds exactly when all four fields are present (no defaulting) and each holds a value of the right kind (string, or boolean for `completed`); then each field's value is taken from its key |
| `Tasks.Task.FromDict` | to_do_list.py:24-29 | gives a fresh task object holding the record's four fields, or None when a field is missing or holds a value of the wrong kind |
| `Tasks.FromRecordThenToRecord` | to_do_list.py:15-29 | saving what was read gives the original record restricted to the four field names, so extra keys are dropped |
| `Tasks.ExactRecordRoundTrip` | to_do_list.py:15-29 | a record with exactly the four well-formed fields is reproduced by reading and then saving it |
| `Persistence.SaveRecords` | to_do_list.py:33-35 | writes one record per task, in list order, and record i reads back as task i |
| `Persistence.LoadRecords` | to_do_list.py:42-44 | loading succeeds exactly when every record can be read; the result has one task per record, in order |
| `Persistence.LoadFile` | to_do_list.py:39-44 | an absent file loads as the empty list; an existing file loads exactly when every record can be read, and then gives one task per record, in order |
| `Persistence.LoadAfterSave` | to_do_list.py:33-44 | loading the records saved for a list gives the same list, with the same order and length |
| `Persistence.SaveAfterLoad` | to_do_list.py:33-44 | a file whose records have exactly the four fields is written back unchanged after loading |
| `Persistence.MissingFlagFailsLoad` | to_do_list.py:27-28 | one record without `completed` makes the whole load fail, instead of defaulting the flag |
| `Collection.Added` | to_do_list.py:52-53 | adding grows the list by one; the earlier tasks are unchanged, and the last task is new and not completed |
| `Collection.Marked` | to_do_list.py:77-78 | an in-range choice completes only the task at position choice-1; the length and all other tasks are unchanged; an out-of-range or missing choice changes nothing |
| `Collection.Deleted` | to_do_list.py:93-94 | an in-range choice drops the task at choice-1 and moves every later task down one position; anything else changes nothing |
| `Collection.Outcome` | to_do_list.py:71-99 | the report is "no tasks" exactly on an empty list, "not a number" exactly when a number was needed and the input did not parse, and "done" with the chosen task's title exactly when the choice is in range |
| `Collection.MarkedCount` | to_do_list.py:77-78 | marking never un-completes: the completed count grows by one exactly when the chosen task was not yet completed |
| `Collection.MarkedIdempotent` | to_do_list.py:77-78 | marking the same choice twice gives the same list as marking it once |
| `Collection.DeletedRemovesOne` | to_do_list.py:93-94 | the list after a delete plus the removed task is, as a multiset, the list before it |
| `Collection.DeleteUndoesAdd` | to_do_list.py:53 | deleting position length+1 right after an add gives back the list before the add |
| `Collection.TaskList.constructor` | to_do_list.py:40-41 | a new list is empty and owns only fresh objects |
| `Collection.TaskList.Append` | to_do_list.py:53 | appends one task object and its value at the end |
| `Collection.TaskList.AddTask` | to_do_list.py:48-53 | appends one fresh, not completed task object at the end and adds it to the list's objects; the task objects already in the list keep their positions |
| `Collection.TaskList.ViewTasks` | to_do_list.py:58-67 | an empty list shows "nothing to display"; otherwise there is one row per task, in order, numbered from 1, with the completion marker, title, category and description |
| `Collection.TaskList.MarkTaskCompleted` | to_do_list.py:71-83 | the list's value becomes `Marked` of the old value; the list of objects is the same; the report is `Outcome` |
| `Collection.TaskList.DeleteTask` | to_do_list.py:87-99 | the list's value becomes `Deleted` of the old value; an in-range choice pops object choice-1 from the list; an empty list, a non-number or an out-of-range choice leaves the list of objects as it was; the report is `Outcome` |
| `Collection.TaskList.SaveTasks` | to_do_list.py:33-36 | the records written are the list's records in order, and loading them gives the list's contents back |
| `Collection.TaskList.LoadTasks` | to_do_list.py:39-44 | gives a fresh list exactly when the file loads, holding the loaded tasks as distinct fresh objects |
| `Shell.Strip` | to_do_list.py:49-51 | the trimmed text is a slice of the input that neither begins nor ends with whitespace, and only whitespace is cut on either side |
| `Shell.StripIdempotent` | to_do_list.py:112 | trimming twice is the same as trimming once |
| `Shell.Apply` | to_do_list.py:114-127 | choice 1 is `Added` with the trimmed title, description and category, 3 is `Marked`, 4 is `Deleted`, and every other choice (2, 5 or unknown) leaves the list unchanged |
| `Shell.Step` | to_do_list.py:112-127 | one menu step changes the list as `Apply` says for the trimmed choice; only choice 5 exits, and only it writes records (the current list's) |
| `Shell.Replay` | to_do_list.py:105-125 | the value-level menu loop: an empty script ends without saving, and an exit choice on the first line stops with the current list |
| `Shell.SavesIffExit` | to_do_list.py:105-125 | a session saves if and only if some line of its script is the exit choice |
| `Shell.NoExitNoSave` | to_do_list.py:105-125 | a session with no exit choice never saves |
| `Shell.ExitIgnoresRest` | to_do_list.py:122-125 | input after the first exit choice does not affect what is saved |
| `Shell.Run` | to_do_list.py:103-125 | a session fails when the file does not load; otherwise it saves the list as it is at the first exit choice, or saves nothing if input runs out first |

## Left out

- Console output is left out: the prompts, the messages and the emoji layout of the listing. Reports and listings are returned as values instead.
- Reading input is left out. Answers are parameters; an `Entry` carries every answer an option could ask for.
- Python's `int()` parsing (signs, whitespace, underscores) is left out. A task number arrives already parsed as `Option<int>`.
- File and JSON I/O are left out: `open`, `json.dump` text and indentation, `json.load` parsing, and `os.path.exists`. The file is modelled as `Option<seq<Record>>`, where `None` means absent.
- A file whose top-level JSON value is not an array is not modelled, and neither is an array element that is not an object (for instance `[1]`, where Python raises TypeError at to_do_list.py:27); `seq<Record>` cannot represent either.
- I/O failures during save or load are not modelled.
- `Tasks.FromRecord`: a field whose JSON value has the wrong kind (for example a number for `completed`) is rejected. Python would store that value unchecked, but the model's fields are typed.
- `Shell.IsSpace` follows the whitespace set of Python's `str.isspace`. Unicode tables beyond that set are not modelled.
- The `while True` loop in `main` is not modelled as an endless process. `Shell.Run` plays a finite script. A script that ends before exit stands for the EOF error that ends the program without saving.
- `Shell.Step` drops the reports of view, mark and delete, since console output is not part of the model.

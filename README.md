# To-do list task store, modelled in Dafny

A model of the task store of a small desktop to-do list (`todo2.py`). Tasks are
records of a description and a completion flag. A task has no identifier and is
known by its position in an ordered list. The store offers three changes to the
list: add a task at the end, mark the task at an index completed, and delete the
task at an index. After each change that happens, the whole list is written back
to a JSON file, and the list is read from that file once at start-up. The list
view shows each task as `[x] description` or `[ ] description`. The GUI's add
button refuses an empty entry. The other two buttons refuse to act when no row
is selected.

Modules, in dependency order:

- `Wrappers` (wrappers.dfy): `Option`.
- `Tasks` (tasks.dfy): the `Task` record, its display string `Render` and the
  inverse `ParseRendered`.
- `Persistence` (persistence.dfy): the file as a `FileState` (`Missing`,
  `Malformed`, or a `Json` array of `Entry` objects), `Load` (`load_tasks`)
  and `Snapshot` (what `save_tasks` writes).
- `TaskStore` (task_store.dfy): the value-level operations `Added`,
  `MarkedCompleted` and `Deleted` with their lemmas. Also the class
  `TaskManager`, whose methods change the list in place and rewrite the file,
  each proved against the matching value-level operation. Its invariant
  `Valid()` says that loading the file gives the in-memory list.
- `App` (app.dfy): the GUI handlers' decision `React` (forward a store call or
  show a warning), `Handle`, which carries that decision out on a
  `TaskManager`, and `Replay` over a run of button presses.

The bound check `0 <= task_index < len(self.tasks)` is modelled on `int`. A
negative index is therefore rejected. Python's own `pop` and indexing would
accept an index from `-len` to `-1` and raise `IndexError` below that. In the model, indices of either sign past the ends leave the list and the file
untouched.

## Model

| member | source | states |
|---|---|---|
| `Tasks.NewTask` | todo2.py:8-10 | a task created from a description alone carries that description and is not completed |
| `Tasks.Render` | todo2.py:12-13 | the display string is `[`, `x` if completed and a space otherwise, `]`, a space, then the description, so its length is four more than the description's |
| `Tasks.ParseRender` | todo2.py:12-13 | parsing the display string of any task gives back that task |
| `Tasks.RenderParse` | todo2.py:12-13 | any string that parses is the display string of the task it parses to |
| `Tasks.RenderInjective` | todo2.py:12-13 | two different task values never render to the same display string |
| `Persistence.FromEntry` | todo2.py:8-10 | an object read from the file becomes a task with its description, completed only when its `completed` key is present and true |
| `Persistence.ToEntry` | todo2.py:35 | the object written for a task has both keys, and reading it back gives the same task |
| `Persistence.Load` | todo2.py:21-30 | a missing or malformed file loads as the empty list; a JSON array loads as one task per object, in file order, with each task's description and flag taken from its object |
| `Persistence.Snapshot` | todo2.py:32-35 | the saved file is a JSON array with one object per task, in list order, each holding the task's description and an explicit `completed` key with its flag; loading it gives back exactly the saved list (save then load round-trips) |
| `TaskStore.Added` | todo2.py:37-41 | adding lengthens the list by exactly one, keeps every earlier task, and puts a not completed task with the given description last |
| `TaskStore.MarkedCompleted` | todo2.py:43-47 | for an index in bounds, the task there becomes completed with its description kept; all other tasks and the length are kept; for an index out of bounds (negative included) the list is unchanged |
| `TaskStore.Deleted` | todo2.py:49-53 | for an index in bounds, the length drops by one, tasks before the index stay where they were and tasks after it move up by one in their old order; out of bounds the list is unchanged |
| `TaskStore.MarkCompletedIdempotent` | todo2.py:45-46 | marking the same index completed twice gives the same list as marking it once |
| `TaskStore.MarkCompletedOfCompleted` | todo2.py:45-46 | marking a task that is already completed leaves the list as it was |
| `TaskStore.MarkCompletedMonotone` | todo2.py:45-46 | marking never changes a description and never clears a completion flag |
| `TaskStore.DeleteRemovesOne` | todo2.py:51-52 | deleting removes exactly one occurrence of the task at the index: the remaining tasks plus that one are the old list as a multiset |
| `TaskStore.DeleteUndoesAdd` | todo2.py:37-53 | deleting the last position right after an add gives back the list as it was before the add |
| `TaskStore.TaskManager.constructor` | todo2.py:17-19 | a new store keeps its file name, defaulting to `tasks.json`, and its list is what loading the file gives |
| `TaskStore.TaskManager.SaveTasks` | todo2.py:32-35 | saving leaves the list alone and overwrites the file with its snapshot, after which the file and list agree |
| `TaskStore.TaskManager.AddTask` | todo2.py:37-41 | the list becomes `Added` of the old list, and the file then holds the snapshot of the new list |
| `TaskStore.TaskManager.MarkCompleted` | todo2.py:43-47 | the list becomes `MarkedCompleted` of the old list; in bounds the file is rewritten with the new list; out of bounds neither the list nor the file changes; the file and list agreeing is preserved |
| `TaskStore.TaskManager.DeleteTask` | todo2.py:49-53 | the list becomes `Deleted` of the old list; in bounds the file is rewritten with the new list; out of bounds neither the list nor the file changes; the file and list agreeing is preserved |
| `App.React` | todo2.py:97-123 | the add handler forwards the entry exactly when it is non-empty and otherwise gives an input warning; the other two forward the first selected index exactly when something is selected and otherwise give a selection warning; no empty description is ever forwarded |
| `App.Perform` | todo2.py:97-123 | a warning leaves the list unchanged; a forwarded call has the effect of the store operation it names |
| `App.Handle` | todo2.py:97-123 | carrying out a reaction on the store changes its list as `Perform` says; a forwarded add, or a forwarded complete or delete with an index in bounds, leaves the file holding the snapshot of the new list; a warning, or a forwarded complete or delete out of bounds, leaves the file untouched; the file and list agreeing is preserved |
| `App.ReactKeepsDescribed` | todo2.py:99-105 | if every task has a non-empty description, the list after any one button press still has that property |
| `App.ReplayKeepsDescribed` | todo2.py:97-123 | a list whose descriptions are all non-empty stays so through any run of button presses |
| `App.WarningsChangeNothing` | todo2.py:104-123 | a run of presses that each end in a warning leaves the list as it was |

## Left out

- The Tk window, its widgets, `refresh_task_list`, fullscreen toggling, dialogs and
  the exit confirmation (todo2.py:56-95, 125-135) are GUI code with no effect on
  the data. The warnings are modelled only as the value `Warn(notice)`.
- Clearing the entry field after a successful add (todo2.py:102) is widget state
  and is not modelled.
- `main()` and the Tk event loop (todo2.py:138-144) are not modelled. `Replay` stands
  for handlers running one at a time.
- Real file I/O, `os.path.exists`, `open` and the `json` library (todo2.py:23-26,
  34-35) are foreign calls. The file is the abstract `FileState` held in the
  field `TaskManager.disk`. The JSON text, its 4-space indentation and the file
  name's effect on which file is read are not modelled. The constructor is given
  the state of its file as a parameter.
- Persistence.Load: `FileState` covers a missing file, text that is not JSON, and a
  JSON array of task objects. A JSON empty object `{}` or empty string `""` loads as
  `[]` in the source (the comprehension at todo2.py:27 iterates nothing), the same
  list as `Json([])`, so the model writes such a file as `Json([])`. The following
  files have no `FileState` value, and in each the source raises an exception that
  todo2.py:28 does not catch, because it catches only `json.JSONDecodeError`:
  - a JSON number, boolean or `null`, for which the `for` of the comprehension at
    todo2.py:27 raises `TypeError`;
  - a non-empty JSON object or string (iterating it yields strings), an array with an
    item that is not an object, or an object with an extra key or without
    `description`, for which `Task(**task)` at todo2.py:27 raises `TypeError`;
  - a file whose bytes do not decode as text, for which the read inside `json.load`
    at todo2.py:26 raises `UnicodeDecodeError`;
  - a file that exists but cannot be opened, for which `open` at todo2.py:24 raises.
  A non-string description or a non-boolean `completed` is stored unchecked by the
  source; the model's `Entry` only holds a string and an optional boolean.
- TaskManager.SaveTasks: a save whose `open` or `json.dump` at todo2.py:34-35 raises
  (a read-only file, a directory named like the file, a failure part-way through the
  dump) is not modelled; the model's save always succeeds. In the source the list
  already holds the change made at todo2.py:40, 46 or 52 when the save runs, so after
  such an error the list is changed while the file is stale or truncated. No caller
  catches the error: the GUI's add handler has no `try`, and the other two handlers
  catch only `IndexError` (todo2.py:113, 122), so the list view is not refreshed either.
- Persistence.Snapshot: a crash in the middle of a write, which could leave the file
  corrupt, is not modelled. Saving is a single atomic step.
- Tasks are modelled as values, not objects. `mark_completed` changes the `Task`
  object's field in place (todo2.py:46). Each `Task` object is created by `add_task`
  or `load_tasks` and is referenced only from the list, so giving the list a new
  element at that index is indistinguishable from that field update.
- The removed task that `pop` returns at todo2.py:52 is unused by the source, and is
  dropped in `DeleteTask`.
- Indices that are not integers (Python would raise `TypeError` at the comparison or
  the indexing) are not modelled: every index is an `int`.

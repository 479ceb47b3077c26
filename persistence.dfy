/**
 * The persistence file of the task store, abstracted to what loading and
 * saving observe (todo2.py:21-35). The file holds a JSON array of objects
 * with a `description` and, optionally, a `completed` key; the JSON text,
 * its 4-space indentation and the file system itself are not modelled.
 */
module Persistence {
  import opened Wrappers
  import opened Tasks

  /** One object of the stored JSON array. A missing `completed` key is
      `None`: `Task(**entry)` then falls back to the constructor's default. */
  datatype Entry = Entry(description: string, completed: Option<bool>)

  /** What the file named by the store holds: nothing, text that is not JSON,
      or a JSON array of task objects. */
  datatype FileState = Missing | Malformed | Json(entries: seq<Entry>)

  /** `Task(**entry)`: an absent `completed` means not completed. */
  function FromEntry(e: Entry): (t: Task)
    ensures t.description == e.description
    ensures t.completed <==> e.completed == Some(true)
  {
    Task(e.description, e.completed.GetOr(false))
  }

  /** `task.__dict__`: both keys are always written. */
  function ToEntry(t: Task): (e: Entry)
    ensures FromEntry(e) == t
    ensures e.completed.Some?
  {
    Entry(t.description, Some(t.completed))
  }

  /** `load_tasks`: a missing or malformed file gives the empty list; a JSON
      array gives one task per object, in file order. */
  function Load(f: FileState): (r: seq<Task>)
    ensures !f.Json? ==> r == []
    ensures f.Json? ==> |r| == |f.entries|
    ensures f.Json? ==> forall k :: 0 <= k < |r| ==>
              r[k].description == f.entries[k].description &&
              (r[k].completed <==> f.entries[k].completed == Some(true))
  {
    match f
    case Missing => []
    case Malformed => []
    case Json(entries) => seq(|entries|, k requires 0 <= k < |entries| => FromEntry(entries[k]))
  }

  /** What `save_tasks` writes: one object per task, in list order. Loading
      it gives back exactly the saved list. */
  function Snapshot(tasks: seq<Task>): (f: FileState)
    ensures f.Json? && |f.entries| == |tasks|
    ensures forall k :: 0 <= k < |tasks| ==>
              f.entries[k] == Entry(tasks[k].description, Some(tasks[k].completed))
    ensures Load(f) == tasks
  {
    Json(seq(|tasks|, k requires 0 <= k < |tasks| => ToEntry(tasks[k])))
  }
}

/**
 * The task store (todo2.py:16-53): an ordered list of tasks, positions as
 * identities, and a persistence file rewritten in full after every change.
 * The value-level functions say what each operation does to the list; the
 * class `TaskManager` performs them in place and keeps the file in step.
 */
module TaskStore {
  import opened Tasks
  import opened Wrappers
  import opened Persistence

  /** The store's bound check: `0 <= index < len(tasks)`. Negative indices
      are rejected, although Python's own indexing and `pop` would accept
      those from `-len(tasks)` to `-1` (and raise IndexError below that). */
  predicate InRange(tasks: seq<Task>, index: int) {
    0 <= index < |tasks|
  }

  /** `add_task`: the list with a new, not completed task at its end. */
  function Added(tasks: seq<Task>, description: string): (r: seq<Task>)
    ensures |r| == |tasks| + 1
    ensures r[..|tasks|] == tasks
    ensures r[|tasks|] == Task(description, false)
  {
    tasks + [NewTask(description)]
  }

  /** `mark_completed`: inside the bounds, the task at `index` becomes
      completed and keeps its description while every other task is kept;
      outside them, nothing changes. */
  function MarkedCompleted(tasks: seq<Task>, index: int): (r: seq<Task>)
    ensures |r| == |tasks|
    ensures InRange(tasks, index) ==>
              r[index].completed && r[index].description == tasks[index].description
    ensures forall k :: 0 <= k < |tasks| && k != index ==> r[k] == tasks[k]
    ensures !InRange(tasks, index) ==> r == tasks
  {
    if InRange(tasks, index) then tasks[index := tasks[index].(completed := true)] else tasks
  }

  /** `delete_task`: inside the bounds, the task at `index` is removed and
      the others close up in their old order; outside them, nothing changes. */
  function Deleted(tasks: seq<Task>, index: int): (r: seq<Task>)
    ensures InRange(tasks, index) ==> |r| == |tasks| - 1
    ensures InRange(tasks, index) ==> forall k :: 0 <= k < index ==> r[k] == tasks[k]
    ensures InRange(tasks, index) ==> forall k :: index <= k < |r| ==> r[k] == tasks[k + 1]
    ensures !InRange(tasks, index) ==> r == tasks
  {
    if InRange(tasks, index) then tasks[..index] + tasks[index + 1..] else tasks
  }

  /** Marking a task completed twice is the same as marking it once. */
  lemma MarkCompletedIdempotent(tasks: seq<Task>, index: int)
    ensures MarkedCompleted(MarkedCompleted(tasks, index), index) == MarkedCompleted(tasks, index)
  {
  }

  /** Marking a task that is already completed changes nothing. */
  lemma MarkCompletedOfCompleted(tasks: seq<Task>, index: int)
    requires InRange(tasks, index) && tasks[index].completed
    ensures MarkedCompleted(tasks, index) == tasks
  {
  }

  /** Marking never clears a completion flag, and the descriptions stay. */
  lemma MarkCompletedMonotone(tasks: seq<Task>, index: int, k: int)
    requires 0 <= k < |tasks|
    ensures MarkedCompleted(tasks, index)[k].description == tasks[k].description
    ensures tasks[k].completed ==> MarkedCompleted(tasks, index)[k].completed
  {
  }

  /** Deleting removes exactly the task at `index`: the remaining tasks are
      the old ones less that one occurrence. */
  lemma DeleteRemovesOne(tasks: seq<Task>, index: int)
    requires InRange(tasks, index)
    ensures multiset(Deleted(tasks, index)) + multiset{tasks[index]} == multiset(tasks)
  {
    assert tasks == tasks[..index] + [tasks[index]] + tasks[index + 1..];
  }

  /** Deleting after adding removes the new task again and gives back the
      list as it was. */
  lemma DeleteUndoesAdd(tasks: seq<Task>, description: string)
    ensures Deleted(Added(tasks, description), |tasks|) == tasks
  {
  }

  /**
   * The store object. `tasks` is the in-memory list; `disk` stands for the
   * contents of the file named `filename`. Every successful change ends
   * with `save_tasks`, so the two agree after it.
   */
  class TaskManager {
    const filename: string
    var tasks: seq<Task>
    var disk: FileState

    /** The in-memory list is what loading the file would give. */
    ghost predicate Valid()
      reads this
    {
      Load(disk) == tasks
    }

    /** `TaskManager(filename)`: the list is loaded once, from the file as
        it is found on disk. */
    constructor (onDisk: FileState, filename: string := "tasks.json")
      ensures this.filename == filename
      ensures disk == onDisk && tasks == Load(onDisk)
      ensures Valid()
    {
      this.filename := filename;
      disk := onDisk;
      tasks := Load(onDisk);
    }

    /** `save_tasks`: the file is overwritten with the whole list. */
    method SaveTasks()
      modifies this
      ensures tasks == old(tasks)
      ensures disk == Snapshot(tasks)
      ensures Valid()
    {
      disk := Snapshot(tasks);
    }

    /** `add_task`: append a not completed task, then save. */
    method AddTask(description: string)
      modifies this
      ensures tasks == Added(old(tasks), description)
      ensures |tasks| == |old(tasks)| + 1 && tasks[..|old(tasks)|] == old(tasks)
      ensures tasks[|old(tasks)|] == Task(description, false)
      ensures disk == Snapshot(tasks)
      ensures Valid()
    {
      tasks := tasks + [NewTask(description)];
      SaveTasks();
    }

    /** `mark_completed`: inside the bounds, complete the task at `index` and
        save; outside them, leave the list and the file alone. */
    method MarkCompleted(index: int)
      modifies this
      ensures tasks == MarkedCompleted(old(tasks), index)
      ensures InRange(old(tasks), index) ==> disk == Snapshot(tasks) && Valid()
      ensures !InRange(old(tasks), index) ==> tasks == old(tasks) && disk == old(disk)
      ensures old(Valid()) ==> Valid()
    {
      if 0 <= index < |tasks| {
        tasks := tasks[index := tasks[index].(completed := true)];
        SaveTasks();
      }
    }

    /** `delete_task`: inside the bounds, remove the task at `index` and
        save; outside them, leave the list and the file alone. The removed
        task is dropped. */
    method DeleteTask(index: int)
      modifies this
      ensures tasks == Deleted(old(tasks), index)
      ensures InRange(old(tasks), index) ==> disk == Snapshot(tasks) && Valid()
      ensures !InRange(old(tasks), index) ==> tasks == old(tasks) && disk == old(disk)
      ensures old(Valid()) ==> Valid()
    {
      if 0 <= index < |tasks| {
        tasks := tasks[..index] + tasks[index + 1..];
        SaveTasks();
      }
    }
  }

  /** A session that starts without a file: add a task, complete it, delete
      it, and see the list and the file at each step. */
  method BuyMilkSession() {
    var m := new TaskManager(Missing);
    assert m.filename == "tasks.json" && m.tasks == [];
    m.AddTask("buy milk");
    assert m.tasks == [Task("buy milk", false)];
    assert m.disk == Json([Entry("buy milk", Some(false))]);
    m.MarkCompleted(0);
    assert m.tasks == [Task("buy milk", true)];
    m.MarkCompleted(1);
    m.MarkCompleted(-1);
    assert m.tasks == [Task("buy milk", true)];
    m.DeleteTask(0);
    assert m.tasks == [] && m.disk == Json([]);
  }
}

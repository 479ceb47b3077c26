/**
 * The data side of the GUI's three action handlers (todo2.py:97-123): each
 * button press either forwards one call to the task store or shows a
 * warning and leaves the store alone. Widgets, dialogs and redrawing are
 * not modelled.
 */
module App {
  import opened Tasks
  import opened Persistence
  import opened TaskStore

  /** A button press, with what the handler reads from the widgets: the text
      of the entry field, or the indices `curselection()` reports. */
  datatype Event =
    | AddClicked(entry: string)
    | MarkClicked(selection: seq<int>)
    | DeleteClicked(selection: seq<int>)

  /** The two warnings the handlers can show. */
  datatype Notice = InputError | SelectionError

  /** One call into the task store. */
  datatype Request = Add(description: string) | Complete(index: int) | Remove(index: int)

  /** What a handler does: call the store, or warn. */
  datatype Reaction = Forward(request: Request) | Warn(notice: Notice)

  /** The handlers' decision. An empty entry is refused with an input
      warning; an empty selection (`curselection()[0]` raising IndexError)
      with a selection warning; otherwise the first selected index goes to
      the store. */
  function React(e: Event): (r: Reaction)
    ensures e.AddClicked? ==> (r == Forward(Add(e.entry)) <==> e.entry != "")
    ensures e.AddClicked? ==> (r == Warn(InputError) <==> e.entry == "")
    ensures e.MarkClicked? ==> (r == Warn(SelectionError) <==> |e.selection| == 0)
    ensures e.MarkClicked? && |e.selection| > 0 ==> r == Forward(Complete(e.selection[0]))
    ensures e.DeleteClicked? ==> (r == Warn(SelectionError) <==> |e.selection| == 0)
    ensures e.DeleteClicked? && |e.selection| > 0 ==> r == Forward(Remove(e.selection[0]))
    ensures r.Forward? && r.request.Add? ==> r.request.description != ""
  {
    match e
    case AddClicked(entry) =>
      if entry != "" then Forward(Add(entry)) else Warn(InputError)
    case MarkClicked(selection) =>
      if |selection| > 0 then Forward(Complete(selection[0])) else Warn(SelectionError)
    case DeleteClicked(selection) =>
      if |selection| > 0 then Forward(Remove(selection[0])) else Warn(SelectionError)
  }

  /** The effect of a reaction on the task list: a warning changes nothing,
      a forwarded request does what the store operation does. */
  function Perform(tasks: seq<Task>, r: Reaction): (t: seq<Task>)
    ensures r.Warn? ==> t == tasks
    ensures r.Forward? && r.request.Add? ==> t == Added(tasks, r.request.description)
    ensures r.Forward? && r.request.Complete? ==> t == MarkedCompleted(tasks, r.request.index)
    ensures r.Forward? && r.request.Remove? ==> t == Deleted(tasks, r.request.index)
  {
    match r
    case Warn(_) => tasks
    case Forward(Add(d)) => Added(tasks, d)
    case Forward(Complete(i)) => MarkedCompleted(tasks, i)
    case Forward(Remove(i)) => Deleted(tasks, i)
  }

  /** Carry out a handler's reaction on the store object. */
  method Handle(m: TaskManager, r: Reaction)
    modifies m
    ensures m.tasks == Perform(old(m.tasks), r)
    ensures r.Warn? ==> m.tasks == old(m.tasks) && m.disk == old(m.disk)
    ensures r.Forward? && (r.request.Add? || InRange(old(m.tasks), r.request.index)) ==>
              m.disk == Snapshot(m.tasks)
    ensures r.Forward? && !r.request.Add? && !InRange(old(m.tasks), r.request.index) ==>
              m.disk == old(m.disk)
    ensures old(m.Valid()) ==> m.Valid()
  {
    match r
    case Warn(_) =>
    case Forward(Add(d)) => m.AddTask(d);
    case Forward(Complete(i)) => m.MarkCompleted(i);
    case Forward(Remove(i)) => m.DeleteTask(i);
  }

  /** The task list after a run of button presses, one handler at a time. */
  function Replay(tasks: seq<Task>, events: seq<Event>): (t: seq<Task>)
    decreases |events|
  {
    if events == [] then tasks else Replay(Perform(tasks, React(events[0])), events[1..])
  }

  /** Every task has a non-empty description. */
  predicate AllDescribed(tasks: seq<Task>) {
    forall k :: 0 <= k < |tasks| ==> tasks[k].description != ""
  }

  /** One handler keeps every description non-empty: the add handler never
      forwards an empty one, and the other operations only keep or drop
      existing tasks. */
  lemma ReactKeepsDescribed(tasks: seq<Task>, e: Event)
    requires AllDescribed(tasks)
    ensures AllDescribed(Perform(tasks, React(e)))
  {
  }

  /** Through the GUI, a list whose descriptions are all non-empty stays so,
      whatever buttons are pressed. */
  lemma {:induction false} ReplayKeepsDescribed(tasks: seq<Task>, events: seq<Event>)
    requires AllDescribed(tasks)
    ensures AllDescribed(Replay(tasks, events))
    decreases |events|
  {
    if events != [] {
      ReactKeepsDescribed(tasks, events[0]);
      ReplayKeepsDescribed(Perform(tasks, React(events[0])), events[1..]);
    }
  }

  /** Replaying two runs one after another is replaying their concatenation:
      the composition law of the fold `Replay`, a utility for reasoning about
      runs of presses. */
  lemma {:induction false} ReplayAppend(tasks: seq<Task>, first: seq<Event>, second: seq<Event>)
    ensures Replay(tasks, first + second) == Replay(Replay(tasks, first), second)
    decreases |first|
  {
    if first != [] {
      assert (first + second)[0] == first[0];
      assert (first + second)[1..] == first[1..] + second;
      ReplayAppend(Perform(tasks, React(first[0])), first[1..], second);
    } else {
      assert first + second == second;
    }
  }

  /** Presses that only raise warnings leave the list as it was. */
  lemma {:induction false} WarningsChangeNothing(tasks: seq<Task>, events: seq<Event>)
    requires forall k :: 0 <= k < |events| ==> React(events[k]).Warn?
    ensures Replay(tasks, events) == tasks
    decreases |events|
  {
    if events != [] {
      assert forall k :: 1 <= k < |events| ==> events[1..][k - 1] == events[k];
      WarningsChangeNothing(tasks, events[1..]);
    }
  }
}

/**
 * A task of the to-do list and the text the list view shows for it
 * (todo2.py:7-13).
 */
module Tasks {
  import opened Wrappers

  /** A task: a free-text description and a completion flag. Tasks have no
      identifier; a task is known by its position in the list. */
  datatype Task = Task(description: string, completed: bool)

  /** A task as created by `Task(description)`: not yet completed. */
  function NewTask(description: string): (t: Task)
    ensures t.description == description && !t.completed
  {
    Task(description, false)
  }

  /** The completion marker that opens a rendered task. */
  function Marker(completed: bool): (m: string) {
    if completed then "[x]" else "[ ]"
  }

  /** The display string of a task: a three-character marker, `[x]` when the
      task is completed and `[ ]` otherwise, one space, then the description. */
  function Render(t: Task): (r: string)
    ensures |r| == |t.description| + 4
    ensures r[0] == '[' && r[2] == ']' && r[3] == ' '
    ensures r[1] == (if t.completed then 'x' else ' ')
    ensures r[4..] == t.description
  {
    Marker(t.completed) + " " + t.description
  }

  /** Reads a display string back into the task it shows, if it has the
      rendered form. */
  function ParseRendered(s: string): (p: Option<Task>)
  {
    if |s| >= 4 && s[0] == '[' && (s[1] == 'x' || s[1] == ' ') && s[2] == ']' && s[3] == ' '
    then Some(Task(s[4..], s[1] == 'x'))
    else None
  }

  /** Parsing undoes rendering. */
  lemma ParseRender(t: Task)
    ensures ParseRendered(Render(t)) == Some(t)
  {
  }

  /** Rendering undoes parsing: every string that parses is the rendering of
      the task it parses to. */
  lemma RenderParse(s: string)
    requires ParseRendered(s).Some?
    ensures Render(ParseRendered(s).value) == s
  {
  }

  /** Two different task values never render to the same string. (Two tasks
      at different positions may still be equal values, and then show as two
      identical rows.) */
  lemma RenderInjective(a: Task, b: Task)
    requires Render(a) == Render(b)
    ensures a == b
  {
  }
}

/**
 * One rendered task (frontend/src/components/TaskItem.jsx): whether it is
 * overdue, which facets it shows, and what its checkbox and delete button
 * emit. Parsing the due date and reading the clock are left to the caller:
 * `due` is the instant `new Date(task.due_date)` stands for and `now` the
 * instant `new Date()` returns, on one integer time line.
 */
module TaskItem {
  import opened Tasks

  /** Past its due instant, strictly, and not completed. */
  predicate IsOverdue(task: Task, due: int, now: int)
  {
    due < now && !task.completed
  }

  /** The facets of the rendered item: the "completed" class, the "overdue" class and the OVERDUE label. */
  datatype Facets = Facets(completedClass: bool, overdueClass: bool, overdueLabel: bool)

  function Render(task: Task, due: int, now: int): (view: Facets)
    ensures view.completedClass == task.completed
    ensures view.overdueClass == view.overdueLabel == IsOverdue(task, due, now)
    ensures !(view.completedClass && view.overdueClass)
  {
    var overdue := IsOverdue(task, due, now);
    Facets(task.completed, overdue, overdue)
  }

  /** What the item hands to its parent's callbacks. */
  datatype Intent = Toggle(id: int, current: bool) | Delete(id: int)

  /** The checkbox reports the task's id and its completion as it is now; inverting it is the caller's job. */
  function OnToggle(task: Task): (intent: Intent)
    ensures intent.Toggle? && intent.id == task.id && intent.current == task.completed
  {
    Toggle(task.id, task.completed)
  }

  /** The delete button reports the task's id and nothing else. */
  function OnDelete(task: Task): (intent: Intent)
    ensures intent == Delete(task.id)
  {
    Delete(task.id)
  }

  /** A completed task is never overdue, whatever its due date. */
  lemma CompletedNeverOverdue(task: Task, due: int, now: int)
    requires task.completed
    ensures !IsOverdue(task, due, now)
  {
  }

  /** An open task is overdue exactly when its due instant lies strictly before now. */
  lemma OpenOverdueIffPastDue(task: Task, due: int, now: int)
    requires !task.completed
    ensures IsOverdue(task, due, now) <==> due < now
    ensures due == now ==> !IsOverdue(task, due, now)
  {
  }

  /**
   * A task past its due date is overdue until it is completed; marking it
   * completed (what the parent does with a toggle intent) clears the flag.
   */
  lemma ToggleClearsOverdue(task: Task, due: int, now: int)
    requires !task.completed && due < now
    ensures IsOverdue(task, due, now)
    ensures !IsOverdue(task.(completed := !OnToggle(task).current), due, now)
  {
  }
}

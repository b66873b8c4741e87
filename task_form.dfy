/**
 * The add-task form (frontend/src/components/TaskForm.jsx): three text
 * fields, one change handler each, and a submit that emits the payload only
 * when every field is filled in and then clears the form. The alert shown on
 * a blocked submit is rendering and is not modelled.
 */
module AddTaskForm {
  import opened Wrappers
  import opened Tasks

  class TaskForm {
    var title: string
    var assignedTo: string
    var dueDate: string

    /** Every field is non-empty, so a submit is let through. */
    predicate Complete()
      reads this
    {
      title != "" && assignedTo != "" && dueDate != ""
    }

    /** A fresh form has all three fields empty. */
    constructor ()
      ensures title == "" && assignedTo == "" && dueDate == ""
      ensures !Complete()
    {
      title, assignedTo, dueDate := "", "", "";
    }

    method SetTitle(value: string)
      modifies this`title
      ensures title == value && assignedTo == old(assignedTo) && dueDate == old(dueDate)
    {
      title := value;
    }

    method SetAssignedTo(value: string)
      modifies this`assignedTo
      ensures assignedTo == value && title == old(title) && dueDate == old(dueDate)
    {
      assignedTo := value;
    }

    method SetDueDate(value: string)
      modifies this`dueDate
      ensures dueDate == value && title == old(title) && assignedTo == old(assignedTo)
    {
      dueDate := value;
    }

    /**
     * With a field empty nothing is emitted and every field keeps its value;
     * otherwise the payload of the values as they were is emitted and all
     * three fields are cleared.
     */
    method Submit() returns (emitted: Option<NewTask>)
      modifies this
      ensures !old(Complete()) ==>
                emitted == None && title == old(title) && assignedTo == old(assignedTo) && dueDate == old(dueDate)
      ensures old(Complete()) ==>
                emitted == Some(NewTask(old(title), old(assignedTo), old(dueDate)))
                && title == "" && assignedTo == "" && dueDate == ""
    {
      if title == "" || assignedTo == "" || dueDate == "" {
        return None;
      }
      emitted := Some(NewTask(title, assignedTo, dueDate));
      title, assignedTo, dueDate := "", "", "";
    }
  }

  /**
   * A submit straight after another emits nothing: a successful one has
   * cleared the fields, a blocked one has left an empty field in place.
   */
  method SubmitTwice(form: TaskForm) returns (first: Option<NewTask>, second: Option<NewTask>)
    modifies form
    ensures first == (if old(form.Complete()) then Some(NewTask(old(form.title), old(form.assignedTo), old(form.dueDate))) else None)
    ensures second == None
    ensures old(form.Complete()) ==> form.title == "" && form.assignedTo == "" && form.dueDate == ""
    ensures !old(form.Complete()) ==>
              form.title == old(form.title) && form.assignedTo == old(form.assignedTo) && form.dueDate == old(form.dueDate)
  {
    first := form.Submit();
    second := form.Submit();
  }
}

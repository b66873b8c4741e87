/**
 * The records the service and the UI exchange, and the counting functions
 * over a task collection that the statistics and the filter are specified by.
 */
module Tasks {

  /** A task as the service stores and returns it; `dueDate` is the date text of the form input. */
  datatype Task = Task(id: int, title: string, assignedTo: string, dueDate: string, completed: bool)

  /** The body of a create request: the service's `Task` model, and the payload the form emits. */
  datatype NewTask = NewTask(title: string, assignedTo: string, dueDate: string)

  /** The body of a completion update: the service's `TaskUpdate` model. */
  datatype TaskUpdate = TaskUpdate(completed: bool)

  /** One person's statistics entry, as the service returns it and the stats card receives it. */
  datatype Entry = Entry(total: nat, completed: nat, pending: nat)

  /** The set of `assigned_to` values occurring in `tasks`. */
  function Assignees(tasks: seq<Task>): set<string>
  {
    set t | t in tasks :: t.assignedTo
  }

  /** Number of tasks assigned to `person`. */
  function Count(tasks: seq<Task>, person: string): (n: nat)
    ensures n <= |tasks|
  {
    if tasks == [] then 0
    else Count(tasks[..|tasks| - 1], person) + (if tasks[|tasks| - 1].assignedTo == person then 1 else 0)
  }

  /** Number of completed tasks assigned to `person`. */
  function CompletedCount(tasks: seq<Task>, person: string): nat
  {
    if tasks == [] then 0
    else
      var t := tasks[|tasks| - 1];
      CompletedCount(tasks[..|tasks| - 1], person) + (if t.assignedTo == person && t.completed then 1 else 0)
  }

  /** Number of not-completed tasks assigned to `person`. */
  function PendingCount(tasks: seq<Task>, person: string): nat
  {
    if tasks == [] then 0
    else
      var t := tasks[|tasks| - 1];
      PendingCount(tasks[..|tasks| - 1], person) + (if t.assignedTo == person && !t.completed then 1 else 0)
  }

  /** Number of tasks whose assignee lies in `people`. */
  function CountIn(tasks: seq<Task>, people: set<string>): nat
  {
    if tasks == [] then 0
    else CountIn(tasks[..|tasks| - 1], people) + (if tasks[|tasks| - 1].assignedTo in people then 1 else 0)
  }

  /** The assignees of a prefix one task longer gain exactly that task's assignee. */
  lemma AssigneesSnoc(tasks: seq<Task>, i: nat)
    requires i < |tasks|
    ensures Assignees(tasks[..i + 1]) == Assignees(tasks[..i]) + {tasks[i].assignedTo}
  {
  }

  /** Every task of a person is either completed or pending, never both. */
  lemma {:induction false} CountSplits(tasks: seq<Task>, person: string)
    ensures Count(tasks, person) == CompletedCount(tasks, person) + PendingCount(tasks, person)
  {
    if tasks != [] {
      CountSplits(tasks[..|tasks| - 1], person);
    }
  }

  /** A person has tasks exactly when they are one of the assignees. */
  lemma {:induction false} CountPositive(tasks: seq<Task>, person: string)
    ensures Count(tasks, person) > 0 <==> person in Assignees(tasks)
  {
    if tasks != [] {
      var init := tasks[..|tasks| - 1];
      CountPositive(init, person);
      assert tasks == init + [tasks[|tasks| - 1]];
      assert Assignees(tasks) == Assignees(init) + {tasks[|tasks| - 1].assignedTo};
    }
  }

  /** Nobody's tasks are counted for an empty set of people. */
  lemma {:induction false} CountInNobody(tasks: seq<Task>)
    ensures CountIn(tasks, {}) == 0
  {
    if tasks != [] {
      CountInNobody(tasks[..|tasks| - 1]);
    }
  }

  /** Counting over a set of people splits off one of its members. */
  lemma {:induction false} CountInRemove(tasks: seq<Task>, people: set<string>, person: string)
    requires person in people
    ensures CountIn(tasks, people) == Count(tasks, person) + CountIn(tasks, people - {person})
  {
    if tasks != [] {
      CountInRemove(tasks[..|tasks| - 1], people, person);
    }
  }

  /** When `people` covers every assignee, every task is counted. */
  lemma {:induction false} CountInCovering(tasks: seq<Task>, people: set<string>)
    requires Assignees(tasks) <= people
    ensures CountIn(tasks, people) == |tasks|
  {
    if tasks != [] {
      var init := tasks[..|tasks| - 1];
      assert tasks == init + [tasks[|tasks| - 1]];
      assert Assignees(init) <= Assignees(tasks);
      CountInCovering(init, people);
    }
  }
}

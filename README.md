# Team task tracker: verified model of its rules

The tracker keeps a list of team tasks (title, assignee, due date, completion
flag) in a remote service and shows them in a single-page UI. This project
models the self-contained rules of that system in Dafny and proves what they
promise:

- the service's `get_stats` aggregation (backend/main.py), a loop that builds a
  dictionary of per-person `total`/`completed`/`pending` counters in place,
  modelled as a method with loop invariants over a `map<string, Entry>`;
- the service's `get_team_members` (distinct non-empty assignees, sorted in
  Python's string order) and the record `create_task` inserts;
- the task list's derived values: the first-seen list of team members, the
  filtered tasks under the `"all"` sentinel, the selector's options and the
  empty-state condition;
- the add-task form, a class with three text fields, their change handlers and
  a gated `Submit` that returns `Option<NewTask>`;
- a task item's overdue flag, its facets and the intents it emits;
- the stats card's completion rate, in exact integer arithmetic.

Files: `wrappers.dfy` (Option), `tasks.dfy` (shared records and counting
functions), `string_order.dfy` (Python's `str` ordering and sorted insertion),
`backend.dfy`, `task_list.dfy`, `task_form.dfy`, `task_item.dfy`,
`stats_card.dfy`.

Three behaviours of the code worth knowing:

- The service does not require a non-empty title, assignee or date; only the
  form does. `CreateRecord` therefore accepts any strings.
- There are two different team-member lists. The service's drops empty
  assignees and sorts; the task list's keeps empty ones and uses first-seen
  order. Both are modelled.
- The `"all"` sentinel shares its name space with assignees. A person literally
  called "all" gets a selector option, but choosing it shows every task.
  `TaskList.PersonNamedAllCannotBeSingledOut` proves that such a person's tasks
  can never be shown on their own once anyone else has a task.

## Model

| member | source | states |
|---|---|---|
| `Tasks.CountSplits` | backend/main.py:109-113 | each of a person's tasks is counted as completed or as pending, so the person's count is the sum of the two |
| `Tasks.CountPositive` | backend/main.py:105-107 | a person has at least one task exactly when they are one of the assignees, i.e. exactly when the loop creates an entry for them |
| `Backend.CreateRecord` | backend/main.py:54-59 | the inserted row carries the request's title, assignee and due date unchanged (projecting it back gives the request) and is never completed |
| `Backend.TeamMembers` | backend/main.py:90-91 | the members are strictly ascending in Python's string order (so duplicate-free) and are exactly the non-empty assignees of the tasks |
| `Backend.TeamMembersIsSortedSet` | backend/main.py:90-91 | any strictly ascending listing of the distinct non-empty assignees equals the member list, so it is `sorted(set(...))` whatever the construction |
| `StringOrder.Below` | backend/main.py:91 | Python's `str` order: lexicographic by code point, a proper prefix first; proved irreflexive, asymmetric, transitive and total |
| `StringOrder.AscendingUnique` | backend/main.py:91 | two strictly ascending string sequences with the same elements are equal: a set has one sorted listing |
| `StringOrder.BelowTotal` | backend/main.py:91 | Python's string order compares any two different strings |
| `StringOrder.BelowTransitive` | backend/main.py:91 | Python's string order is transitive |
| `StringOrder.Insert` | backend/main.py:90-91 | inserting into a strictly ascending list keeps it strictly ascending and adds exactly the new value, once |
| `Backend.TallyTask` | backend/main.py:105-113 | one task creates its person's entry if missing, raises its total by one and exactly one of completed or pending by one, and changes no other entry |
| `Backend.GetStats` | backend/main.py:103-113 | the keys are exactly the assignees (no tasks gives no entries); each entry's total, completed and pending are that person's task, completed-task and open-task counts; total = completed + pending |
| `Backend.TotalsSumToTaskCount` | backend/main.py:104-109 | in statistics shaped as `GetStats` returns them, the totals over all entries add up to the number of tasks |
| `Backend.SumTotalsRemove` | backend/main.py:104-109 | the sum of totals can be split at any entry |
| `TaskList.FirstIndex` | frontend/src/components/TaskList.jsx:9 | gives the first position where a value occurs: it holds the value and no earlier position does |
| `TaskList.AssignedValues` | frontend/src/components/TaskList.jsx:9 | the mapped list has one entry per task, each that task's `assigned_to`, in task order, so its values are exactly the assignees |
| `TaskList.Distinct` | frontend/src/components/TaskList.jsx:9 | the result has no duplicates, holds exactly the input's values, and lists them in order of first occurrence |
| `TaskList.TeamMembers` | frontend/src/components/TaskList.jsx:9 | team members are duplicate-free, are exactly the assignees of the tasks (empty ones included), in first-seen order |
| `TaskList.Matching` | frontend/src/components/TaskList.jsx:14 | the filtered tasks are an order-preserving subsequence of the tasks, all assigned to the filter value, as many as that person's tasks |
| `TaskList.MatchingUnique` | frontend/src/components/TaskList.jsx:14 | any subsequence made of the person's tasks and holding all of them equals the filtered list, so those facts determine it |
| `TaskList.FilteredTasks` | frontend/src/components/TaskList.jsx:12-14 | the tasks shown for a filter value: all of them for `"all"`, else that person's tasks; its properties are the three lemmas below |
| `TaskList.FilterAllKeepsTasks` | frontend/src/components/TaskList.jsx:12-13 | the `"all"` filter shows the tasks unchanged, in the same order, even when someone is assigned to "all" |
| `TaskList.FilterSelectsPerson` | frontend/src/components/TaskList.jsx:12-14 | any other filter shows an order-preserving subsequence made of that person's tasks, holding all of them and no more than the tasks |
| `TaskList.FilterIdempotent` | frontend/src/components/TaskList.jsx:12-14 | filtering the filtered list with the same filter gives the same list |
| `TaskList.SelectorOptions` | frontend/src/components/TaskList.jsx:21-24 | the options are `"all"` followed by the team members in their order, so the rest is duplicate-free, in first-seen order, and holds exactly the assignees |
| `TaskList.EmptyStateWhenNothingMatches` | frontend/src/components/TaskList.jsx:28 | the empty-state message shows exactly when there are no tasks (filter `"all"`) or nobody is assigned the filter value |
| `TaskList.ShowsEmptyState` | frontend/src/components/TaskList.jsx:28 | the empty-state message shows when the filtered list has no element; characterised by the lemma below |
| `TaskList.PersonNamedAllCannotBeSingledOut` | frontend/src/components/TaskList.jsx:12-13 | when someone is called "all" and someone else has a task, no filter value shows exactly that person's tasks |
| `AddTaskForm.TaskForm.Complete` | frontend/src/components/TaskForm.jsx:14 | a submit is let through exactly when no field is the empty (falsy) string |
| `AddTaskForm.TaskForm.constructor` | frontend/src/components/TaskForm.jsx:7-9 | a new form has all three fields empty and would not submit |
| `AddTaskForm.TaskForm.SetTitle` | frontend/src/components/TaskForm.jsx:33 | the title handler sets the title and leaves the other two fields alone |
| `AddTaskForm.TaskForm.SetAssignedTo` | frontend/src/components/TaskForm.jsx:38 | the assignee handler sets the assignee and leaves the other two fields alone |
| `AddTaskForm.TaskForm.SetDueDate` | frontend/src/components/TaskForm.jsx:44 | the date handler sets the due date and leaves the other two fields alone |
| `AddTaskForm.TaskForm.Submit` | frontend/src/components/TaskForm.jsx:11-25 | with any field empty nothing is emitted and no field changes; otherwise exactly the payload of the pre-submit values is emitted and all fields are cleared |
| `AddTaskForm.SubmitTwice` | frontend/src/components/TaskForm.jsx:14-24 | of two submits in a row, the first behaves as `Submit` (emission and fields: cleared after a success, unchanged otherwise) and the second always emits nothing |
| `TaskItem.IsOverdue` | frontend/src/components/TaskItem.jsx:6 | a task is overdue when its due instant is strictly before now and it is not completed; its consequences are the three lemmas below |
| `TaskItem.Render` | frontend/src/components/TaskItem.jsx:6-20 | the "completed" class shows iff the task is completed, the "overdue" class and label show iff it is overdue, and the two never show together |
| `TaskItem.OnToggle` | frontend/src/components/TaskItem.jsx:13 | the checkbox emits a toggle with the task's id and its current completion value, not the inverted one |
| `TaskItem.OnDelete` | frontend/src/components/TaskItem.jsx:23 | the delete button emits only the task's id |
| `TaskItem.CompletedNeverOverdue` | frontend/src/components/TaskItem.jsx:6 | a completed task is never overdue, whatever its due date |
| `TaskItem.OpenOverdueIffPastDue` | frontend/src/components/TaskItem.jsx:6 | an open task is overdue iff its due instant is strictly before now; due exactly now is not overdue |
| `TaskItem.ToggleClearsOverdue` | frontend/src/components/TaskItem.jsx:6-13 | an open task past its date is overdue, and completing it as its toggle intent asks clears the flag regardless of the date |
| `StatsCard.CompletionRate` | frontend/src/components/StatsCard.jsx:6-8 | no tasks gives 0; otherwise the rate is the integer nearest to 100 × completed / total, halves rounded up |
| `StatsCard.Show` | frontend/src/components/StatsCard.jsx:15-23 | the card shows the completed and pending counts as received and the completion rate of the entry |
| `StatsCard.RateBounds` | frontend/src/components/StatsCard.jsx:6-7 | with completed at most total the rate lies between 0 and 100 |
| `StatsCard.RateExtremes` | frontend/src/components/StatsCard.jsx:6-8 | everything done (total > 0) gives 100; nothing done gives 0 |
| `StatsCard.RateMonotone` | frontend/src/components/StatsCard.jsx:7 | for a fixed total the rate never decreases as completed grows |
| `StatsCard.RateThreeOfFour` | frontend/src/components/StatsCard.jsx:6-19 | an entry with 3 of 4 tasks completed and 1 pending shows 3, 1 and 75% |

## Left out

- frontend/src/App.jsx: fetching, the loading flag, the confirmation prompt before a delete, logging, and the last-write-wins race between overlapping re-fetches. This is I/O, asynchrony and concurrency, not sequential rules.
- The web framework, CORS and environment setup, and all database calls (backend/main.py:9-26, 37-48, 64-82, 88, 99). This includes `get_tasks`'s ordering by due date, the id-matched update and delete, and the mapping of exceptions to HTTP 500. `TaskUpdate` appears only as a record shape.
- The service's `completion_rate` (backend/main.py:115-119): it is float division with Python's `round(..., 1)` on doubles.
- StatsCard.CompletionRate: computed exactly as the nearest integer with halves rounded up. The source divides and multiplies in doubles, so the model does not claim agreement on `.5` boundaries (57 of 200 gives 28.4999… there, so 28, while the model gives 29).
- TaskItem.IsOverdue: the due instant and the current instant are integers the caller supplies. Parsing `due_date` with `new Date(...)`, time zones and reading the clock are left out. A date that does not parse is never overdue in the source; the model has no such value. A date-only string parses as midnight UTC at the start of that day, so the source already flags an open task overdue during its own due day, and west of UTC from the evening before; the model inherits this only through the instant the caller supplies.
- Tasks.Task: `assigned_to` is always a string and `completed` always a boolean. A null `assigned_to` from the database is not modelled: `get_stats` would make a `None` key of it, the task list would list `null` as a member, and `get_team_members` drops it as falsy. A null `completed` is not modelled either: `get_stats` counts it as pending.
- Backend.GetStats: the statistics are a Dafny `map`, which has no order. The dictionary the service builds and returns keeps its keys in the order each person is first seen, and the UI renders the cards in that order, except that names which are array indices, such as "7", come first in ascending numeric order; the model keeps the entries but not their order.
- JSX markup, CSS classes other than the two facets, React keys, and the alert shown on a blocked submit are rendering only.
- React batches its state updates. The form is modelled as fields that `Submit` updates in sequence, so a second submit sees the cleared fields.

/**
 * The task list's derivations (frontend/src/components/TaskList.jsx): the
 * team members offered by the selector, the filtered tasks, the selector's
 * options and the empty-state condition. All are recomputed from the current
 * tasks and filter on every render.
 */
module TaskList {
  import opened Tasks

  /** The filter value that shows every task. */
  const AllFilter: string := "all"

  /** `tasks.map(task => task.assigned_to)`. */
  function AssignedValues(tasks: seq<Task>): (values: seq<string>)
    ensures |values| == |tasks|
    ensures forall i :: 0 <= i < |tasks| ==> values[i] == tasks[i].assignedTo
    ensures forall v :: v in values <==> v in Assignees(tasks)
  {
    var values := seq(|tasks|, i requires 0 <= i < |tasks| => tasks[i].assignedTo);
    forall v | v in Assignees(tasks)
      ensures v in values
    {
      var t :| t in tasks && t.assignedTo == v;
      var i :| 0 <= i < |tasks| && tasks[i] == t;
      assert values[i] == v;
    }
    values
  }

  predicate NoDuplicates(xs: seq<string>)
  {
    forall i, j :: 0 <= i < j < |xs| ==> xs[i] != xs[j]
  }

  /** The position of the first occurrence of `x` in `xs`. */
  function FirstIndex(xs: seq<string>, x: string): (k: nat)
    requires x in xs
    ensures k < |xs| && xs[k] == x && x !in xs[..k]
  {
    var init := xs[..|xs| - 1];
    assert xs == init + [xs[|xs| - 1]];
    if x in init then
      var k := FirstIndex(init, x);
      assert xs[..k] == init[..k];
      k
    else
      |xs| - 1
  }

  /** The elements of `r` are listed in the order of their first occurrence in `xs`. */
  predicate FirstSeenOrder(r: seq<string>, xs: seq<string>)
  {
    forall i, j :: 0 <= i < j < |r| ==> r[i] in xs && r[j] in xs && FirstIndex(xs, r[i]) < FirstIndex(xs, r[j])
  }

  /** `[...new Set(xs)]`: each value once, at the place it was first seen. */
  function Distinct(xs: seq<string>): (r: seq<string>)
    ensures NoDuplicates(r)
    ensures forall x :: x in r <==> x in xs
    ensures FirstSeenOrder(r, xs)
  {
    if xs == [] then []
    else
      var init := xs[..|xs| - 1];
      var last := xs[|xs| - 1];
      assert xs == init + [last];
      var r := Distinct(init);
      if last in r then r
      else
        forall i | 0 <= i < |r|
          ensures FirstIndex(xs, r[i]) == FirstIndex(init, r[i])
        {
          var k := FirstIndex(init, r[i]);
          assert xs[..k] == init[..k];
        }
        r + [last]
  }

  /** The selector's team members, empty assignees included. */
  function TeamMembers(tasks: seq<Task>): (members: seq<string>)
    ensures NoDuplicates(members)
    ensures forall m :: m in members <==> m in Assignees(tasks)
    ensures FirstSeenOrder(members, AssignedValues(tasks))
  {
    Distinct(AssignedValues(tasks))
  }

  /** `tasks.filter(task => task.assigned_to === person)`. */
  function Matching(tasks: seq<Task>, person: string): (r: seq<Task>)
    ensures IsSubsequence(r, tasks)
    ensures forall t :: t in r ==> t.assignedTo == person
    ensures |r| == Count(tasks, person)
  {
    if tasks == [] then []
    else
      var init := tasks[..|tasks| - 1];
      var last := tasks[|tasks| - 1];
      var rest := Matching(init, person);
      if last.assignedTo == person then
        assert (rest + [last])[..|rest|] == rest;
        rest + [last]
      else
        assert rest != [] ==> rest[|rest| - 1] in rest;
        rest
  }

  /** `r` is `s` with some elements left out, the rest kept in their order. */
  predicate IsSubsequence<T(==)>(r: seq<T>, s: seq<T>)
    decreases |s|
  {
    if r == [] then true
    else if s == [] then false
    else if r[|r| - 1] == s[|s| - 1] then IsSubsequence(r[..|r| - 1], s[..|s| - 1])
    else IsSubsequence(r, s[..|s| - 1])
  }

  /** A subsequence made of one person's tasks has at most that person's task count. */
  lemma {:induction false} MatchingSubsequenceBound(r: seq<Task>, tasks: seq<Task>, person: string)
    requires IsSubsequence(r, tasks)
    requires forall t :: t in r ==> t.assignedTo == person
    ensures |r| <= Count(tasks, person)
    decreases |tasks|
  {
    if r != [] {
      var init := tasks[..|tasks| - 1];
      if r[|r| - 1] == tasks[|tasks| - 1] {
        var front := r[..|r| - 1];
        assert forall t :: t in front ==> t in r;
        assert r[|r| - 1] in r;
        MatchingSubsequenceBound(front, init, person);
      } else {
        MatchingSubsequenceBound(r, init, person);
      }
    }
  }

  /**
   * The three facts `Matching` ensures pin its result down: the only
   * subsequence of `tasks` made of `person`'s tasks that has all of them.
   */
  lemma {:induction false} MatchingUnique(tasks: seq<Task>, person: string, r: seq<Task>)
    requires IsSubsequence(r, tasks)
    requires forall t :: t in r ==> t.assignedTo == person
    requires |r| == Count(tasks, person)
    ensures r == Matching(tasks, person)
    decreases |tasks|
  {
    if tasks != [] && r != [] {
      var init := tasks[..|tasks| - 1];
      var last := tasks[|tasks| - 1];
      if r[|r| - 1] == last {
        var front := r[..|r| - 1];
        assert r[|r| - 1] in r;
        assert forall t :: t in front ==> t in r;
        MatchingUnique(init, person, front);
        assert r == front + [last];
      } else if last.assignedTo == person {
        MatchingSubsequenceBound(r, init, person);
        assert false;
      } else {
        MatchingUnique(init, person, r);
      }
    }
  }

  /** The tasks the list shows for the selected filter. */
  function FilteredTasks(tasks: seq<Task>, filter: string): seq<Task>
  {
    if filter == AllFilter then tasks else Matching(tasks, filter)
  }

  /** The `"all"` filter shows the tasks unchanged, even when someone is literally called "all". */
  lemma FilterAllKeepsTasks(tasks: seq<Task>)
    ensures FilteredTasks(tasks, AllFilter) == tasks
  {
  }

  /** Any other filter shows exactly that person's tasks, in their order. */
  lemma FilterSelectsPerson(tasks: seq<Task>, filter: string)
    requires filter != AllFilter
    ensures IsSubsequence(FilteredTasks(tasks, filter), tasks)
    ensures forall t :: t in FilteredTasks(tasks, filter) ==> t.assignedTo == filter
    ensures |FilteredTasks(tasks, filter)| == Count(tasks, filter) <= |tasks|
  {
  }

  /** A sequence of one person's tasks is its own filtered view. */
  lemma {:induction false} MatchingAllMatch(tasks: seq<Task>, person: string)
    requires forall t :: t in tasks ==> t.assignedTo == person
    ensures Matching(tasks, person) == tasks
  {
    if tasks != [] {
      var init := tasks[..|tasks| - 1];
      assert tasks[|tasks| - 1] in tasks;
      assert forall t :: t in init ==> t in tasks;
      MatchingAllMatch(init, person);
      assert tasks == init + [tasks[|tasks| - 1]];
    }
  }

  /** Filtering the filtered list again with the same filter changes nothing. */
  lemma FilterIdempotent(tasks: seq<Task>, filter: string)
    ensures FilteredTasks(FilteredTasks(tasks, filter), filter) == FilteredTasks(tasks, filter)
  {
    if filter != AllFilter {
      MatchingAllMatch(Matching(tasks, filter), filter);
    }
  }

  /** The selector offers `"all"` first, then one option per team member, in order. */
  function SelectorOptions(tasks: seq<Task>): (options: seq<string>)
    ensures |options| == 1 + |TeamMembers(tasks)|
    ensures options[0] == AllFilter
    ensures options[1..] == TeamMembers(tasks)
    ensures NoDuplicates(options[1..]) && FirstSeenOrder(options[1..], AssignedValues(tasks))
    ensures forall v :: v in options[1..] <==> v in Assignees(tasks)
  {
    var members := TeamMembers(tasks);
    assert ([AllFilter] + members)[1..] == members;
    [AllFilter] + members
  }

  /** The list shows its empty-state message instead of items. */
  predicate ShowsEmptyState(tasks: seq<Task>, filter: string)
  {
    |FilteredTasks(tasks, filter)| == 0
  }

  /** The empty-state message shows exactly when there is nothing to list under the filter. */
  lemma EmptyStateWhenNothingMatches(tasks: seq<Task>, filter: string)
    ensures ShowsEmptyState(tasks, filter) <==>
              if filter == AllFilter then tasks == [] else filter !in Assignees(tasks)
  {
    CountPositive(tasks, filter);
  }

  /**
   * Since the sentinel shares the name space of assignees, the tasks of a
   * person called "all" cannot be shown on their own once anyone else has a task.
   */
  lemma PersonNamedAllCannotBeSingledOut(tasks: seq<Task>, filter: string, other: Task)
    requires AllFilter in Assignees(tasks)
    requires other in tasks && other.assignedTo != AllFilter
    ensures FilteredTasks(tasks, filter) != Matching(tasks, AllFilter)
  {
    var alone := Matching(tasks, AllFilter);
    CountPositive(tasks, AllFilter);
    assert alone[0] in alone;
    if filter == AllFilter {
      assert other !in alone;
    } else {
      assert alone[0] !in Matching(tasks, filter);
    }
  }
}

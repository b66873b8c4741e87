/**
 * The service's own rules (backend/main.py): the record `create_task` inserts,
 * the sorted member list of `get_team_members`, and the per-person counters
 * `get_stats` accumulates in a dictionary as it walks the task list.
 */
module Backend {
  import opened Tasks
  import opened StringOrder

  /** The row `create_task` inserts; the database then assigns its `id`. */
  datatype TaskRow = TaskRow(title: string, assignedTo: string, dueDate: string, completed: bool)

  /** The request fields a row carries. */
  function RequestOf(row: TaskRow): NewTask
  {
    NewTask(row.title, row.assignedTo, row.dueDate)
  }

  /** The row for a create request: the three request fields, and never already completed. */
  function CreateRecord(task: NewTask): (row: TaskRow)
    ensures RequestOf(row) == task
    ensures !row.completed
  {
    TaskRow(task.title, task.assignedTo, task.dueDate, false)
  }

  /**
   * `sorted(set(...))` of the truthy `assigned_to` values: each non-empty
   * assignee is put into its place in the ascending list, once.
   */
  function TeamMembers(tasks: seq<Task>): (members: seq<string>)
    ensures StrictlyAscending(members)
    ensures forall m :: m in members <==> m != "" && m in Assignees(tasks)
  {
    if tasks == [] then []
    else
      var init := tasks[..|tasks| - 1];
      var who := tasks[|tasks| - 1].assignedTo;
      assert tasks == init + [tasks[|tasks| - 1]];
      var rest := TeamMembers(init);
      if who == "" then rest else Insert(rest, who)
  }

  /** The member list is the one ascending listing of the distinct non-empty assignees. */
  lemma TeamMembersIsSortedSet(tasks: seq<Task>, listing: seq<string>)
    requires StrictlyAscending(listing)
    requires forall m :: m in listing <==> m != "" && m in Assignees(tasks)
    ensures TeamMembers(tasks) == listing
  {
    AscendingUnique(TeamMembers(tasks), listing);
  }

  /**
   * One iteration of the aggregation loop: the task's person gets an entry
   * if missing, its `total` goes up by one and exactly one of `completed`
   * and `pending` goes up by one; no other entry changes.
   */
  method TallyTask(stats: map<string, Entry>, task: Task) returns (next: map<string, Entry>)
    ensures next.Keys == stats.Keys + {task.assignedTo}
    ensures forall p :: p in stats && p != task.assignedTo ==> next[p] == stats[p]
    ensures var before := if task.assignedTo in stats then stats[task.assignedTo] else Entry(0, 0, 0);
            var after := next[task.assignedTo];
            && after.total == before.total + 1
            && after.completed == before.completed + (if task.completed then 1 else 0)
            && after.pending == before.pending + (if task.completed then 0 else 1)
  {
    var person := task.assignedTo;
    next := stats;
    if person !in next {
      next := next[person := Entry(0, 0, 0)];
    }
    var entry := next[person];
    entry := entry.(total := entry.total + 1);
    if task.completed {
      entry := entry.(completed := entry.completed + 1);
    } else {
      entry := entry.(pending := entry.pending + 1);
    }
    next := next[person := entry];
  }

  /**
   * `get_stats`'s first loop: one entry per assignee occurring in `tasks`,
   * holding that person's task count, completed count and pending count.
   */
  method GetStats(tasks: seq<Task>) returns (stats: map<string, Entry>)
    ensures stats.Keys == Assignees(tasks)
    ensures tasks == [] ==> stats == map[]
    ensures forall p :: p in stats ==> stats[p].total == Count(tasks, p)
    ensures forall p :: p in stats ==> stats[p].completed == CompletedCount(tasks, p)
    ensures forall p :: p in stats ==> stats[p].pending == PendingCount(tasks, p)
    ensures forall p :: p in stats ==> stats[p].total == stats[p].completed + stats[p].pending
  {
    stats := map[];
    for i := 0 to |tasks|
      invariant stats.Keys == Assignees(tasks[..i])
      invariant forall p :: p in stats ==>
                  stats[p] == Entry(Count(tasks[..i], p), CompletedCount(tasks[..i], p), PendingCount(tasks[..i], p))
    {
      assert tasks[..i + 1][..i] == tasks[..i];
      AssigneesSnoc(tasks, i);
      forall p | p !in stats
        ensures Count(tasks[..i], p) == 0 && CompletedCount(tasks[..i], p) == 0 && PendingCount(tasks[..i], p) == 0
      {
        CountPositive(tasks[..i], p);
        CountSplits(tasks[..i], p);
      }
      stats := TallyTask(stats, tasks[i]);
    }
    assert tasks[..|tasks|] == tasks;
    forall p | p in stats
      ensures stats[p].total == stats[p].completed + stats[p].pending
    {
      CountSplits(tasks, p);
    }
  }

  /** The sum of the `total` counters over all entries. */
  ghost function SumTotals(stats: map<string, Entry>): nat
    decreases |stats|
  {
    if stats == map[] then 0
    else
      var p :| p in stats;
      assert (stats - {p}).Keys == stats.Keys - {p};
      stats[p].total + SumTotals(stats - {p})
  }

  /** The sum may peel off any entry, not only the one its definition chooses. */
  lemma {:induction false} SumTotalsRemove(stats: map<string, Entry>, q: string)
    requires q in stats
    ensures SumTotals(stats) == stats[q].total + SumTotals(stats - {q})
    decreases |stats|
  {
    var p :| p in stats && SumTotals(stats) == stats[p].total + SumTotals(stats - {p});
    if p != q {
      assert (stats - {p}).Keys == stats.Keys - {p};
      assert (stats - {q}).Keys == stats.Keys - {q};
      SumTotalsRemove(stats - {p}, q);
      SumTotalsRemove(stats - {q}, p);
      assert stats - {p} - {q} == stats - {q} - {p};
    }
  }

  /** Entries holding each person's task count sum to the tasks counted for their key set. */
  lemma {:induction false} SumTotalsCounts(tasks: seq<Task>, stats: map<string, Entry>)
    requires forall p :: p in stats ==> stats[p].total == Count(tasks, p)
    ensures SumTotals(stats) == CountIn(tasks, stats.Keys)
    decreases |stats|
  {
    if stats != map[] {
      var q :| q in stats;
      SumTotalsRemove(stats, q);
      assert (stats - {q}).Keys == stats.Keys - {q};
      SumTotalsCounts(tasks, stats - {q});
      CountInRemove(tasks, stats.Keys, q);
    } else {
      CountInNobody(tasks);
    }
  }

  /** Statistics as `GetStats` produces them account for every task exactly once. */
  lemma TotalsSumToTaskCount(tasks: seq<Task>, stats: map<string, Entry>)
    requires stats.Keys == Assignees(tasks)
    requires forall p :: p in stats ==> stats[p].total == Count(tasks, p)
    ensures SumTotals(stats) == |tasks|
  {
    SumTotalsCounts(tasks, stats);
    CountInCovering(tasks, stats.Keys);
  }
}

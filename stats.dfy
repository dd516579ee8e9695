/**
 The dashboard's summary counters (`stats`, App.tsx): the number of tasks,
 and for each status the length of the list of tasks with that status.
 */
module TaskStats {
  import opened TaskTypes

  /** `tasks.filter(t => t.status === status)`: only tasks of that status, never more than the list holds. */
  function WithStatus(tasks: seq<Task>, status: TaskStatus): (r: seq<Task>)
    ensures |r| <= |tasks|
    ensures forall t :: t in r ==> t.status == status
  {
    if |tasks| == 0 then []
    else
      var rest := WithStatus(tasks[1..], status);
      if tasks[0].status == status then [tasks[0]] + rest else rest
  }

  /**
   The four counters, computed over the whole (unfiltered) task list. Each
   per-status counter is the number of tasks with that status. Every task has
   exactly one of the three statuses, so the three counters add up to the
   total, and each of them is at most the total.
   */
  function Stats(tasks: seq<Task>): (r: AppStats)
    ensures r.total == |tasks|
    ensures r.pending + r.inProgress + r.completed == r.total
    ensures r.pending <= r.total && r.inProgress <= r.total && r.completed <= r.total
    ensures r.pending == multiset(Statuses(tasks))[Pending]
    ensures r.inProgress == multiset(Statuses(tasks))[InProgress]
    ensures r.completed == multiset(Statuses(tasks))[Completed]
  {
    StatusCountsPartition(tasks);
    WithStatusCount(tasks, Pending);
    WithStatusCount(tasks, InProgress);
    WithStatusCount(tasks, Completed);
    AppStats(
      total := |tasks|,
      pending := |WithStatus(tasks, Pending)|,
      completed := |WithStatus(tasks, Completed)|,
      inProgress := |WithStatus(tasks, InProgress)|
    )
  }

  /** The three status-filtered lists together are as long as the task list. */
  lemma {:induction false} StatusCountsPartition(tasks: seq<Task>)
    ensures |WithStatus(tasks, Pending)| + |WithStatus(tasks, InProgress)| + |WithStatus(tasks, Completed)| == |tasks|
  {
    if |tasks| > 0 {
      StatusCountsPartition(tasks[1..]);
    }
  }

  /** The status of each task, in list order. */
  function Statuses(tasks: seq<Task>): (r: seq<TaskStatus>)
    ensures |r| == |tasks|
    ensures forall i :: 0 <= i < |tasks| ==> r[i] == tasks[i].status
  {
    seq(|tasks|, i requires 0 <= i < |tasks| => tasks[i].status)
  }

  /** The status-filtered list holds exactly the tasks of the input with that status. */
  lemma {:induction false} WithStatusMembers(tasks: seq<Task>, status: TaskStatus)
    ensures forall t :: t in WithStatus(tasks, status) <==> t in tasks && t.status == status
  {
    if |tasks| > 0 {
      WithStatusMembers(tasks[1..], status);
      assert tasks == [tasks[0]] + tasks[1..];
    }
  }

  /**
   The length of the status-filtered list is the number of occurrences of the
   status in the list of statuses.
   */
  lemma {:induction false} WithStatusCount(tasks: seq<Task>, status: TaskStatus)
    ensures |WithStatus(tasks, status)| == multiset(Statuses(tasks))[status]
  {
    if |tasks| > 0 {
      WithStatusCount(tasks[1..], status);
      assert Statuses(tasks) == [tasks[0].status] + Statuses(tasks[1..]);
    }
  }

  /**
   Counting is additive over list concatenation: the counters of `a + b` are
   the field-wise sums of the counters of `a` and of `b`. In particular adding
   one task raises the total and exactly the counter of that task's status by one.
   */
  lemma {:induction false} StatsOfConcat(a: seq<Task>, b: seq<Task>)
    ensures var sa, sb, sab := Stats(a), Stats(b), Stats(a + b);
            && sab.total == sa.total + sb.total
            && sab.pending == sa.pending + sb.pending
            && sab.inProgress == sa.inProgress + sb.inProgress
            && sab.completed == sa.completed + sb.completed
  {
    forall s: TaskStatus ensures |WithStatus(a + b, s)| == |WithStatus(a, s)| + |WithStatus(b, s)| {
      WithStatusConcat(a, b, s);
    }
  }

  lemma {:induction false} WithStatusConcat(a: seq<Task>, b: seq<Task>, status: TaskStatus)
    ensures WithStatus(a + b, status) == WithStatus(a, status) + WithStatus(b, status)
  {
    if |a| > 0 {
      WithStatusConcat(a[1..], b, status);
      assert (a + b)[1..] == a[1..] + b;
    } else {
      assert a + b == b;
    }
  }
}

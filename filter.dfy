/**
 The task-list filter of the dashboard (`filteredTasks`, App.tsx): a task is
 shown when the lower-cased search term occurs in its lower-cased title or
 lower-cased assignee, and the selected role is the `All` sentinel or the
 task's own role. The result keeps the input order.
 */
module TaskFilter {
  import opened TaskTypes
  import opened JsText

  /**
   The search half of the test: a case-insensitive substring match on title or
   assignee. It holds exactly when the lower-cased term occurs at some position
   of the lower-cased title or of the lower-cased assignee; the empty term
   matches every task.
   */
  function MatchesSearch(t: Task, searchTerm: string): (r: bool)
    ensures r <==> ((exists i :: OccursAt(Lower(t.task), Lower(searchTerm), i)) ||
                    (exists i :: OccursAt(Lower(t.assignee), Lower(searchTerm), i)))
    ensures |searchTerm| == 0 ==> r
  {
    IncludesIffOccurs(Lower(t.task), Lower(searchTerm));
    IncludesIffOccurs(Lower(t.assignee), Lower(searchTerm));
    Includes(Lower(t.task), Lower(searchTerm)) || Includes(Lower(t.assignee), Lower(searchTerm))
  }

  /** The role half of the test: the sentinel matches every task, any other role only tasks of that role. */
  function MatchesRole(t: Task, filterRole: DirectorRole): (r: bool)
    ensures filterRole == All ==> r
    ensures filterRole != All ==> (r <==> t.role == filterRole)
  {
    filterRole == All || t.role == filterRole
  }

  /**
   The predicate handed to `tasks.filter`: an empty term under the sentinel
   keeps every task, and a kept task has the selected role unless the
   sentinel is selected.
   */
  function Keep(t: Task, searchTerm: string, filterRole: DirectorRole): (r: bool)
    ensures |searchTerm| == 0 && filterRole == All ==> r
    ensures r ==> filterRole == All || t.role == filterRole
  {
    MatchesSearch(t, searchTerm) && MatchesRole(t, filterRole)
  }

  /** `tasks.filter(Keep)`: the kept tasks, left to right. */
  function FilterTasks(tasks: seq<Task>, searchTerm: string, filterRole: DirectorRole): (r: seq<Task>)
    ensures |r| <= |tasks|
  {
    if |tasks| == 0 then []
    else
      var rest := FilterTasks(tasks[1..], searchTerm, filterRole);
      if Keep(tasks[0], searchTerm, filterRole) then [tasks[0]] + rest else rest
  }

  /** Every position of `idx`, shifted one to the right. */
  function Shift(idx: seq<nat>): (r: seq<nat>)
    ensures |r| == |idx|
    ensures forall k :: 0 <= k < |idx| ==> r[k] == idx[k] + 1
  {
    seq(|idx|, k requires 0 <= k < |idx| => idx[k] + 1)
  }

  /** The positions of `tasks` whose task passes the filter, in increasing order. */
  function KeptPositions(tasks: seq<Task>, searchTerm: string, filterRole: DirectorRole): seq<nat>
  {
    if |tasks| == 0 then []
    else
      var rest := Shift(KeptPositions(tasks[1..], searchTerm, filterRole));
      if Keep(tasks[0], searchTerm, filterRole) then [0] + rest else rest
  }

  /** Each kept position points into `tasks` at the task that the filter result holds there. */
  lemma {:induction false} KeptPositionsSelect(tasks: seq<Task>, searchTerm: string, filterRole: DirectorRole)
    ensures var r := FilterTasks(tasks, searchTerm, filterRole);
            var idx := KeptPositions(tasks, searchTerm, filterRole);
            && |idx| == |r|
            && forall k :: 0 <= k < |idx| ==> idx[k] < |tasks| && r[k] == tasks[idx[k]]
  {
    if |tasks| > 0 {
      var tail := tasks[1..];
      KeptPositionsSelect(tail, searchTerm, filterRole);
      var r', idx' := FilterTasks(tail, searchTerm, filterRole), KeptPositions(tail, searchTerm, filterRole);
      var rest := Shift(idx');
      forall k | 0 <= k < |rest| ensures rest[k] < |tasks| && r'[k] == tasks[rest[k]] {
        assert tail[idx'[k]] == tasks[idx'[k] + 1];
      }
      if Keep(tasks[0], searchTerm, filterRole) {
        var r, idx := [tasks[0]] + r', [0] + rest;
        forall k | 0 < k < |idx| ensures idx[k] < |tasks| && r[k] == tasks[idx[k]] {
          assert idx[k] == rest[k - 1] && r[k] == r'[k - 1];
        }
      }
    }
  }

  predicate StrictlyIncreasing(idx: seq<nat>) {
    forall k, m :: 0 <= k < m < |idx| ==> idx[k] < idx[m]
  }

  /** The kept positions are strictly increasing. */
  lemma {:induction false} KeptPositionsIncreasing(tasks: seq<Task>, searchTerm: string, filterRole: DirectorRole)
    ensures StrictlyIncreasing(KeptPositions(tasks, searchTerm, filterRole))
  {
    if |tasks| > 0 {
      KeptPositionsIncreasing(tasks[1..], searchTerm, filterRole);
      var idx' := KeptPositions(tasks[1..], searchTerm, filterRole);
      var rest := Shift(idx');
      forall k, m | 0 <= k < m < |rest| ensures 0 < rest[k] < rest[m] {
        assert idx'[k] < idx'[m];
      }
      if Keep(tasks[0], searchTerm, filterRole) {
        var idx := [0] + rest;
        forall k, m | 0 <= k < m < |idx| ensures idx[k] < idx[m] {
          assert idx[m] == rest[m - 1];
          if k > 0 { assert idx[k] == rest[k - 1]; }
        }
      }
    }
  }

  /** A position is kept if and only if the task there passes the test. */
  lemma {:induction false} KeptPositionsExact(tasks: seq<Task>, searchTerm: string, filterRole: DirectorRole)
    ensures var idx := KeptPositions(tasks, searchTerm, filterRole);
            forall j :: 0 <= j < |tasks| ==> (j in idx <==> Keep(tasks[j], searchTerm, filterRole))
  {
    if |tasks| > 0 {
      var tail := tasks[1..];
      KeptPositionsExact(tail, searchTerm, filterRole);
      var idx' := KeptPositions(tail, searchTerm, filterRole);
      var s := Shift(idx');
      forall j | 0 < j < |tasks|
        ensures j in s <==> Keep(tasks[j], searchTerm, filterRole)
      {
        assert tasks[j] == tail[j - 1];
        if j in s {
          var k :| 0 <= k < |s| && s[k] == j;
          assert idx'[k] == j - 1;
        }
        if j - 1 in idx' {
          var k :| 0 <= k < |idx'| && idx'[k] == j - 1;
          assert s[k] == j;
        }
      }
      assert 0 !in s;
    }
  }

  /**
   The filter result is the subsequence of `tasks` at exactly the positions
   whose task passes the test: the positions are strictly increasing (order is
   kept), each result element is the task at its position, and a position is
   chosen if and only if its task passes.
   */
  lemma FilterIsSubsequence(tasks: seq<Task>, searchTerm: string, filterRole: DirectorRole)
    ensures var r := FilterTasks(tasks, searchTerm, filterRole);
            var idx := KeptPositions(tasks, searchTerm, filterRole);
            && |idx| == |r|
            && (forall k :: 0 <= k < |idx| ==> idx[k] < |tasks| && r[k] == tasks[idx[k]])
            && StrictlyIncreasing(idx)
            && (forall j :: 0 <= j < |tasks| ==> (j in idx <==> Keep(tasks[j], searchTerm, filterRole)))
  {
    KeptPositionsSelect(tasks, searchTerm, filterRole);
    KeptPositionsIncreasing(tasks, searchTerm, filterRole);
    KeptPositionsExact(tasks, searchTerm, filterRole);
  }

  /** A task is in the result if and only if it is in the input and passes the test. */
  lemma {:induction false} FilterMembership(tasks: seq<Task>, searchTerm: string, filterRole: DirectorRole, t: Task)
    ensures t in FilterTasks(tasks, searchTerm, filterRole) <==> t in tasks && Keep(t, searchTerm, filterRole)
  {
    if |tasks| > 0 {
      FilterMembership(tasks[1..], searchTerm, filterRole, t);
      assert tasks == [tasks[0]] + tasks[1..];
    }
  }

  /**
   With a specific role selected, every shown task has that role and matches
   the search term.
   */
  lemma SpecificRoleOnly(tasks: seq<Task>, searchTerm: string, filterRole: DirectorRole)
    requires filterRole != All
    ensures forall t :: t in FilterTasks(tasks, searchTerm, filterRole) ==>
              t.role == filterRole && MatchesSearch(t, searchTerm)
  {
    forall t | t in FilterTasks(tasks, searchTerm, filterRole)
      ensures t.role == filterRole && MatchesSearch(t, searchTerm)
    {
      FilterMembership(tasks, searchTerm, filterRole, t);
    }
  }

  /** An empty search term together with the `All` sentinel shows the whole list unchanged. */
  lemma {:induction false} EmptySearchAllRolesIsIdentity(tasks: seq<Task>)
    ensures FilterTasks(tasks, "", All) == tasks
  {
    if |tasks| > 0 {
      EmptySearchAllRolesIsIdentity(tasks[1..]);
      assert Lower("") == "";
      assert [tasks[0]] + tasks[1..] == tasks;
    }
  }

  /** Filtering the shown list again with the same term and role changes nothing. */
  lemma {:induction false} FilterIdempotent(tasks: seq<Task>, searchTerm: string, filterRole: DirectorRole)
    ensures var r := FilterTasks(tasks, searchTerm, filterRole);
            FilterTasks(r, searchTerm, filterRole) == r
  {
    if |tasks| > 0 {
      FilterIdempotent(tasks[1..], searchTerm, filterRole);
      var rest := FilterTasks(tasks[1..], searchTerm, filterRole);
      if Keep(tasks[0], searchTerm, filterRole) {
        assert ([tasks[0]] + rest)[1..] == rest;
      }
    }
  }

  /**
   The two halves of the test can be applied one after the other: with the
   `All` sentinel only the search half is applied, and the role half is then
   the filter with an empty search term.
   */
  lemma {:induction false} FilterBySearchThenRole(tasks: seq<Task>, searchTerm: string, filterRole: DirectorRole)
    ensures FilterTasks(tasks, searchTerm, filterRole)
         == FilterTasks(FilterTasks(tasks, searchTerm, All), "", filterRole)
  {
    if |tasks| > 0 {
      FilterBySearchThenRole(tasks[1..], searchTerm, filterRole);
      var rest := FilterTasks(tasks[1..], searchTerm, All);
      assert Lower("") == "";
      if MatchesSearch(tasks[0], searchTerm) {
        assert ([tasks[0]] + rest)[1..] == rest;
      }
    }
  }

  /** The search is case-insensitive: lower-casing the term first does not change the result. */
  lemma {:induction false} SearchIgnoresTermCase(tasks: seq<Task>, searchTerm: string, filterRole: DirectorRole)
    ensures FilterTasks(tasks, Lower(searchTerm), filterRole) == FilterTasks(tasks, searchTerm, filterRole)
  {
    LowerIdempotent(searchTerm);
    if |tasks| > 0 {
      SearchIgnoresTermCase(tasks[1..], searchTerm, filterRole);
    }
  }

  /** Searching "ana" finds a task assigned to "Ana Silva", under every role filter that admits its role. */
  lemma SearchFindsAssigneeIgnoringCase(t: Task, filterRole: DirectorRole)
    requires t.assignee == "Ana Silva"
    requires MatchesRole(t, filterRole)
    ensures FilterTasks([t], "ana", filterRole) == [t]
  {
    assert Lower("ana") == "ana";
    assert Lower(t.assignee) == "ana silva";
    assert Lower(t.assignee)[..3] == "ana";
  }
}

/**
 * The dashboard's split of the task list into the open tasks and the
 * completed ones, and what it shows of each.
 */
module Dashboard {
  import opened Wrappers
  import opened Schema

  /** The tasks whose completion flag is truthy exactly when `done`, in list order. */
  function Keep(ts: seq<Task>, done: bool): (r: seq<Task>)
    ensures |r| <= |ts|
    ensures forall i :: 0 <= i < |r| ==> IsCompleted(r[i]) == done
  {
    if ts == [] then []
    else (if IsCompleted(ts[0]) == done then [ts[0]] else []) + Keep(ts[1..], done)
  }

  /** `tasks?.filter(t => !t.completed) || []`; `None` is a list not loaded yet. */
  function ActiveTasks(tasks: Option<seq<Task>>): (r: seq<Task>)
    ensures |r| <= |tasks.GetOr([])|
    ensures forall i :: 0 <= i < |r| ==> !IsCompleted(r[i])
  {
    match tasks
    case None => []
    case Some(ts) => Keep(ts, false)
  }

  /** `tasks?.filter(t => t.completed) || []`. */
  function CompletedTasks(tasks: Option<seq<Task>>): (r: seq<Task>)
    ensures |r| <= |tasks.GetOr([])|
    ensures forall i :: 0 <= i < |r| ==> IsCompleted(r[i])
  {
    match tasks
    case None => []
    case Some(ts) => Keep(ts, true)
  }

  lemma {:induction false} KeepMembers(ts: seq<Task>, done: bool, t: Task)
    ensures t in Keep(ts, done) <==> t in ts && IsCompleted(t) == done
  {
    if ts != [] {
      KeepMembers(ts[1..], done, t);
      assert ts == [ts[0]] + ts[1..];
    }
  }

  /** The open list holds exactly the tasks whose `completed` is false or null. */
  lemma ActiveTasksMembers(ts: seq<Task>, t: Task)
    ensures t in ActiveTasks(Some(ts)) <==> t in ts && (t.completed == Some(false) || t.completed == None)
  {
    KeepMembers(ts, false, t);
    match t.completed
    case None =>
    case Some(b) => assert b || t.completed == Some(false);
  }

  /** The completed list holds exactly the tasks whose `completed` is true. */
  lemma CompletedTasksMembers(ts: seq<Task>, t: Task)
    ensures t in CompletedTasks(Some(ts)) <==> t in ts && t.completed == Some(true)
  {
    KeepMembers(ts, true, t);
  }

  /** Every task lies in exactly one of the two lists. */
  lemma ExactlyOneList(ts: seq<Task>, t: Task)
    requires t in ts
    ensures (t in ActiveTasks(Some(ts))) != (t in CompletedTasks(Some(ts)))
  {
    KeepMembers(ts, false, t);
    KeepMembers(ts, true, t);
  }

  /** Together the two lists are the task list, counted with multiplicity; their lengths add up to its length. */
  lemma PartitionCounts(ts: seq<Task>)
    ensures multiset(ActiveTasks(Some(ts))) + multiset(CompletedTasks(Some(ts))) == multiset(ts)
    ensures |ActiveTasks(Some(ts))| + |CompletedTasks(Some(ts))| == |ts|
  {
    KeepPartition(ts);
    assert |multiset(Keep(ts, false))| + |multiset(Keep(ts, true))| == |multiset(ts)|;
  }

  lemma {:induction false} KeepPartition(ts: seq<Task>)
    ensures multiset(Keep(ts, false)) + multiset(Keep(ts, true)) == multiset(ts)
  {
    if ts != [] {
      var h, t := ts[0], ts[1..];
      KeepPartition(t);
      assert multiset(ts) == multiset{h} + multiset(t) by {
        assert ts == [h] + t;
      }
      var same, other := IsCompleted(h), !IsCompleted(h);
      assert multiset(Keep(ts, same)) == multiset{h} + multiset(Keep(t, same)) by {
        assert Keep(ts, same) == [h] + Keep(t, same);
      }
      assert multiset(Keep(ts, other)) == multiset(Keep(t, other)) by {
        assert Keep(ts, other) == Keep(t, other);
      }
    }
  }

  /** Filtering distributes over concatenation, so each list keeps the relative order of the input. */
  lemma {:induction false} KeepAppend(a: seq<Task>, b: seq<Task>, done: bool)
    ensures Keep(a + b, done) == Keep(a, done) + Keep(b, done)
  {
    if a == [] {
      assert a + b == b;
    } else {
      assert (a + b)[0] == a[0] && (a + b)[1..] == a[1..] + b;
      KeepAppend(a[1..], b, done);
      var h := if IsCompleted(a[0]) == done then [a[0]] else [];
      assert Keep(a + b, done) == h + Keep(a[1..] + b, done);
      assert Keep(a, done) == h + Keep(a[1..], done);
    }
  }

  /** Before the list has loaded both lists are empty. */
  lemma NotLoaded()
    ensures ActiveTasks(None) == [] && CompletedTasks(None) == []
  {
  }

  /** The counter beside "Current Tasks". */
  function ActiveCount(tasks: Option<seq<Task>>): (n: nat)
    ensures n <= |tasks.GetOr([])|
    ensures tasks.None? ==> n == 0
  {
    |ActiveTasks(tasks)|
  }

  /** The "Completed" section is rendered only when there is a completed task. */
  predicate ShowsCompletedSection(tasks: Option<seq<Task>>)
    ensures ShowsCompletedSection(tasks) ==> tasks.Some? && tasks.value != []
  {
    |CompletedTasks(tasks)| > 0
  }

  lemma ShowsCompletedSectionIff(ts: seq<Task>)
    ensures ShowsCompletedSection(Some(ts)) <==> exists i :: 0 <= i < |ts| && IsCompleted(ts[i])
  {
    var c := CompletedTasks(Some(ts));
    if |c| > 0 {
      KeepMembers(ts, true, c[0]);
    } else {
      forall i | 0 <= i < |ts| ensures !IsCompleted(ts[i]) {
        KeepMembers(ts, true, ts[i]);
      }
    }
  }

  /** The counter counts the open tasks, and with the completed ones they make up the whole list. */
  lemma ActiveCountComplement(ts: seq<Task>)
    ensures ActiveCount(Some(ts)) == |ts| - |CompletedTasks(Some(ts))|
  {
    PartitionCounts(ts);
  }
}

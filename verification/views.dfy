/** The read side of the store: the filtered list `renderTasks` displays and
    the counts `updateStatus` reports. */
module Views {
  import opened Seqs
  import opened Tasks
  import Text
  import Store

  /** The list shown under filter value `filter`. The value is whatever the
      clicked button's `data-filter` attribute holds and is never validated:
      anything other than "active" or "completed" shows the whole list. */
  function View(tasks: seq<Task>, filter: string): (r: seq<Task>)
    ensures IsSubseq(r, tasks)
    ensures filter == "active" ==> forall t :: t in r <==> t in tasks && !t.completed
    ensures filter == "active" ==>
      forall t :: multiset(r)[t] == if t.completed then 0 else multiset(tasks)[t]
    ensures filter == "completed" ==> forall t :: t in r <==> t in tasks && t.completed
    ensures filter == "completed" ==>
      forall t :: multiset(r)[t] == if t.completed then multiset(tasks)[t] else 0
    ensures filter != "active" && filter != "completed" ==> r == tasks
  {
    if filter == "active" then
      FilterIsSubseq(tasks, IsActive);
      FilterMultiplicity(tasks, IsActive);
      Filter(tasks, IsActive)
    else if filter == "completed" then
      FilterIsSubseq(tasks, IsDone);
      FilterMultiplicity(tasks, IsDone);
      Filter(tasks, IsDone)
    else
      IsSubseqRefl(tasks);
      tasks
  }

  /** The number of active tasks, shown in the status line. It is at most the
      length of the list, and zero exactly when every task is completed. */
  function ActiveCount(tasks: seq<Task>): (n: nat)
    ensures n <= |tasks|
    ensures n == 0 <==> forall i :: 0 <= i < |tasks| ==> tasks[i].completed
  {
    FilterEmpty(tasks, IsActive);
    |Filter(tasks, IsActive)|
  }

  /** The number of completed tasks; the clear-completed button is shown only
      while it is positive. It is at most the length of the list, and zero
      exactly when no task is completed. */
  function CompletedCount(tasks: seq<Task>): (n: nat)
    ensures n <= |tasks|
    ensures n == 0 <==> forall i :: 0 <= i < |tasks| ==> !tasks[i].completed
  {
    FilterEmpty(tasks, IsDone);
    |Filter(tasks, IsDone)|
  }

  /** Every task is counted exactly once: as active or as completed. */
  lemma {:induction false} CountsPartition(tasks: seq<Task>)
    ensures ActiveCount(tasks) + CompletedCount(tasks) == |tasks|
    decreases |tasks|
  {
    if tasks != [] {
      CountsPartition(tasks[1..]);
    }
  }

  /** The counts are what the active and completed views show. */
  lemma CountsMatchViews(tasks: seq<Task>)
    ensures |View(tasks, "active")| == ActiveCount(tasks)
    ensures |View(tasks, "completed")| == CompletedCount(tasks)
    ensures |View(tasks, "all")| == ActiveCount(tasks) + CompletedCount(tasks)
  {
    CountsPartition(tasks);
  }

  /** After a confirmed clear nothing is completed, and the active count is
      what it was. */
  lemma ClearCompletedCounts(tasks: seq<Task>)
    ensures CompletedCount(Store.ClearCompleted(tasks, true)) == 0
    ensures ActiveCount(Store.ClearCompleted(tasks, true)) == ActiveCount(tasks)
  {
    var r := Store.ClearCompleted(tasks, true);
    FilterAll(r, IsActive);
  }

  /** A non-blank add adds one to the active count and leaves the completed count. */
  lemma AddCounts(tasks: seq<Task>, input: string, newId: int)
    ensures var r := Store.AddTask(tasks, input, newId);
            && ActiveCount(r) == ActiveCount(tasks) + (if Text.IsBlank(input) then 0 else 1)
            && CompletedCount(r) == CompletedCount(tasks)
  {
    var r := Store.AddTask(tasks, input, newId);
    if !Text.IsBlank(input) {
      FilterConcat(tasks, [r[|tasks|]], IsActive);
      FilterConcat(tasks, [r[|tasks|]], IsDone);
      assert r == tasks + [r[|tasks|]];
    }
  }

  /** Starting empty, add two labels, then mark the second task important:
      the full view lists both tasks in order, only the second important. */
  lemma AddAddPrioritise(first: string, second: string, firstId: int, secondId: int)
    requires ValidText(first) && ValidText(second)
    requires firstId != secondId
    ensures var s0 := Store.AddTask([], first, firstId);
            var s1 := Store.AddTask(s0, second, secondId);
            var s2 := Store.TogglePriority(s1, secondId);
            View(s2, "all") == [Task(firstId, first, false, false), Task(secondId, second, false, true)]
  {
    var a := Task(firstId, first, false, false);
    var b := Task(secondId, second, false, false);
    var s0 := Store.AddTask([], first, firstId);
    assert s0 == [a];
    var s1 := Store.AddTask(s0, second, secondId);
    assert s1[..1] == s0;
    assert s1 == [a, b];
    assert IsFirst(s1, 1, secondId) && !IsFirst(s1, 0, secondId);
    var s2 := Store.TogglePriority(s1, secondId);
    assert s2 == [a, b.(important := true)];
  }

  /** Starting empty, add "Buy milk", add "Call Bob", mark the second important:
      the full view lists both in that order, only the second important. */
  lemma AddThenPrioritiseScenario(milkId: int, bobId: int)
    requires milkId != bobId
    ensures var s0 := Store.AddTask([], "Buy milk", milkId);
            var s1 := Store.AddTask(s0, "Call Bob", bobId);
            var s2 := Store.TogglePriority(s1, bobId);
            View(s2, "all") == [Task(milkId, "Buy milk", false, false), Task(bobId, "Call Bob", false, true)]
  {
    Text.TrimOfTrimmed("Buy milk");
    Text.TrimOfTrimmed("Call Bob");
    AddAddPrioritise("Buy milk", "Call Bob", milkId, bobId);
  }
}

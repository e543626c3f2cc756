/** The task store's mutations: add, the two flag toggles, edit, delete and
    clear-completed. Each takes the list and returns the list the source leaves
    in `tasks`; the clock reading for a new id and the user's answer to a
    confirmation prompt are parameters. */
module Store {
  import opened Seqs
  import opened Text
  import opened Tasks

  /** The shape shared by the toggles and the edit: `tasks.find` the first task
      with identity `id` and overwrite it in place; a miss changes nothing. */
  function UpdateFirst(tasks: seq<Task>, id: int, f: Task -> Task): (r: seq<Task>)
    ensures |r| == |tasks|
    ensures forall i :: 0 <= i < |tasks| ==>
      r[i] == if IsFirst(tasks, i, id) then f(tasks[i]) else tasks[i]
  {
    match FindIndex(tasks, id)
    case None => tasks
    case Some(i) => tasks[i := f(tasks[i])]
  }

  /** `addTask`: a blank input is rejected (the user is alerted and nothing
      changes); otherwise a fresh task carrying the trimmed input, not completed
      and not important, is appended. */
  function AddTask(tasks: seq<Task>, input: string, newId: int): (r: seq<Task>)
    ensures IsBlank(input) ==> r == tasks
    ensures !IsBlank(input) ==> |r| == |tasks| + 1 && r[..|tasks|] == tasks
    ensures !IsBlank(input) ==>
      && r[|tasks|].id == newId
      && r[|tasks|].text == Trim(input)
      && ValidText(r[|tasks|].text)
      && !r[|tasks|].completed
      && !r[|tasks|].important
  {
    var text := Trim(input);
    TrimIdempotent(input);
    if text == [] then tasks else tasks + [Task(newId, text, false, false)]
  }

  /** `toggleTaskCompleted`: flips `completed` of the first task with identity
      `id` and of no other; every other field stays. */
  function ToggleCompleted(tasks: seq<Task>, id: int): (r: seq<Task>)
    ensures |r| == |tasks|
    ensures Absent(tasks, id) ==> r == tasks
    ensures forall i :: 0 <= i < |tasks| ==>
      && r[i].id == tasks[i].id
      && r[i].text == tasks[i].text
      && r[i].important == tasks[i].important
      && (r[i].completed <==> tasks[i].completed != IsFirst(tasks, i, id))
  {
    UpdateFirst(tasks, id, (t: Task) => t.(completed := !t.completed))
  }

  /** `togglePriority`: flips `important` of the first task with identity `id`
      and of no other. The store does not look at `completed`: only the
      rendering disables the priority button of a completed task. */
  function TogglePriority(tasks: seq<Task>, id: int): (r: seq<Task>)
    ensures |r| == |tasks|
    ensures Absent(tasks, id) ==> r == tasks
    ensures forall i :: 0 <= i < |tasks| ==>
      && r[i].id == tasks[i].id
      && r[i].text == tasks[i].text
      && r[i].completed == tasks[i].completed
      && (r[i].important <==> tasks[i].important != IsFirst(tasks, i, id))
  {
    UpdateFirst(tasks, id, (t: Task) => t.(important := !t.important))
  }

  /** `editTask`: a blank new text is ignored; otherwise the first task with
      identity `id` takes the trimmed new text and nothing else changes. */
  function EditTask(tasks: seq<Task>, id: int, newText: string): (r: seq<Task>)
    ensures |r| == |tasks|
    ensures IsBlank(newText) || Absent(tasks, id) ==> r == tasks
    ensures forall i :: 0 <= i < |tasks| ==>
      && r[i].id == tasks[i].id
      && r[i].completed == tasks[i].completed
      && r[i].important == tasks[i].important
      && r[i].text == if IsFirst(tasks, i, id) && !IsBlank(newText) then Trim(newText) else tasks[i].text
  {
    var text := Trim(newText);
    if text == [] then tasks else UpdateFirst(tasks, id, (t: Task) => t.(text := text))
  }

  /** `deleteTask`: when the user confirms, every task with identity `id` is
      dropped and the rest keep their order; otherwise nothing changes. */
  function DeleteTask(tasks: seq<Task>, id: int, confirmed: bool): (r: seq<Task>)
    ensures !confirmed ==> r == tasks
    ensures confirmed ==> IsSubseq(r, tasks)
    ensures confirmed ==> Absent(r, id)
    ensures confirmed ==> forall t :: multiset(r)[t] == if t.id == id then 0 else multiset(tasks)[t]
  {
    if confirmed then
      var keep := (t: Task) => t.id != id;
      FilterIsSubseq(tasks, keep);
      FilterMultiplicity(tasks, keep);
      Filter(tasks, keep)
    else tasks
  }

  /** `clearCompletedTasks`: when the user confirms, every completed task is
      dropped and the active ones keep their order; otherwise nothing changes. */
  function ClearCompleted(tasks: seq<Task>, confirmed: bool): (r: seq<Task>)
    ensures !confirmed ==> r == tasks
    ensures confirmed ==> IsSubseq(r, tasks)
    ensures confirmed ==> forall i :: 0 <= i < |r| ==> !r[i].completed
    ensures confirmed ==> forall t :: multiset(r)[t] == if t.completed then 0 else multiset(tasks)[t]
  {
    if confirmed then
      FilterIsSubseq(tasks, IsActive);
      FilterMultiplicity(tasks, IsActive);
      Filter(tasks, IsActive)
    else tasks
  }

  /** Toggling completion twice with the same identity restores the list. */
  lemma ToggleCompletedInvolutive(tasks: seq<Task>, id: int)
    ensures ToggleCompleted(ToggleCompleted(tasks, id), id) == tasks
  {
    var once := ToggleCompleted(tasks, id);
    assert forall i :: IsFirst(once, i, id) <==> IsFirst(tasks, i, id);
  }

  /** Toggling priority twice with the same identity restores the list. */
  lemma TogglePriorityInvolutive(tasks: seq<Task>, id: int)
    ensures TogglePriority(TogglePriority(tasks, id), id) == tasks
  {
    var once := TogglePriority(tasks, id);
    assert forall i :: IsFirst(once, i, id) <==> IsFirst(tasks, i, id);
  }

  /** Deleting a just-added task, under an identity no other task had, gives
      back the list from before the add. */
  lemma DeleteUndoesAdd(tasks: seq<Task>, input: string, newId: int)
    requires Absent(tasks, newId)
    ensures DeleteTask(AddTask(tasks, input, newId), newId, true) == tasks
  {
    var keep := (t: Task) => t.id != newId;
    FilterAll(tasks, keep);
    if !IsBlank(input) {
      var added := Task(newId, Trim(input), false, false);
      FilterConcat(tasks, [added], keep);
      assert Filter([added], keep) == [];
    }
  }

  /** Repeating an edit changes nothing more. */
  lemma EditIdempotent(tasks: seq<Task>, id: int, newText: string)
    ensures EditTask(EditTask(tasks, id, newText), id, newText) == EditTask(tasks, id, newText)
  {
    var once := EditTask(tasks, id, newText);
    assert forall i :: IsFirst(once, i, id) <==> IsFirst(tasks, i, id);
  }

  /** Filtering cannot make two tasks share an identity. */
  lemma {:induction false} FilterKeepsUniqueIds(tasks: seq<Task>, p: Task -> bool)
    requires UniqueIds(tasks)
    ensures UniqueIds(Filter(tasks, p))
    decreases |tasks|
  {
    if tasks != [] {
      var rest := tasks[1..];
      var tail := Filter(rest, p);
      FilterKeepsUniqueIds(rest, p);
      if p(tasks[0]) {
        var r := Filter(tasks, p);
        assert r == [tasks[0]] + tail;
        forall j | 0 <= j < |tail|
          ensures tail[j].id != tasks[0].id
        {
          assert tail[j] in rest;
        }
      }
    }
  }

  /** Filtering cannot break the collection invariant. */
  lemma FilterKeepsWellFormed(tasks: seq<Task>, p: Task -> bool)
    requires WellFormed(tasks)
    ensures WellFormed(Filter(tasks, p))
  {
    FilterKeepsUniqueIds(tasks, p);
    var r := Filter(tasks, p);
    forall i | 0 <= i < |r|
      ensures ValidText(r[i].text)
    {
      assert r[i] in tasks;
    }
  }

  /** A list that keeps every identity of a well-formed list in place, and every
      label or a valid replacement, is well-formed. */
  lemma KeepsIdsAndValidTexts(tasks: seq<Task>, r: seq<Task>)
    requires WellFormed(tasks)
    requires |r| == |tasks|
    requires forall i :: 0 <= i < |r| ==> r[i].id == tasks[i].id
    requires forall i :: 0 <= i < |r| ==> r[i].text == tasks[i].text || ValidText(r[i].text)
    ensures WellFormed(r)
  {
  }

  /** A fresh identity and a non-blank input keep the collection invariant. */
  lemma AddKeepsWellFormed(tasks: seq<Task>, input: string, newId: int)
    requires WellFormed(tasks)
    requires Absent(tasks, newId)
    ensures WellFormed(AddTask(tasks, input, newId))
  {
    if !IsBlank(input) {
      TrimIdempotent(input);
      var r := tasks + [Task(newId, Trim(input), false, false)];
      assert AddTask(tasks, input, newId) == r;
      forall i, j | 0 <= i < j < |r|
        ensures r[i].id != r[j].id
      {
        assert r[i] == tasks[i];
      }
      forall i | 0 <= i < |r|
        ensures ValidText(r[i].text)
      {
      }
    }
  }


  /** The toggles keep the collection invariant. */
  lemma TogglesKeepWellFormed(tasks: seq<Task>, id: int)
    requires WellFormed(tasks)
    ensures WellFormed(ToggleCompleted(tasks, id))
    ensures WellFormed(TogglePriority(tasks, id))
  {
    KeepsIdsAndValidTexts(tasks, ToggleCompleted(tasks, id));
    KeepsIdsAndValidTexts(tasks, TogglePriority(tasks, id));
  }

  /** An edit keeps the collection invariant: a blank text is refused and any
      other is stored trimmed. */
  lemma EditKeepsWellFormed(tasks: seq<Task>, id: int, newText: string)
    requires WellFormed(tasks)
    ensures WellFormed(EditTask(tasks, id, newText))
  {
    var r := EditTask(tasks, id, newText);
    if !IsBlank(newText) {
      TrimIdempotent(newText);
      assert ValidText(Trim(newText));
    }
    KeepsIdsAndValidTexts(tasks, r);
  }

  /** Deleting and clearing keep the collection invariant. */
  lemma RemovalsKeepWellFormed(tasks: seq<Task>, id: int, confirmed: bool)
    requires WellFormed(tasks)
    ensures WellFormed(DeleteTask(tasks, id, confirmed))
    ensures WellFormed(ClearCompleted(tasks, confirmed))
  {
    FilterKeepsWellFormed(tasks, (t: Task) => t.id != id);
    FilterKeepsWellFormed(tasks, IsActive);
  }
}

/** Drag-and-drop reordering: the index arithmetic of `drop`, without the DOM
    walk that finds the list item under the mouse. */
module Reorder {
  import opened Optional
  import opened Seqs
  import opened Tasks

  /** The two splices of `drop`: the element at `from` is taken out, then put
      back in at `to`, an index read BEFORE the removal. Compared with the
      input, the element lands exactly at `to` and the elements between the two
      indices shift by one towards `from`. */
  function Move<T>(s: seq<T>, from: nat, to: nat): (r: seq<T>)
    requires from < |s| && to < |s|
    ensures |r| == |s|
    ensures multiset(r) == multiset(s)
    ensures r[to] == s[from]
    ensures RemoveAt(r, to) == RemoveAt(s, from)
    ensures forall k :: 0 <= k < |s| && k < from && k < to ==> r[k] == s[k]
    ensures forall k :: 0 <= k < |s| && k > from && k > to ==> r[k] == s[k]
    ensures forall k :: from <= k < to ==> r[k] == s[k + 1]
    ensures forall k :: to < k <= from ==> r[k] == s[k - 1]
  {
    var rest := RemoveAt(s, from);
    var r := InsertAt(rest, to, s[from]);
    assert RemoveAt(r, to) == rest;
    r
  }

  /** `drop`'s guard `dragTaskId && dragTaskId !== dropTaskId`: no drag in
      progress (`null`) and the falsy identity `0` both count as no drag. */
  predicate DragActive(dragId: Option<int>, dropId: int) {
    dragId.Some? && dragId.value != 0 && dragId.value != dropId
  }

  /** `drop`: both indices are looked up first, then the dragged task is moved
      to the target's index. Any failed guard or lookup leaves the list as is. */
  function Drop(tasks: seq<Task>, dragId: Option<int>, dropId: int): (r: seq<Task>)
    ensures |r| == |tasks|
    ensures multiset(r) == multiset(tasks)
    ensures dragId == None || dragId == Some(0) || dragId == Some(dropId) ==> r == tasks
    ensures dragId.Some? && (Absent(tasks, dragId.value) || Absent(tasks, dropId)) ==> r == tasks
    ensures forall from, to ::
      DragActive(dragId, dropId) && IsFirst(tasks, from, dragId.value) && IsFirst(tasks, to, dropId) ==>
        r[to] == tasks[from] && RemoveAt(r, to) == RemoveAt(tasks, from)
  {
    if DragActive(dragId, dropId) then
      match (FindIndex(tasks, dragId.value), FindIndex(tasks, dropId))
      case (Some(from), Some(to)) => Move(tasks, from, to)
      case _ => tasks
    else tasks
  }

  /** Where the dragged task ends up relative to the target: right after it
      when dragged downward, right before it when dragged upward. */
  lemma DropPlacement(tasks: seq<Task>, dragId: Option<int>, dropId: int, from: nat, to: nat)
    requires DragActive(dragId, dropId)
    requires IsFirst(tasks, from, dragId.value) && IsFirst(tasks, to, dropId)
    ensures from < to ==> Drop(tasks, dragId, dropId)[to - 1] == tasks[to]
    ensures to < from ==> Drop(tasks, dragId, dropId)[to + 1] == tasks[to]
    ensures Drop(tasks, dragId, dropId)[to] == tasks[from]
  {
    assert FindIndex(tasks, dragId.value) == Some(from);
    assert FindIndex(tasks, dropId) == Some(to);
  }

  /** Moving an element keeps identities distinct. */
  lemma MoveKeepsUniqueIds(s: seq<Task>, from: nat, to: nat)
    requires from < |s| && to < |s|
    requires UniqueIds(s)
    ensures UniqueIds(Move(s, from, to))
  {
    var r := Move(s, from, to);
    var rest := RemoveAt(s, from);
    forall i, j | 0 <= i < j < |rest|
      ensures rest[i].id != rest[j].id
    {
      var i' := if i < from then i else i + 1;
      var j' := if j < from then j else j + 1;
      assert rest[i] == s[i'] && rest[j] == s[j'] && i' < j';
    }
    forall k | 0 <= k < |rest|
      ensures rest[k].id != s[from].id
    {
      var k' := if k < from then k else k + 1;
      assert rest[k] == s[k'] && k' != from;
    }
    assert r == InsertAt(rest, to, s[from]);
    forall i, j | 0 <= i < j < |r|
      ensures r[i].id != r[j].id
    {
      if i == to {
        assert r[j] == rest[j - 1];
      } else if j == to {
        assert r[i] == rest[i];
      } else if j < to {
        assert r[i] == rest[i] && r[j] == rest[j];
      } else if i < to {
        assert r[i] == rest[i] && r[j] == rest[j - 1];
      } else {
        assert r[i] == rest[i - 1] && r[j] == rest[j - 1];
      }
    }
  }

  /** Reordering keeps the collection invariant. */
  lemma DropKeepsWellFormed(tasks: seq<Task>, dragId: Option<int>, dropId: int)
    requires WellFormed(tasks)
    ensures WellFormed(Drop(tasks, dragId, dropId))
  {
    var r := Drop(tasks, dragId, dropId);
    if DragActive(dragId, dropId) {
      var a, b := FindIndex(tasks, dragId.value), FindIndex(tasks, dropId);
      if a.Some? && b.Some? {
        MoveKeepsUniqueIds(tasks, a.value, b.value);
      }
    }
    forall i | 0 <= i < |r|
      ensures ValidText(r[i].text)
    {
      assert r[i] in multiset(tasks);
    }
  }

  /** Moving `from` to `to` and then moving the element now at `to` to the
      index beside it, on the side `from` was on, puts the element that was at
      `to` back there, with the moved one next to it. */
  lemma MoveTwice<T>(s: seq<T>, from: nat, to: nat)
    requires from < |s| && to < |s| && from != to
    ensures var beside := if from < to then to - 1 else to + 1;
            var once := Move(s, from, to);
            && beside < |s|
            && once[beside] == s[to]
            && Move(once, to, beside)[to] == s[to]
            && Move(once, to, beside)[beside] == s[from]
  {
    var once := Move(s, from, to);
    assert once[to] == s[from];
    if from < to {
      var beside := to - 1;
      assert from <= beside < to;
      assert once[beside] == s[beside + 1];
      var twice := Move(once, to, beside);
      assert beside < to <= to;
      assert twice[to] == once[to - 1];
      assert twice[beside] == once[to];
    } else {
      var beside := to + 1;
      assert to < beside <= from;
      assert once[beside] == s[beside - 1];
      var twice := Move(once, to, beside);
      assert to <= to < beside;
      assert twice[to] == once[to + 1];
      assert twice[beside] == once[to];
    }
  }

  /** Repeating a drop does not leave the list as the first drop left it: the
      target returns to its original index and the dragged task sits next to it
      on the side it started from. The reorder is therefore not idempotent. */
  lemma DropTwice(tasks: seq<Task>, dragId: Option<int>, dropId: int, from: nat, to: nat)
    requires UniqueIds(tasks)
    requires DragActive(dragId, dropId)
    requires IsFirst(tasks, from, dragId.value) && IsFirst(tasks, to, dropId)
    ensures var once := Drop(tasks, dragId, dropId);
            var twice := Drop(once, dragId, dropId);
            && twice != once
            && twice[to] == tasks[to]
            && (from < to ==> twice[to - 1] == tasks[from])
            && (to < from ==> twice[to + 1] == tasks[from])
  {
    assert FindIndex(tasks, dragId.value) == Some(from);
    assert FindIndex(tasks, dropId) == Some(to);
    var once := Drop(tasks, dragId, dropId);
    assert once == Move(tasks, from, to);
    var beside := if from < to then to - 1 else to + 1;
    MoveTwice(tasks, from, to);
    MoveKeepsUniqueIds(tasks, from, to);
    FindIndexUnique(once, to);
    FindIndexUnique(once, beside);
    var twice := Drop(once, dragId, dropId);
    assert twice == Move(once, to, beside);
    assert once[to].id != twice[to].id;
  }
}

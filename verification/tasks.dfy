/** The task record and the queries every store operation shares. */
module Tasks {
  import opened Optional
  import opened Text

  /** One to-do item. `id` comes from the clock when the task is added and is the
      only identity a task keeps across edits and reorders. */
  datatype Task = Task(id: int, text: string, completed: bool, important: bool)

  /** The `active` and `completed` sides of the list. */
  predicate IsActive(t: Task) { !t.completed }
  predicate IsDone(t: Task) { t.completed }

  /** No task of `tasks` has identity `id`. */
  predicate Absent(tasks: seq<Task>, id: int) {
    forall i :: 0 <= i < |tasks| ==> tasks[i].id != id
  }

  /** Index `i` holds the first task of `tasks` whose identity is `id`:
      the one `Array.prototype.find` and `findIndex` select. */
  predicate IsFirst(tasks: seq<Task>, i: int, id: int) {
    && 0 <= i < |tasks|
    && tasks[i].id == id
    && forall k :: 0 <= k < i ==> tasks[k].id != id
  }

  /** `tasks.findIndex(t => t.id === id)`, with `None` for the `-1` of a miss. */
  function FindIndex(tasks: seq<Task>, id: int): (r: Option<nat>)
    ensures r.None? <==> Absent(tasks, id)
    ensures r.Some? ==> IsFirst(tasks, r.value, id)
    ensures forall i :: IsFirst(tasks, i, id) ==> r == Some(i)
    decreases |tasks|
  {
    if tasks == [] then None
    else if tasks[0].id == id then Some(0)
    else
      match FindIndex(tasks[1..], id)
      case None => None
      case Some(k) => Some(k + 1)
  }

  /** No two tasks share an identity. */
  predicate UniqueIds(tasks: seq<Task>) {
    forall i, j :: 0 <= i < j < |tasks| ==> tasks[i].id != tasks[j].id
  }

  /** A label the add and edit operations can produce: non-empty and trimmed. */
  predicate ValidText(s: string) {
    s != [] && Trim(s) == s
  }

  /** The collection invariant: unique identities and valid labels. */
  predicate WellFormed(tasks: seq<Task>) {
    && UniqueIds(tasks)
    && forall i :: 0 <= i < |tasks| ==> ValidText(tasks[i].text)
  }

  /** With unique identities, the task found for `tasks[i].id` is the one at `i`. */
  lemma FindIndexUnique(tasks: seq<Task>, i: nat)
    requires UniqueIds(tasks)
    requires i < |tasks|
    ensures FindIndex(tasks, tasks[i].id) == Some(i)
  {
    assert IsFirst(tasks, i, tasks[i].id);
  }
}

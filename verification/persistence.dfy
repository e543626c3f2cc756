/** The persisted form of the list and the normalisation `loadTasks` applies
    to it. Reading and writing the storage slot and the JSON text itself are
    outside the model: a stored list is already a sequence of records. */
module Persistence {
  import opened Optional
  import opened Tasks

  /** One record as stored. Records written before priorities existed have no
      `important` field. */
  datatype StoredTask = StoredTask(id: int, text: string, completed: bool, important: Option<bool>)

  /** The spread in `loadTasks`: every field is kept, and a missing `important`
      becomes `false`. */
  function LoadRecord(rec: StoredTask): (t: Task)
    ensures t.id == rec.id && t.text == rec.text && t.completed == rec.completed
    ensures rec.important.None? ==> !t.important
    ensures rec.important.Some? ==> t.important == rec.important.value
  {
    Task(rec.id, rec.text, rec.completed, rec.important.GetOr(false))
  }

  /** What `saveTasks` writes for one task: every field, `important` included. */
  function SaveRecord(t: Task): (rec: StoredTask)
    ensures rec.important.Some?
    ensures LoadRecord(rec) == t
  {
    StoredTask(t.id, t.text, t.completed, Some(t.important))
  }

  /** `loadTasks`: nothing stored leaves the list empty; otherwise every record
      is normalised, in order. */
  function LoadTasks(saved: Option<seq<StoredTask>>): (r: seq<Task>)
    ensures saved.None? ==> r == []
    ensures saved.Some? ==> |r| == |saved.value|
    ensures saved.Some? ==> forall i :: 0 <= i < |r| ==>
      && r[i].id == saved.value[i].id
      && r[i].text == saved.value[i].text
      && r[i].completed == saved.value[i].completed
      && r[i].important == saved.value[i].important.GetOr(false)
  {
    match saved
    case None => []
    case Some(recs) => seq(|recs|, i requires 0 <= i < |recs| => LoadRecord(recs[i]))
  }

  /** `saveTasks`: the whole list, in order. */
  function SaveTasks(tasks: seq<Task>): (recs: seq<StoredTask>)
    ensures |recs| == |tasks|
    ensures forall i :: 0 <= i < |recs| ==> recs[i].important.Some? && LoadRecord(recs[i]) == tasks[i]
  {
    seq(|tasks|, i requires 0 <= i < |tasks| => SaveRecord(tasks[i]))
  }

  /** Loading what was saved gives back the same list. */
  lemma SaveLoadRoundTrip(tasks: seq<Task>)
    ensures LoadTasks(Some(SaveTasks(tasks))) == tasks
  {
  }

  /** Normalising is idempotent: saving a loaded list and loading it again gives
      the list of the first load. */
  lemma LoadIdempotent(saved: seq<StoredTask>)
    ensures LoadTasks(Some(SaveTasks(LoadTasks(Some(saved))))) == LoadTasks(Some(saved))
  {
    SaveLoadRoundTrip(LoadTasks(Some(saved)));
  }

  /** The legacy record `{id: 1, text: "x", completed: false}` loads as not important. */
  lemma LegacyRecordLoadsUnimportant()
    ensures LoadTasks(Some([StoredTask(1, "x", false, None)])) == [Task(1, "x", false, false)]
  {
  }
}

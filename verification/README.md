# Task list store, modelled in Dafny

A model of the task collection of a browser to-do list (`script.js`). The page
keeps an ordered list of tasks, each with an `id` taken from the clock, a
`text`, a `completed` flag and an `important` flag. Users add, complete,
prioritise, edit, delete and clear tasks, reorder them by drag and drop, and
filter the list by completion. The list is saved to browser storage after every
change and normalised when it is loaded.

The model keeps only the list logic. Every operation becomes a pure function
from the old list to the new one:

- `optional.dfy` (`Optional`): the `Option` type. It stands for a missing
  record field, the `null` drag id and the `-1` of `findIndex`.
- `seqs.dfy` (`Seqs`): `filter` and the two `splice` forms the source uses.
  It also defines what it means for one list to be a subsequence of another
  (same elements, same relative order).
- `text.dfy` (`Text`): `String.prototype.trim`, with the ECMAScript
  whitespace and line-terminator characters.
- `tasks.dfy` (`Tasks`): the `Task` record and first-match lookup by id
  (`find` / `findIndex`). It also defines the collection invariant: unique ids,
  and labels that are non-empty and trimmed.
- `store.dfy` (`Store`): add, toggle completed, toggle priority, edit, delete
  and clear completed.
- `reorder.dfy` (`Reorder`): the two splices of the drop handler.
- `views.dfy` (`Views`): the filtered list that gets rendered, and the
  active/completed counts.
- `persistence.dfy` (`Persistence`): the stored record, whose `important`
  field may be absent, and the load normalisation.

Values the source gets from the browser are parameters:

- The new id (`Date.now()`).
- The user's answer to a confirmation prompt (`confirm`).
- The drag id: `None` for `null`, `Some(0)` for the falsy id 0.
- The drop target's id.
- The filter value.
- The stored records.

### Behaviour of the code worth knowing

- **Reorder.** Both indices are read before the removal, and the dragged task
  is reinserted at the target's old index. So a task dragged downward ends
  right after the target, and one dragged upward right before it
  (`DropPlacement`). Repeating a drop moves the target back to its original
  index (`DropTwice`), so reorder is not idempotent.
- **Delete and clear-completed.** `deleteTask` and `clearCompletedTasks` ask
  for confirmation themselves. The answer is the `confirmed` parameter.
- **Filter value.** Any filter value is stored. Unknown values show the whole
  list.
- **Rejecting an add.** A blank input shows an alert and returns. The model
  leaves the list unchanged.
- **Ids.** A new id is `Date.now()`, and nothing prevents two tasks from
  getting the same one. The model takes the id as a parameter and assumes
  fresh or unique ids only where a lemma needs them (`AddKeepsWellFormed`,
  `DeleteUndoesAdd`, `AddAddPrioritise`, `AddThenPrioritiseScenario`, `DropTwice`).

After Enter in the edit box, the blur handler may call `editTask` a second
time with the same text (script.js:152-160). `EditIdempotent` shows that this
second call changes nothing.

## Model

| member | source | states |
|---|---|---|
| `Seqs.Filter` | script.js:102-104 | the result holds exactly the elements that satisfy the predicate, and each of them does |
| `Seqs.FilterMultiplicity` | script.js:102-104 | filtering keeps every occurrence of a passing element and none of a failing one |
| `Seqs.FilterIsSubseq` | script.js:247 | filtering keeps the survivors in their original relative order |
| `Seqs.RemoveAt` | script.js:76 | `splice(i, 1)` shortens the list by one, shifts later elements left, and removes one occurrence of the element at `i` from the multiset |
| `Seqs.InsertAt` | script.js:77 | `splice(i, 0, x)` puts `x` at index `i`, shifts later elements right, and adds one occurrence of `x` |
| `Text.Trim` | script.js:205 | the result is empty exactly when the input is blank; otherwise it is the slice of the input left after dropping all leading and trailing whitespace, and it neither starts nor ends with whitespace |
| `Text.TrimIdempotent` | script.js:256 | trimming twice gives the same result as trimming once |
| `Tasks.FindIndex` | script.js:71-72 | returns `None` exactly when no task has the id; otherwise returns the first index holding it |
| `Tasks.FindIndexUnique` | script.js:227 | when ids are unique, the lookup by a task's id returns that task's own index |
| `Store.UpdateFirst` | script.js:227-229 | only the first task with the id is rewritten; every other position keeps its task |
| `Store.AddTask` | script.js:204-218 | blank input leaves the list unchanged; otherwise it grows by one, earlier tasks stay, and the new last task has the given id, the trimmed non-empty text, and is neither completed nor important |
| `Store.ToggleCompleted` | script.js:226-233 | `completed` flips at the first task with the id and nowhere else; ids, texts and priorities stay; an absent id changes nothing |
| `Store.TogglePriority` | script.js:235-242 | `important` flips at the first task with the id and nowhere else, completed or not; other fields stay; an absent id changes nothing |
| `Store.EditTask` | script.js:253-260 | blank text or an absent id changes nothing; otherwise only the first matching task's text changes, to the trimmed new text |
| `Store.DeleteTask` | script.js:244-251 | unconfirmed: nothing changes; confirmed: exactly the tasks with the id are gone, every other task keeps its multiplicity, and their order is kept |
| `Store.ClearCompleted` | script.js:262-269 | unconfirmed: nothing changes; confirmed: exactly the completed tasks are gone and the active ones keep their order and multiplicity |
| `Store.ToggleCompletedInvolutive` | script.js:226-233 | toggling completion twice with the same id restores the list |
| `Store.TogglePriorityInvolutive` | script.js:235-242 | toggling priority twice with the same id restores the list |
| `Store.EditIdempotent` | script.js:152-160 | running the same edit a second time changes nothing more |
| `Store.DeleteUndoesAdd` | script.js:211-218 | deleting a just-added task under a fresh id gives back the list from before the add |
| `Store.FilterKeepsUniqueIds` | script.js:247 | filtering the list cannot make two tasks share an id |
| `Store.AddKeepsWellFormed` | script.js:204-218 | with a fresh id, adding keeps ids unique and every label non-empty and trimmed |
| `Store.TogglesKeepWellFormed` | script.js:226-242 | the two toggles keep the collection invariant |
| `Store.EditKeepsWellFormed` | script.js:253-260 | an edit keeps the collection invariant |
| `Store.RemovalsKeepWellFormed` | script.js:244-269 | delete and clear-completed keep the collection invariant |
| `Reorder.Move` | script.js:76-77 | the two splices give a permutation of the same length; the moved element sits at the target index; the others keep their relative order and shift by one between the two indices |
| `Reorder.Drop` | script.js:67-77 | the guard at script.js:69 is covered here: a `null` drag id, a drag id of `0`, a drag id equal to the target's, or a missing id leave the list unchanged; otherwise the dragged task lands at the target's original index, the rest keep their relative order, and the result is a permutation |
| `Reorder.DropPlacement` | script.js:71-77 | a task dragged downward ends up right after the target; one dragged upward ends up right before it |
| `Reorder.MoveKeepsUniqueIds` | script.js:76-77 | moving a task keeps ids unique |
| `Reorder.DropKeepsWellFormed` | script.js:67-77 | a drop keeps the collection invariant |
| `Reorder.MoveTwice` | script.js:76-77 | moving an element onto the target index and then moving it one step back toward where it came from puts the target back at its own index, with the moved element beside it |
| `Reorder.DropTwice` | script.js:67-77 | with unique ids, repeating a drop changes the list again: the target returns to its original index and the dragged task sits beside it on the side it started from |
| `Views.View` | script.js:98-105 | the view is a subsequence of the list; "active" gives exactly the uncompleted tasks and "completed" exactly the completed ones, with their multiplicities; any other value gives the whole list |
| `Views.ActiveCount` | script.js:280 | the active count is at most the list length, and zero exactly when every task is completed |
| `Views.CompletedCount` | script.js:281-289 | the completed count is at most the list length, and zero exactly when no task is completed, so the clear-completed button shows exactly when there is something to clear |
| `Views.CountsPartition` | script.js:280-281 | the active count plus the completed count equals the list length |
| `Views.CountsMatchViews` | script.js:280-281 | the counts equal the lengths of the active and completed views |
| `Views.ClearCompletedCounts` | script.js:262-269 | after a confirmed clear, the completed count is zero and the active count is unchanged |
| `Views.AddCounts` | script.js:211-218 | a non-blank add raises the active count by one and leaves the completed count |
| `Views.AddAddPrioritise` | script.js:204-242 | from an empty list, adding two trimmed non-empty labels under distinct ids and marking the second important gives a full view of both tasks in order, only the second important |
| `Views.AddThenPrioritiseScenario` | script.js:204-242 | from an empty list: add "Buy milk", add "Call Bob", mark the second important; the full view shows both in that order, and only the second is important |
| `Persistence.LoadRecord` | script.js:300-303 | id, text and completed are copied; a missing `important` becomes false; a present one is kept |
| `Persistence.SaveRecord` | script.js:292-294 | a saved record always has `important`, and loading it gives back the task |
| `Persistence.LoadTasks` | script.js:296-305 | nothing stored gives the empty list; otherwise each record is normalised in order |
| `Persistence.SaveTasks` | script.js:292-294 | every task is saved in order with `important` present, and each saved record loads back to its task |
| `Persistence.SaveLoadRoundTrip` | script.js:292-303 | loading what was saved gives back the same list |
| `Persistence.LoadIdempotent` | script.js:300-303 | normalising a loaded list a second time changes nothing |
| `Persistence.LegacyRecordLoadsUnimportant` | script.js:302 | the legacy record `{id: 1, text: "x", completed: false}` loads with `important` false |

## Left out

- Building the DOM, empty-list message, button classes and event wiring (script.js:107-200, 312-325). These are presentation only.
- The drag feedback handlers `dragStart`, `dragEnter`, `dragOver`, `dragLeave` and `dragEnd` (script.js:29-51, 85-89). So is the walk from the event target to its list item in `drop` (script.js:56-65). The model starts from the two ids.
- The disabled priority button of completed tasks (script.js:175-179). It is a rendering rule; the store's toggle does not check it, and neither does `Store.TogglePriority`.
- `alert` and `confirm` (script.js:207, 245, 263). The prompt's answer is the `confirmed` parameter, and the alert is not modelled.
- `Date.now()` (script.js:212). The id is a parameter. The source does not guarantee uniqueness, so the model does not claim it.
- `localStorage` and the JSON text (script.js:292-297). The model works on a parsed list of records. A stored value that is not valid JSON makes `JSON.parse` throw, and that path is not modelled. Fields other than the four known ones, and an `important` that is present but not boolean, are not represented.
- Stored data of the wrong shape (script.js:300-303). JSON that parses to something other than an array makes `.map` throw. A record missing `id`, `text` or `completed` keeps that field undefined through the spread, and such a task counts as active. The model's stored record always has those three fields.
- `parseInt` on `data-id` attributes and NaN ids (script.js:30, 67). Ids are integers.
- `setFilter`'s button highlighting (script.js:272-277). The stored filter value is just the `filter` argument of `Views.View`.
- Clearing the input box after an add (script.js:219). This is presentation only.
- `Text.Trim`: JavaScript strings are UTF-16 and the whitespace set follows the Unicode version of the engine. The model uses the current ECMAScript set over `char`, where `char` is a Unicode scalar value.

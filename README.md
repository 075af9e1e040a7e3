# Task list of the todo widget, in Dafny

The todo widget is a small desktop to-do list. Its renderer class `TodoApp`
keeps an in-memory array of task records (`Todo`: id, text, completed flag,
one of four priorities, creation and update times) and two bits of
interaction state: the id of the task being edited inline
(`editingTodoId`) and the id the context menu was opened on
(`selectedTodoId`, with the menu's visibility flag). Four operations change
the list: add (trim the input, ignore blank text, prepend a new record),
toggle (flip the first record with the id), save an inline edit (replace the
text when the trimmed input is non-blank and different) and delete (filter
the id out). Two views are derived from it: the display order (a stable sort
by completion, then priority, then creation time, newest first) and the
total/completed/pending counters.

The model:

- `text.dfy`, module `JsText`: `String.prototype.trim` over the ECMAScript
  white-space and line-terminator code points, characterised as "the
  longest trimmable prefix and suffix removed".
- `todo.dfy`, module `TodoModel`: the `Todo` record, the priority ranks, the
  `find` lookup that toggle and edit start with, and the list invariant
  `WellFormed` (unique ids, non-blank trimmed texts, `createdAt <= updatedAt`).
- `store.dfy`, module `TodoStore`: each mutation as a function from the old
  list to the new one, with the lemmas that relate several calls
  (toggling twice, saving the same edit twice, deleting twice) and that show
  each mutation keeps `WellFormed`.
- `order.dfy`, module `TodoOrder`: the comparator, the display order as a
  stable insertion sort, and the proof that its output is a sorted, stable
  permutation, and that any sorted stable permutation is that output, so the
  model does not depend on which stable algorithm the JavaScript engine runs.
- `stats.dfy`, module `TodoStats`: the counters and how each of the four
  list mutations (add, toggle, edit, delete) moves them.
- `app.dfy`, module `TodoApplication`: the class `TodoApp` with the fields
  the source updates and one method per operation. The four list mutations
  are proved to leave exactly the list the `TodoStore` functions describe;
  the session and context-menu methods are described by their own
  contracts.

The clock (`new Date()`) and the id generator (`generateId`, built on
`Date.now()` and `Math.random()`) are parameters: times in milliseconds (`addTodo`'s two
clock reads are `created` and `updated`, every other one is `now`) and
`id`. The constructor takes the stored list as an `Option`, `None` standing
for "nothing stored or not readable".

Where one might expect otherwise, the model follows the code: toggle, edit and delete return nothing rather
than a found flag; the priority of a new task is whatever the select holds
rather than a `medium` default; and `cancelEdit` clears the session only when the id is
truthy, so an empty-string id (possible only for a record read back from
storage) is left in place.

## Model

| member | source | states |
|---|---|---|
| `JsText.Trim` | src/renderer/renderer.ts:124 | the result is the input with a trimmable prefix and suffix cut off, and neither end of it is trimmable |
| `JsText.TrimEmptyIff` | src/renderer/renderer.ts:126-129 | the trimmed text is empty exactly when every code point of the input is white space or a line terminator |
| `JsText.TrimIdempotent` | src/renderer/renderer.ts:195-196 | trimming an already trimmed text changes nothing |
| `JsText.TrimmedFixed` | src/renderer/renderer.ts:195-196 | a text whose ends are not trimmable is its own trim |
| `TodoModel.Rank` | src/renderer/renderer.ts:305 | every rank lies between 1 and 4; urgent alone has the top rank 4 and low alone the bottom rank 1 |
| `TodoModel.RankInjective` | src/renderer/renderer.ts:305 | the rank table urgent 4, high 3, medium 2, low 1 gives distinct priorities distinct ranks |
| `TodoModel.FirstIndex` | src/renderer/renderer.ts:155 | `find` yields the first record with the id, or nothing exactly when no record has it |
| `TodoModel.FindIndex` | src/renderer/renderer.ts:166 | the linear search returns the first index with the id, or None when none has it |
| `TodoModel.UniqueCons` | src/renderer/renderer.ts:141 | prepending a record keeps ids unique exactly when its id is fresh and the rest were unique |
| `TodoStore.Added` | src/renderer/renderer.ts:123-141 | blank input leaves the list unchanged; otherwise one new record at index 0 with the trimmed text, not completed, the chosen priority, `createdAt` and `updatedAt` the two clock reads, old list following unchanged |
| `TodoStore.Toggled` | src/renderer/renderer.ts:154-163 | the first record with the id has `completed` flipped and `updatedAt` set, all its other fields and all other records unchanged; unknown id changes nothing |
| `TodoStore.Edited` | src/renderer/renderer.ts:194-200 | blank or unchanged trimmed input leaves the record as it is; otherwise text and `updatedAt` change; id, completed, priority and createdAt never change, nor does any other record |
| `TodoStore.Deleted` | src/renderer/renderer.ts:222-223 | a record is kept exactly when it was in the list and its id differs |
| `TodoStore.AddedWellFormed` | src/renderer/renderer.ts:131-141 | adding with a fresh id and clock reads in order keeps ids unique, texts non-blank and trimmed, and `createdAt <= updatedAt` |
| `TodoStore.FirstIndexSameIds` | src/renderer/renderer.ts:155 | `find` depends only on the ids at each position |
| `TodoStore.ToggledTwice` | src/renderer/renderer.ts:157-158 | toggling twice restores the list except the found record's `updatedAt` |
| `TodoStore.ToggledWellFormed` | src/renderer/renderer.ts:154-163 | toggling keeps the invariant when the clock is not before any creation time |
| `TodoStore.EditedTwice` | src/renderer/renderer.ts:211-219 | saving the same edit a second time (Enter then blur) changes nothing |
| `TodoStore.EditedWellFormed` | src/renderer/renderer.ts:194-200 | an edit keeps the invariant when the clock is not before any creation time |
| `TodoStore.DeletedAbsent` | src/renderer/renderer.ts:223 | deleting an id no record has leaves the list unchanged |
| `TodoStore.DeletedAppend` | src/renderer/renderer.ts:223 | deletion distributes over concatenation, so kept records keep their relative order |
| `TodoStore.DeletedSnoc` | src/renderer/renderer.ts:223 | one more record at the end is kept exactly when its id differs |
| `TodoStore.DeletedIdempotent` | src/renderer/renderer.ts:222-227 | deleting twice equals deleting once |
| `TodoStore.DeletedWellFormed` | src/renderer/renderer.ts:222-227 | deleting keeps the invariant |
| `TodoStore.DeletedOne` | src/renderer/renderer.ts:222-227 | with unique ids, deleting a present id removes exactly one record |
| `TodoOrder.Compare` | src/renderer/renderer.ts:307-323 | the comparator is negative exactly when the first record precedes (incomplete first, higher rank, later creation), zero exactly on a three-key tie, positive exactly when the second precedes |
| `TodoOrder.CompareTransitive` | src/renderer/renderer.ts:307-323 | "not after" under the comparator is transitive, so the comparator is consistent |
| `TodoOrder.TiesWith` | src/renderer/renderer.ts:322 | the tie class of a record holds only list members that tie with it |
| `TodoOrder.Insert` | src/renderer/renderer.ts:307 | insertion adds exactly the one record to the multiset |
| `TodoOrder.SortTodos` | src/renderer/renderer.ts:304-307 | the display order is a permutation of the list |
| `TodoOrder.SortTodosSorted` | src/renderer/renderer.ts:307-323 | no pair of the display order is out of order for the comparator |
| `TodoOrder.SortTodosStable` | src/renderer/renderer.ts:307 | records that tie on all three keys appear in their list order |
| `TodoOrder.SortedByKeys` | src/renderer/renderer.ts:308-322 | in a sorted list every incomplete task precedes every completed one, rank is non-increasing within a completion state, creation time non-increasing within completion state and priority |
| `TodoOrder.SortTodosCorrect` | src/renderer/renderer.ts:304-324 | the display order is a sorted, stable permutation of the list |
| `TodoOrder.SortedUnique` | src/renderer/renderer.ts:307 | two sorted lists with the same tie classes in the same order are equal |
| `TodoOrder.StableSortIsSortTodos` | src/renderer/renderer.ts:307 | any sorted, stable rearrangement of the list is exactly the modelled display order |
| `TodoOrder.FrontFirstAmongTies` | src/renderer/renderer.ts:141 | a record put at the front is displayed before every record it ties with |
| `TodoOrder.OrderingScenario` | src/renderer/renderer.ts:308-319 | incomplete high (t=2), incomplete urgent (t=1) and completed urgent (t=3) display as urgent, high, completed |
| `TodoStats.CompletedOnes` | src/renderer/renderer.ts:352 | the filter keeps exactly the completed records |
| `TodoStats.Stats` | src/renderer/renderer.ts:350-353 | total is the list length, completed the filter length, and pending (total minus completed) the number of incomplete records |
| `TodoStats.PendingComplement` | src/renderer/renderer.ts:353 | total minus completed equals the count of incomplete records |
| `TodoStats.SameFlagsSameCount` | src/renderer/renderer.ts:352 | the completed count depends only on the flags |
| `TodoStats.CompletedOnesUpdate` | src/renderer/renderer.ts:352 | replacing one record moves the completed count by the change of its flag |
| `TodoStats.StatsAfterAdded` | src/renderer/renderer.ts:141-148 | adding a task raises total and pending by one and keeps completed |
| `TodoStats.StatsAfterToggled` | src/renderer/renderer.ts:157-161 | toggling moves one task between completed and pending, total unchanged |
| `TodoStats.DeletedCounts` | src/renderer/renderer.ts:222-227 | with unique ids, deleting a present id removes one record, and one completed record exactly when the removed one was completed |
| `TodoStats.StatsAfterDeleted` | src/renderer/renderer.ts:222-227 | with unique ids, deleting a present task lowers the total by one and lowers completed or pending by one according to its flag |
| `TodoStats.StatsAfterEdited` | src/renderer/renderer.ts:196-203 | an edit leaves all counters unchanged |
| `TodoStats.StatsOfSorted` | src/renderer/renderer.ts:327 | the display order has the same counters as the list |
| `TodoApplication.TodoApp.constructor` | src/renderer/renderer.ts:370-389 | a stored list is used as it is; nothing stored or unreadable gives an empty list; no session, no selection, menu hidden |
| `TodoApplication.TodoApp.AddTodo` | src/renderer/renderer.ts:123-141 | the new list is `Added` of the old; a fresh id with clock reads in order keeps the invariant |
| `TodoApplication.TodoApp.ToggleTodo` | src/renderer/renderer.ts:154-163 | the new list is `Toggled` of the old; the invariant is kept for a clock not before any creation time |
| `TodoApplication.TodoApp.EditTodo` | src/renderer/renderer.ts:165-169 | a present id opens the session on it; an unknown id leaves the session id as it was; the list is not touched |
| `TodoApplication.TodoApp.SaveEdit` | src/renderer/renderer.ts:194-204 | the new list is `Edited` of the old and the session id is cleared in every case |
| `TodoApplication.TodoApp.CancelEditSession` | src/renderer/renderer.ts:206-209 | the session id is cleared; the list is not touched |
| `TodoApplication.TodoApp.CancelEdit` | src/renderer/renderer.ts:229-234 | a truthy session id is cleared, an empty-string one stays; the list is not touched |
| `TodoApplication.TodoApp.DeleteTodo` | src/renderer/renderer.ts:222-227 | the new list is `Deleted` of the old, holds no record with the id, and keeps the invariant |
| `TodoApplication.TodoApp.ShowContextMenu` | src/renderer/renderer.ts:236-239 | the selection becomes the given id and the menu is visible |
| `TodoApplication.TodoApp.HideContextMenu` | src/renderer/renderer.ts:246-248 | the selection is cleared and the menu hidden |
| `TodoApplication.TodoApp.SortedTodos` | src/renderer/renderer.ts:304-324 | the display order is a sorted, stable permutation of the list, which it only reads |
| `TodoApplication.TodoApp.CurrentStats` | src/renderer/renderer.ts:350-357 | total is the list length, pending the number of incomplete tasks, completed plus pending the total |

## Left out

- Rendering and event wiring (`initializeElements`, `setupEventListeners`, `createTodoElement`, `render`, `escapeHtml`, the inline edit box, the particle effect): they build and update the page and hold no state of the task list. The context-menu Edit and Delete handlers, the Escape handler and the Enter/blur listeners that call the modelled methods are part of this wiring.
- Persistence (`saveTodos`, `loadTodos`): JSON encoding and `localStorage` are not modelled; the constructor receives the already parsed list, or None when nothing is stored or parsing fails. The date reconstruction on load is not modelled.
- `generateId` and `new Date()`: ids and times are parameters. Ids from `generateId` are not guaranteed unique, so no method requires a fresh id; uniqueness is preserved only when the id is fresh, which `AddTodo` states as a condition.
- `TodoApplication.TodoApp.AddTodo`: the priority is a `Priority` value; the source casts the select's string without checking it, and a value outside the four would make the comparator compare `undefined` ranks. Resetting the input box and the select after adding is not modelled.
- `TodoStore.AddedWellFormed`: `addTodo` reads `new Date()` twice, for `createdAt` and then `updatedAt`; `createdAt <= updatedAt` holds for the new record only when the second read is not earlier than the first, which the source does not check, so the lemma (and `AddTodo`'s invariant clause) takes `created <= updated` as a hypothesis.
- `TodoStore.ToggledWellFormed`, `TodoStore.EditedWellFormed`: `createdAt <= updatedAt` holds only when the clock does not read earlier than a record's creation; the source cannot promise that, so the lemmas take it as a hypothesis.
- `TodoOrder.SortTodos`: the engine's sorting algorithm is not modelled; an insertion sort stands in, and `StableSortIsSortTodos` shows every stable sort by this comparator gives the same result. Timestamps are exact integers, so the `getTime()` differences that JavaScript computes in floating point are modelled exactly (millisecond counts stay far below 2^53).
- `TodoApplication.TodoApp.SaveEdit`: `saveEdit` writes to the record object that `editTodo` found when the session opened; the model looks the id up again when saving. The two agree while that record is still the first one with its id, and when no record with the id is left (the source writes to a detached object, the model finds nothing, and neither changes the list). Otherwise they differ, for instance when, while the session is open, a record with the same id is added in front of it, which `generateId`'s non-unique ids allow: the source then edits the captured record and the model the new front one.

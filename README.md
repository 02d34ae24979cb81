# Task store of a to-do list, modelled in Dafny

This project models the task store of a single-user to-do list web app
(`src/hooks/useTasks.ts`). The store holds an ordered list of tasks, newest
additions first. It also holds a filter preference and a sort preference.
Its operations are:

- add, toggle, delete, rename, set-description and clear-completed;
- a derived view that is filtered, then copied and sorted;
- completed and total counts;
- a loader (`safeParseTasks`) that validates stored records.

Layout:

- `text.dfy` (module `Text`) stands in for the JavaScript string functions the
  store calls. `trim` strips the ECMAScript whitespace and line-terminator
  characters. `toLowerCase` folds ASCII letters. `localeCompare` is a
  lexicographic comparison by Unicode code point, which differs from the
  program's locale order (see "Left out").
- `tasks.dfy` (module `Tasks`) holds the `Task` record and the body of each
  mutation as a pure function from the old list to the new one. The lemmas
  about those functions are here too.
- `loader.dfy` (module `Loader`) holds `safeParseTasks` over an
  already-parsed JSON value. It also holds the value `JSON.stringify` would
  write, so the save/load round trip can be stated.
- `view.dfy` (module `View`) holds the filter step and the four comparators.
  It also holds the in-place sort of the copy, plus lemmas on sorted orders.
- `store.dfy` (module `Store`) holds the class `TaskStore` with fields
  `tasks: seq<Task>`, `filter` and `sort`. Each method installs what its
  `Tasks` function computes. A client method, `CompleteAndClear`, replays a
  short session on two open tasks.

Nondeterministic inputs are parameters. `Date.now()` becomes `now`, one
instant per operation. `crypto.randomUUID()` becomes `id`.

Three behaviours of the code that are easy to misread, and that the model
follows:

- Preferences fall back to "all" / "newest" only when nothing is stored. A
  stored string outside the enumeration is kept as is. The view then treats
  an unknown filter like "all" and an unknown sort like "newest".
- Delete removes every task that carries the id, not only one. With unique
  ids this is exactly one task (`Tasks.DeleteUniqueId`).
- The loader sets `completed` to the truthiness of the stored value, not
  only to a stored boolean.

## Model

| member | source | states |
|---|---|---|
| `Tasks.AnyTitleIs` | src/hooks/useTasks.ts:77 | true exactly when some task's lower-cased title equals the key |
| `Tasks.AddTask` | src/hooks/useTasks.ts:73-90 | rejected exactly when the trimmed title is empty or matches an existing title case-insensitively; otherwise the old list with one new task in front: trimmed title, not completed, description given or "", created and updated at `now`, with the given id |
| `Tasks.UpdateWhere` | src/hooks/useTasks.ts:93 | the id-targeted map: same length, matching tasks edited, every other task unchanged |
| `Tasks.Select` | src/hooks/useTasks.ts:97 | the list filter: an in-order subsequence holding exactly the tasks that satisfy the predicate |
| `Tasks.ToggleTask` | src/hooks/useTasks.ts:92-94 | same length and order; matching tasks get `completed` flipped and `updatedAt = now`; others unchanged |
| `Tasks.RenameTask` | src/hooks/useTasks.ts:100-105 | refused exactly when the trimmed title is empty; otherwise accepted even with no matching id, and matching tasks get the trimmed title and `updatedAt = now`, others unchanged |
| `Tasks.SetDescription` | src/hooks/useTasks.ts:107-109 | matching tasks get the given description unconditionally and `updatedAt = now`; others unchanged |
| `Tasks.DeleteTask` | src/hooks/useTasks.ts:96-98 | an in-order subsequence holding exactly the tasks whose id differs |
| `Tasks.ClearCompleted` | src/hooks/useTasks.ts:111-113 | an in-order subsequence holding exactly the tasks not completed |
| `Tasks.CompletedCount` | src/hooks/useTasks.ts:147 | the number of completed tasks in the stored list, as counted one task at a time by `CountDone`; hence at most the length, and zero exactly when no task is completed |
| `Tasks.SelectCompletedCount` | src/hooks/useTasks.ts:147 | filtering for completed tasks keeps exactly as many tasks as there are completed tasks |
| `Tasks.TotalCount` | src/hooks/useTasks.ts:163 | the number of stored tasks, which equals the completed count plus the number of tasks clear-completed keeps |
| `Tasks.UnknownIdChangesNothing` | src/hooks/useTasks.ts:92-109 | toggle, set-description, a non-empty rename and delete with an id no task has return the list unchanged |
| `Tasks.ToggleTwice` | src/hooks/useTasks.ts:93 | toggling the same id twice restores every completion flag; only matching tasks' `updatedAt` moves |
| `Tasks.UpdateKeepsIds` | src/hooks/useTasks.ts:93 | id-targeted updates keep every id in its position |
| `Tasks.SelectAppend` | src/hooks/useTasks.ts:97 | filtering distributes over concatenation, so the kept tasks keep their order |
| `Tasks.SelectAll` | src/hooks/useTasks.ts:112 | a filter every task passes returns the list unchanged |
| `Tasks.SelectPartition` | src/hooks/useTasks.ts:112 | a filter and its negation split the list: multisets add up to the whole, and so do lengths |
| `Tasks.AllCompleted` | src/hooks/useTasks.ts:147-163 | completed count equals total count exactly when every task is completed |
| `Tasks.DeleteUniqueId` | src/hooks/useTasks.ts:96-98 | with unique ids, deleting the id at position k removes exactly that task and keeps the rest in order |
| `Tasks.SelectKeepsUniqueIds` | src/hooks/useTasks.ts:97 | delete and clear-completed keep ids unique |
| `Tasks.AddKeepsUniqueIds` | src/hooks/useTasks.ts:79-88 | adding with an id no task has keeps ids unique |
| `Tasks.AddThenAddSameTitle` | src/hooks/useTasks.ts:74-78 | after a successful add, adding a title equal up to trimming and letter case fails |
| `Tasks.RenameAllowsDuplicateTitle` | src/hooks/useTasks.ts:100-105 | rename has no duplicate check: when task j already has the title case-insensitively, adding that title is refused, while renaming a different task k to it succeeds and leaves j and k with the same lower-cased title |
| `Text.TrimStart` | src/hooks/useTasks.ts:74 | drops only leading whitespace and leaves a suffix that does not start with whitespace |
| `Text.TrimEnd` | src/hooks/useTasks.ts:74 | drops only trailing whitespace and leaves a prefix that does not end with whitespace |
| `Text.Trim` | src/hooks/useTasks.ts:101 | the slice of the input between a leading and a trailing run of whitespace; empty exactly when the input is all whitespace; otherwise starts and ends with non-whitespace |
| `Text.TrimSlice` | src/hooks/useTasks.ts:101 | stripping leading and then trailing whitespace leaves the slice between the two whitespace runs |
| `Text.TrimKeepsTrimmed` | src/hooks/useTasks.ts:101 | a string with non-whitespace at both ends is its own trim |
| `Text.Lower` | src/hooks/useTasks.ts:77 | same length; no upper-case ASCII letter is left; each one becomes its lower-case partner; every other character stays |
| `Text.TrimIdempotent` | src/hooks/useTasks.ts:74 | trimming twice is trimming once |
| `Text.Collate` | src/hooks/useTasks.ts:134 | the title comparator, by code point, returns -1, 0 or 1, and 0 only for strings of equal length |
| `Text.CollateAntisymmetric` | src/hooks/useTasks.ts:137 | swapping the arguments negates the result |
| `Text.CollateZero` | src/hooks/useTasks.ts:134 | the comparator returns 0 exactly for equal strings |
| `Text.CollateTransitive` | src/hooks/useTasks.ts:134 | the comparator's at-most-equal relation is transitive |
| `Loader.WellShapedMeans` | src/hooks/useTasks.ts:27 | a record is kept exactly when it is an object whose `id` and `title` members are strings |
| `Loader.FalsyValues` | src/hooks/useTasks.ts:31 | `completed` is false exactly for a missing value, `null`, `false`, `0` and `""` |
| `Loader.ToTask` | src/hooks/useTasks.ts:28-35 | keeps id and title; `completed` is the truthiness of the stored value; a non-string description becomes ""; each non-number timestamp becomes `now` |
| `Loader.ParseRecords` | src/hooks/useTasks.ts:26-35 | at most one task per record; every well-shaped record's task is in the result, and every result task comes from a well-shaped record |
| `Loader.SafeParseTasks` | src/hooks/useTasks.ts:21-39 | empty for a missing entry, the empty string, unparseable text or a non-array document; otherwise the converted well-shaped records |
| `Loader.TaskToJson` | src/hooks/useTasks.ts:41-47 | the stored form of a task always passes the loader's shape check |
| `Loader.EncodeAll` | src/hooks/useTasks.ts:43 | one stored record per task, in list order, each the stored form of its task |
| `Loader.Encode` | src/hooks/useTasks.ts:41-47 | the stored collection is an array with one record per task |
| `Loader.ParseRecordsAppend` | src/hooks/useTasks.ts:26-35 | loading distributes over concatenation, so records are kept in input order |
| `Loader.ParseRecordsSingle` | src/hooks/useTasks.ts:27 | one record yields its task exactly when its id and title are strings |
| `Loader.DropsMalformedRecord` | src/hooks/useTasks.ts:27 | a record without a string id or title is dropped wherever it stands, and the rest are unaffected |
| `Loader.ParseRecordsCons` | src/hooks/useTasks.ts:26-35 | a well-shaped leading record contributes its task in front of the tasks of the rest |
| `Loader.ParseEncoded` | src/hooks/useTasks.ts:26-47 | parsing the records written for a list gives back exactly that list |
| `Loader.TaskRoundTrip` | src/hooks/useTasks.ts:28-35 | a saved task loads back as itself |
| `Loader.LoadAfterSave` | src/hooks/useTasks.ts:21-47 | saving a list and loading it back gives the same tasks in the same order, whatever the clock says |
| `View.SortKeyOf` | src/hooks/useTasks.ts:129-142 | "oldest", "alpha" and "alphaDesc" pick their comparator; every other value, "newest" included, picks the newest-first comparator |
| `View.CompareMeans` | src/hooks/useTasks.ts:130-141 | newest puts the later creation time first and oldest the earlier one, tying on equal times; alpha puts the title that collates first before, alphaDesc the title that collates last |
| `View.FilterBase` | src/hooks/useTasks.ts:125-127 | "active" keeps exactly the tasks not completed, "completed" exactly the completed ones, any other value all tasks; always in stored order |
| `View.CompareAntisymmetric` | src/hooks/useTasks.ts:129-143 | each sort comparator changes sign when its arguments are swapped |
| `View.CompareTransitive` | src/hooks/useTasks.ts:129-143 | each sort comparator's at-most-equal relation is transitive |
| `View.AlphaTieIffSameTitle` | src/hooks/useTasks.ts:133-138 | with the code-point collation, "alpha" and "alphaDesc" tie two tasks exactly when their titles are equal |
| `View.ReverseSorted` | src/hooks/useTasks.ts:129-143 | a list sorted one way, read backwards, is sorted the opposite way |
| `View.SortedUnique` | src/hooks/useTasks.ts:128-144 | without ties, a collection has exactly one sorted arrangement |
| `View.OppositeSortIsReverse` | src/hooks/useTasks.ts:129-143 | without ties, the opposite sort ("oldest" against "newest", "alphaDesc" against "alpha") is the reverse |
| `View.AlphaDescReversesAlpha` | src/hooks/useTasks.ts:133-138 | with the code-point collation and distinct titles, sorting by "alphaDesc" gives the reverse of sorting by "alpha" |
| `View.FilterPartition` | src/hooks/useTasks.ts:125-126 | the "completed" and "active" subsets partition the stored list, with no overlap and no omission |
| `View.Swap` | src/hooks/useTasks.ts:128-144 | exchanges two cells of the copy and changes nothing else |
| `View.SinkStep` | src/hooks/useTasks.ts:128-144 | exchanging the sinking task with a left neighbour that orders after it keeps the insertion invariant one place further left |
| `View.SinkDone` | src/hooks/useTasks.ts:128-144 | once the left neighbour orders no later, the prefix up to the inserted cell is sorted |
| `View.InsertAt` | src/hooks/useTasks.ts:128-144 | extends the sorted prefix of the copy by one cell, keeps the copy's contents as a multiset, and leaves the cells after it untouched |
| `View.SortInPlace` | src/hooks/useTasks.ts:128-144 | the copy ends up ordered by the comparator and holds the same tasks |
| `Store.TaskStore.constructor` | src/hooks/useTasks.ts:50-52 | starts with no tasks, filter "all" and sort "newest" |
| `Store.TaskStore.Load` | src/hooks/useTasks.ts:56-65 | the tasks come from the loader; each preference is the stored string, or its default when nothing is stored |
| `Store.TaskStore.AddTask` | src/hooks/useTasks.ts:73-90 | returns whether the add was accepted; installs the new list only then, and touches only the task list |
| `Store.TaskStore.ToggleTask` | src/hooks/useTasks.ts:92-94 | installs the toggled list; preferences untouched |
| `Store.TaskStore.DeleteTask` | src/hooks/useTasks.ts:96-98 | installs the list without the id; preferences untouched |
| `Store.TaskStore.RenameTask` | src/hooks/useTasks.ts:100-105 | returns true exactly when the trimmed title is non-empty; installs the renamed list only then |
| `Store.TaskStore.SetDescription` | src/hooks/useTasks.ts:107-109 | installs the list with the new description; preferences untouched |
| `Store.TaskStore.ClearCompleted` | src/hooks/useTasks.ts:111-113 | installs the list without completed tasks; preferences untouched |
| `Store.TaskStore.SetFilter` | src/hooks/useTasks.ts:115-118 | sets the filter preference and nothing else |
| `Store.TaskStore.SetSort` | src/hooks/useTasks.ts:119-122 | sets the sort preference and nothing else |
| `Store.TaskStore.FilteredSortedTasks` | src/hooks/useTasks.ts:124-145 | a permutation of the filter subset, sorted by the preferred comparator; the stored list is not modified |

## Left out

- Writes to and reads from `localStorage`, including the swallowed write
  errors (src/hooks/useTasks.ts:41-47, 117, 121). The loader starts from an
  already-parsed value or a parse failure.
- JSON text handling. `JSON.parse` and `JSON.stringify` are modelled only at
  the value level. JSON numbers are integers. Fractional and exponent
  numbers are outside the model.
- React effect and memo scheduling. This covers the `hasLoadedRef` gate,
  the save-on-change effect, and the `typeof window` guard
  (src/hooks/useTasks.ts:53-71).
- `addTask` reads the duplicate check from the rendered `tasks` but
  prepends to the pending `prev` list. The model assumes the two are the
  same list, meaning no batched updates happen between renders.
- Every `Date.now()` call within one operation is taken to return the same
  instant `now`.
- `Text.Lower`: folds ASCII letters only. Unicode case mapping of
  `toLowerCase` is not modelled.
- `Text.Collate`: compares by Unicode code point, a total order that ties
  only equal strings. The program's `localeCompare` orders differently on
  ordinary titles: every upper-case ASCII letter sorts before every
  lower-case one, so "Banana" comes before "apple", while a locale order
  puts "apple" first. Accented letters sort by code point, after all ASCII
  letters. Locale collation can also tie distinct strings (a precomposed
  "é" against "e" followed by a combining accent); this order never does.
- `View.AlphaTieIffSameTitle`: holds only for the code-point stand-in,
  which ties no distinct strings. Under locale collation, distinct titles
  can tie.
- `View.AlphaDescReversesAlpha`: assumes a collation that ties no distinct
  strings. For a collation with such ties, the statement that carries over
  is `View.OppositeSortIsReverse` under `View.DistinctKeys`.
- `View.SortInPlace`: an insertion sort stands in for the engine's
  `Array.prototype.sort`. It states sortedness and permutation but not
  stability.
- `Store.TaskStore.FilteredSortedTasks`: does not state that tasks with
  equal keys keep their stored order. That is the sort stability modern
  engines give.
- The presentation layer: page, components, theme toggle, delete
  animation, and the progress percentage.

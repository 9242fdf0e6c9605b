# TodoList list logic in Dafny

This project models the list logic of the `TodoList` React component
(`src/App.js`). The component keeps an ordered list of todo records
`{text, date, dueDate}` and supports four operations:

- **submit**: appends a new record stamped with the current time;
- **delete**: removes the record at a list position;
- **compare**: the comparator `compareTodos` orders two records by due time
  and, as a side effect, writes a `status` string into each of them. The
  string is `"Done"` when the due time has passed and `"ToDo"` otherwise;
- **sort**: the list is sorted in place with that comparator on every render
  (`todos.sort(compareTodos)`), which stamps the status of every record the
  sort compares.

Everything is in module `TodoList` (`TodoList.dfy`). `Wrappers.dfy` holds the
`Option` type.

- A todo is a class `Todo`. Its `text`, `date` and `dueDate` fields are
  constants, because nothing in the component writes them after creation.
  `status` is a mutable `Option<string>`; `None` means the property is still
  undefined.
- A time is an `int` holding a JavaScript time value in milliseconds. The
  clock reading `now` is a parameter.
- `dueDate` is the time value that `new Date(dueDate)` produces. `None` stands
  for an empty or unparsable string, whose time value is NaN.
- The comparator's result is a `Number`, either `Finite(v)` or `NaN`.
  `SortOrder` turns NaN into 0, as ECMA-262's CompareArrayElements does for
  `Array.prototype.sort`.
- Submit and delete build new lists, so they work on `seq<Todo>`. Submit is a
  method because it allocates the new record.
- The comparator is a method that writes the two status fields.
- The sort is an in-place insertion sort over an `array<Todo>`. Each step asks
  the comparator about a todo and its left neighbour, and swaps them while the
  answer is positive. The recursive functions `Insert`/`SortFrom` (the
  resulting order) and `InsertCompared`/`SortCompared` (the todos compared)
  are its specification. The lemmas prove the sort properties about these
  functions, and the methods are proved to follow them.

## Model

| member | source | states |
|---|---|---|
| `TodoList.Todo.constructor` | src/App.js:20 | a new record has the given text, creation time and due date, and no status yet |
| `TodoList.HandleSubmit` | src/App.js:18-23 | the new list is one longer, keeps every old todo in order, and ends with a fresh record `{text: newTodo, date: now, dueDate}` without a status; the text is not checked |
| `TodoList.HandleDelete` | src/App.js:25-28 | for `0 <= index < |todos|` the result is `todos[..index] + todos[index+1..]`; for any other index it is the list unchanged |
| `TodoList.DeleteRemovesOne` | src/App.js:26 | a delete at a valid position shortens the list by one, and the todos it keeps plus the deleted one are exactly the old list (as a multiset) |
| `TodoList.DeleteShiftsLater` | src/App.js:26 | after a delete every todo before the index keeps its position and every later one moves up by one |
| `TodoList.DeleteUndoesSubmit` | src/App.js:18-28 | deleting the last position right after a submit gives back the list from before the submit |
| `TodoList.DeleteCommutesWithSubmit` | src/App.js:18-28 | deleting an earlier position after a submit equals deleting it first and then appending the submitted todo |
| `TodoList.StatusFor` | src/App.js:36-46 | the status is `"Done"` exactly when the due date is valid and strictly before now, otherwise `"ToDo"`. So a todo due exactly now, or with no or an invalid due date, is `"ToDo"` |
| `TodoList.DueDifference` | src/App.js:48 | the comparator's result is NaN exactly when either due date is invalid; otherwise it is the difference `aDue - bDue` |
| `TodoList.ComparatorSign` | src/App.js:48 | for two valid due dates, what the sort sees is negative, zero or positive as `aDue` is less than, equal to or greater than `bDue` |
| `TodoList.ComparatorAntisymmetric` | src/App.js:48 | swapping the comparator's arguments negates what the sort sees, NaN cases included |
| `TodoList.ComparatorSwaps` | src/App.js:48 | the sort sees a positive answer exactly when both due dates are valid and the first is later |
| `TodoList.UndatedIsInconsistent` | src/App.js:31-32 | with an undated todo the comparator is not a consistent order: two dated todos that are not equal each compare equal to the undated one |
| `TodoList.CompareTodos` | src/App.js:30-49 | after the call each argument's status is `"Done"` iff its due date is valid and before now, else `"ToDo"`; the result is `DueDifference(aDue, bDue)`; only the two status fields are written |
| `TodoList.Insert` | src/App.js:60 | one pass of the sort keeps the length of the list |
| `TodoList.SortFrom` | src/App.js:60 | the remaining passes keep the length of the list |
| `TodoList.InsertionSwap` | src/App.js:48 | exchanging the moving todo with a left neighbour that is due later keeps the partial order of an insertion |
| `TodoList.InsertionStop` | src/App.js:48 | when the moving todo's left neighbour is not due later, the prefix up to the pass position is sorted |
| `TodoList.InsertPermutes` | src/App.js:60 | a pass rearranges the list without adding or losing todos, and leaves every position after the pass position alone |
| `TodoList.InsertSorts` | src/App.js:48 | with all due dates valid, a pass that starts with a sorted prefix extends the sorted prefix by one |
| `TodoList.InsertComparesMoved` | src/App.js:60 | a pass at position `j > 0` compares the todo at `j` and the one at `j - 1` |
| `TodoList.SortFromPermutes` | src/App.js:60 | the remaining passes rearrange the list without adding or losing todos |
| `TodoList.SortFromSorts` | src/App.js:48 | with all due dates valid and a sorted prefix, the remaining passes sort the whole list by due time |
| `TodoList.SortFromComparesAll` | src/App.js:60 | every todo from the pass position on is compared by the remaining passes, and so is the first todo when the list has two or more |
| `TodoList.InsertionSortCorrect` | src/App.js:60 | the sort result is a permutation of the input; with all due dates valid it is non-decreasing by due time; with two or more todos every todo is compared |
| `TodoList.CompareAndSwap` | src/App.js:60 | one comparator call on adjacent todos stamps both and swaps them exactly when the answer is positive |
| `TodoList.InsertAt` | src/App.js:60 | one in-place pass leaves the array equal to `Insert` of its old contents and stamps every todo that pass compares; its frame is the array and the todos the pass compares, so every other todo keeps its status |
| `TodoList.SortTodos` | src/App.js:60 | the array ends as `InsertionSort` of its old contents: a permutation, sorted by due time when every due date is valid. With two or more todos every status is set for `now`; with fewer, no status changes |

## Left out

- Rendering: the JSX, the form inputs, the coloured status labels and the delete buttons (src/App.js:51-70). These are presentation only.
- The `useState`/`useEffect` plumbing (src/App.js:4-16). The state is passed in and returned explicitly.
- Persistence in `localStorage` and the `JSON.parse`/`JSON.stringify` round-trip (src/App.js:4, 9-11). This is I/O. It also turns `date` back into a string, which the model does not represent.
- The one-second clock (src/App.js:13-16). The current time is the parameter `now`.
- Parsing of `datetime-local` strings with `new Date(...)` and `toLocaleString()` formatting (src/App.js:31-32, 55, 58, 62). A due date is taken to be already parsed into `Option<int>`.
- `event.preventDefault()` and the clearing of the two input fields after a submit (src/App.js:19, 21-22). They are form state, not list state.
- HandleDelete: the index is an `int`. In JavaScript a non-integer index matches no position and deletes nothing, the same as an out-of-range one.
- SortTodos: uses one clock reading for every comparison. The source reads the clock afresh on every comparator call (src/App.js:33), so a sort that spans a clock tick could stamp against two different instants.
- SortTodos: the engine's sort algorithm is not fixed by ECMA-262. The model uses an insertion sort that asks the comparator about adjacent todos. Permutation, sortedness when all due dates are valid, and stamping of every todo in a list of two or more hold for any correct sort. The exact order and the exact set of comparisons with an undated todo present are those of this insertion sort. The engine is free to differ there, because the comparator is then inconsistent (`UndatedIsInconsistent`).
- DueDifference: time values are unbounded integers, and the difference is exact. In JavaScript, two time values within ±8.64e15 ms can differ by more than 2^53. Such a difference is rounded to a double, but rounding never changes the sign of a nonzero integer, and the sign is all `Array.prototype.sort` uses. Dates entered through the `datetime-local` input (years 0001 to 275760) differ by less than 2^53, so for them the difference is exact.
- Priorities, the Urgent and Overdue statuses, a completion flag, grouping by day, rejection of empty text, and an error on a stale delete index do not exist in src/App.js, so they are not modelled. In this code `"Done"` means that the due time has passed.

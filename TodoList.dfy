/** The list logic of the TodoList component: appending a todo on submit,
    deleting a todo by its position, the comparator that stamps each todo's
    status while ordering two todos by due time, and the in-place sort of
    the list with that comparator.

    Times are JavaScript time values (milliseconds since the epoch) as `int`.
    A due date is the time value of `new Date(dueDate)`: `None` stands for an
    empty or unparsable date string, whose time value is NaN. */
module TodoList {
  import opened Wrappers

  /** The two strings the comparator writes into a todo's status.
      "Done" means that the due time has passed, not that the todo was completed. */
  const DONE: string := "Done"
  const TODO: string := "ToDo"

  /** One todo record `{text, date, dueDate}` plus the `status` property the
      comparator adds to it. Only `status` is ever written after creation. */
  class Todo {
    const text: string
    const date: int
    const dueDate: Option<int>
    /** `None` while the property is undefined, before any comparison. */
    var status: Option<string>

    constructor (text: string, date: int, dueDate: Option<int>)
      ensures this.text == text && this.date == date && this.dueDate == dueDate
      ensures status == None
    {
      this.text := text;
      this.date := date;
      this.dueDate := dueDate;
      status := None;
    }
  }

  // ---------------------------------------------------------------------
  // Submit and delete

  /** The form's submit handler: a new list holding every existing todo, in
      order, followed by a fresh record built from the input text, the
      current time and the due date. The input text is not checked. */
  method HandleSubmit(todos: seq<Todo>, newTodo: string, dueDate: Option<int>, now: int)
    returns (r: seq<Todo>)
    ensures |r| == |todos| + 1
    ensures r[..|todos|] == todos
    ensures fresh(r[|todos|])
    ensures r[|todos|].text == newTodo && r[|todos|].date == now && r[|todos|].dueDate == dueDate
    ensures r[|todos|].status == None
  {
    var t := new Todo(newTodo, now, dueDate);
    r := todos + [t];
  }

  /** The delete handler: keeps every todo whose position differs from
      `index`, in order. An index outside the list removes nothing. */
  function HandleDelete(todos: seq<Todo>, index: int): (r: seq<Todo>)
    ensures 0 <= index < |todos| ==> r == todos[..index] + todos[index + 1..]
    ensures !(0 <= index < |todos|) ==> r == todos
  {
    if todos == [] then []
    else
      var last := |todos| - 1;
      HandleDelete(todos[..last], index) + (if last == index then [] else [todos[last]])
  }

  /** Deleting at a valid position removes exactly the todo there: what is
      kept, together with it, is the old list as a multiset. */
  lemma {:induction false} DeleteRemovesOne(todos: seq<Todo>, index: int)
    requires 0 <= index < |todos|
    ensures |HandleDelete(todos, index)| == |todos| - 1
    ensures multiset(HandleDelete(todos, index)) + multiset{todos[index]} == multiset(todos)
  {
    var last := |todos| - 1;
    assert todos == todos[..last] + [todos[last]];
    if index < last {
      DeleteRemovesOne(todos[..last], index);
    }
  }

  /** Every todo that survives a delete keeps its position or moves up by one. */
  lemma DeleteShiftsLater(todos: seq<Todo>, index: int, k: int)
    requires 0 <= index < |todos| && 0 <= k < |todos| - 1
    ensures HandleDelete(todos, index)[k] == if k < index then todos[k] else todos[k + 1]
  {
  }

  /** Deleting the position a submit has just filled gives back the list before the submit. */
  lemma DeleteUndoesSubmit(todos: seq<Todo>, t: Todo)
    ensures HandleDelete(todos + [t], |todos|) == todos
  {
    assert (todos + [t])[..|todos|] == todos;
  }

  /** Deleting an earlier todo after a submit is the same as deleting it before. */
  lemma DeleteCommutesWithSubmit(todos: seq<Todo>, t: Todo, index: int)
    requires 0 <= index < |todos|
    ensures HandleDelete(todos + [t], index) == HandleDelete(todos, index) + [t]
  {
    var s := todos + [t];
    assert s[..index] == todos[..index];
    assert s[index + 1..] == todos[index + 1..] + [t];
  }

  // ---------------------------------------------------------------------
  // The comparator

  /** A JavaScript number as the comparator produces it: the difference of two
      time values, or NaN when either date is invalid. */
  datatype Number = Finite(value: int) | NaN

  /** The status the comparator writes for a todo due at `due` at time `now`:
      `dueDate < currentTime` on Date objects compares time values and is false
      whenever the due date is invalid. */
  function StatusFor(due: Option<int>, now: int): (s: string)
    ensures s == DONE <==> (due.Some? && due.value < now)
    ensures s == DONE || s == TODO
  {
    match due
    case None => TODO
    case Some(t) => if t < now then DONE else TODO
  }

  /** `aDueDate - bDueDate` on two Date objects. */
  function DueDifference(a: Option<int>, b: Option<int>): (r: Number)
    ensures r.NaN? <==> (a.None? || b.None?)
    ensures r.Finite? ==> r.value + b.value == a.value
  {
    match (a, b)
    case (Some(x), Some(y)) => Finite(x - y)
    case _ => NaN
  }

  /** The value Array.prototype.sort uses from a comparator result: ECMA-262's
      CompareArrayElements turns NaN into +0. */
  function SortOrder(r: Number): int
  {
    match r
    case Finite(v) => v
    case NaN => 0
  }

  /** For two present due dates, the comparator's sign follows their order. */
  lemma ComparatorSign(a: Option<int>, b: Option<int>)
    requires a.Some? && b.Some?
    ensures SortOrder(DueDifference(a, b)) < 0 <==> a.value < b.value
    ensures SortOrder(DueDifference(a, b)) == 0 <==> a.value == b.value
    ensures SortOrder(DueDifference(a, b)) > 0 <==> a.value > b.value
  {
  }

  /** Swapping the arguments negates what the sort sees, NaN cases included. */
  lemma ComparatorAntisymmetric(a: Option<int>, b: Option<int>)
    ensures SortOrder(DueDifference(a, b)) == -SortOrder(DueDifference(b, a))
  {
  }

  /** The sort moves a todo behind another exactly when both are dated and
      the first is due later. */
  lemma ComparatorSwaps(a: Option<int>, b: Option<int>)
    ensures SortOrder(DueDifference(a, b)) > 0 <==> (a.Some? && b.Some? && a.value > b.value)
  {
  }

  /** With an undated todo the comparator is not a consistent order: both dated
      todos compare equal to the undated one but not to each other. */
  lemma UndatedIsInconsistent(x: int, y: int)
    requires x < y
    ensures SortOrder(DueDifference(Some(x), None)) == 0
    ensures SortOrder(DueDifference(None, Some(y))) == 0
    ensures SortOrder(DueDifference(Some(x), Some(y))) < 0
  {
  }

  /** A todo whose status the comparator has set for time `now`. */
  predicate Stamped(t: Todo, now: int)
    reads t
  {
    t.status == Some(StatusFor(t.dueDate, now))
  }

  /** The comparator: sets the status of both arguments, then returns the
      difference of their due times. `now` is the clock reading. */
  method CompareTodos(a: Todo, b: Todo, now: int) returns (r: Number)
    modifies a`status, b`status
    ensures Stamped(a, now) && Stamped(b, now)
    ensures a.status == Some(DONE) <==> (a.dueDate.Some? && a.dueDate.value < now)
    ensures b.status == Some(DONE) <==> (b.dueDate.Some? && b.dueDate.value < now)
    ensures a.status == Some(DONE) || a.status == Some(TODO)
    ensures b.status == Some(DONE) || b.status == Some(TODO)
    ensures r == DueDifference(a.dueDate, b.dueDate)
  {
    if a.dueDate.Some? && a.dueDate.value < now {
      a.status := Some(DONE);
    } else {
      a.status := Some(TODO);
    }
    if b.dueDate.Some? && b.dueDate.value < now {
      b.status := Some(DONE);
    } else {
      b.status := Some(TODO);
    }
    r := DueDifference(a.dueDate, b.dueDate);
  }

  // ---------------------------------------------------------------------
  // The sort

  /** Every todo has a valid due date. */
  predicate AllDue(s: seq<Todo>)
  {
    forall k :: 0 <= k < |s| ==> s[k].dueDate.Some?
  }

  /** The due time of a dated todo (0 stands in for a missing one). */
  function DueKey(t: Todo): int
  {
    match t.dueDate
    case Some(v) => v
    case None => 0
  }

  /** Non-decreasing by due time between positions `lo` and `hi` (exclusive). */
  predicate SortedBetween(s: seq<Todo>, lo: int, hi: int)
  {
    forall p, q :: lo <= p < q < hi && 0 <= p && q < |s| ==> DueKey(s[p]) <= DueKey(s[q])
  }

  /** Non-decreasing by due time. */
  predicate SortedByDue(s: seq<Todo>)
  {
    SortedBetween(s, 0, |s|)
  }

  /** Whether the sort puts `y` before `x` after asking the comparator about
      `x` and its right neighbour `y`: the answer is positive. */
  predicate Swaps(x: Todo, y: Todo)
  {
    SortOrder(DueDifference(x.dueDate, y.dueDate)) > 0
  }

  /** The list after one pass of the insertion sort moves the todo at position
      `j` left, exchanging it with its left neighbour while the comparator
      says the neighbour is due later. */
  function Insert(s: seq<Todo>, j: int): (r: seq<Todo>)
    requires 0 <= j < |s|
    ensures |r| == |s|
    decreases j
  {
    if j == 0 || !Swaps(s[j - 1], s[j]) then s
    else Insert(s[j - 1 := s[j]][j := s[j - 1]], j - 1)
  }

  /** The todos the comparator sees during `Insert(s, j)`. */
  function InsertCompared(s: seq<Todo>, j: int): set<Todo>
    requires 0 <= j < |s|
    decreases j
  {
    if j == 0 then {}
    else if Swaps(s[j - 1], s[j]) then {s[j - 1], s[j]} + InsertCompared(s[j - 1 := s[j]][j := s[j - 1]], j - 1)
    else {s[j - 1], s[j]}
  }

  /** The list after the passes for positions `i` to the end. */
  function SortFrom(s: seq<Todo>, i: nat): (r: seq<Todo>)
    ensures |r| == |s|
    decreases |s| - i
  {
    if i >= |s| then s else SortFrom(Insert(s, i), i + 1)
  }

  /** The todos the comparator sees during the passes for positions `i` to the end. */
  function SortCompared(s: seq<Todo>, i: nat): set<Todo>
    decreases |s| - i
  {
    if i >= |s| then {} else InsertCompared(s, i) + SortCompared(Insert(s, i), i + 1)
  }

  /** Progress of the sort of `original` after the passes before position
      `i`: the passes left on `s` finish the sort, and together with the todos
      in `done` they compare every todo the whole sort compares. */
  predicate SortProgress(original: seq<Todo>, s: seq<Todo>, i: nat, done: set<Todo>)
  {
    && SortFrom(s, i) == SortFrom(original, 1)
    && SortCompared(original, 1) == done + SortCompared(s, i)
  }

  /** One more pass keeps the progress of the sort. */
  lemma SortFromStep(original: seq<Todo>, s: seq<Todo>, i: nat, done: set<Todo>)
    requires 1 <= i < |s| && SortProgress(original, s, i, done)
    ensures SortProgress(original, Insert(s, i), i + 1, done + InsertCompared(s, i))
  {
  }

  /** The order `todos.sort(compareTodos)` leaves the list in. */
  function InsertionSort(s: seq<Todo>): seq<Todo>
  {
    SortFrom(s, 1)
  }

  /** Insertion of the todo now at position `j` into the sorted prefix
      `s[..i]`: the todos left of `j` are sorted, the todos from `j` to `i` are
      sorted, and none left of `j` is due later than one right of it. */
  predicate InsertionState(s: seq<Todo>, j: int, i: int)
    requires 0 <= j <= i < |s|
  {
    && SortedBetween(s, 0, j)
    && SortedBetween(s, j, i + 1)
    && forall p, q :: 0 <= p < j < q <= i ==> DueKey(s[p]) <= DueKey(s[q])
  }

  /** Swapping the moving todo with a left neighbour due later keeps the state. */
  lemma {:induction false} InsertionSwap(s: seq<Todo>, j: int, i: int)
    requires 0 < j <= i < |s| && InsertionState(s, j, i)
    requires DueKey(s[j - 1]) > DueKey(s[j])
    ensures InsertionState(s[j - 1 := s[j]][j := s[j - 1]], j - 1, i)
  {
    var t := s[j - 1 := s[j]][j := s[j - 1]];
    forall p, q | j - 1 <= p < q <= i
      ensures DueKey(t[p]) <= DueKey(t[q])
    {
      if p == j - 1 && q > j {
        assert DueKey(s[j]) <= DueKey(s[q]);
      } else if p == j && q > j {
        assert DueKey(s[j - 1]) <= DueKey(s[q]);
      }
    }
  }

  /** Once the moving todo's left neighbour is not due later, `s[..i + 1]` is sorted. */
  lemma {:induction false} InsertionStop(s: seq<Todo>, j: int, i: int)
    requires 0 <= j <= i < |s| && InsertionState(s, j, i)
    requires j == 0 || DueKey(s[j - 1]) <= DueKey(s[j])
    ensures SortedBetween(s, 0, i + 1)
  {
    forall p, q | 0 <= p < q <= i
      ensures DueKey(s[p]) <= DueKey(s[q])
    {
      if p < j && q == j {
        assert DueKey(s[p]) <= DueKey(s[j - 1]);
      }
    }
  }

  /** A pass only exchanges todos, and only at positions up to `j`. */
  lemma {:induction false} InsertPermutes(s: seq<Todo>, j: int)
    requires 0 <= j < |s|
    ensures multiset(Insert(s, j)) == multiset(s)
    ensures forall k :: j < k < |s| ==> Insert(s, j)[k] == s[k]
    decreases j
  {
    if j > 0 && Swaps(s[j - 1], s[j]) {
      var t := s[j - 1 := s[j]][j := s[j - 1]];
      assert multiset(t) == multiset(s) by {
        assert t == s[..j - 1] + [s[j], s[j - 1]] + s[j + 1..];
        assert s == s[..j - 1] + [s[j - 1], s[j]] + s[j + 1..];
      }
      InsertPermutes(t, j - 1);
    }
  }

  /** With every todo dated, a pass that starts from an insertion state
      leaves the first `i + 1` todos sorted and every todo dated. */
  lemma {:induction false} InsertSorts(s: seq<Todo>, j: int, i: int)
    requires 0 <= j <= i < |s| && AllDue(s) && InsertionState(s, j, i)
    ensures SortedBetween(Insert(s, j), 0, i + 1)
    ensures AllDue(Insert(s, j))
    decreases j
  {
    if j == 0 {
      InsertionStop(s, j, i);
    } else if !Swaps(s[j - 1], s[j]) {
      ComparatorSwaps(s[j - 1].dueDate, s[j].dueDate);
      InsertionStop(s, j, i);
    } else {
      ComparatorSwaps(s[j - 1].dueDate, s[j].dueDate);
      InsertionSwap(s, j, i);
      var t := s[j - 1 := s[j]][j := s[j - 1]];
      assert AllDue(t);
      InsertSorts(t, j - 1, i);
    }
  }

  /** Every todo of `s` is one of `objs`. */
  predicate Within(s: seq<Todo>, objs: set<Todo>)
  {
    forall k :: 0 <= k < |s| ==> s[k] in objs
  }

  /** Exchanging two neighbours keeps a list within the same todos. */
  lemma SwapWithin(s: seq<Todo>, j: int, objs: set<Todo>)
    requires 0 < j < |s| && Within(s, objs)
    ensures Within(s[j - 1 := s[j]][j := s[j - 1]], objs)
  {
  }

  /** A pass over a list within `objs` compares only todos of `objs`. */
  lemma {:induction false} InsertComparedWithin(s: seq<Todo>, j: int, objs: set<Todo>)
    requires 0 <= j < |s| && Within(s, objs)
    ensures InsertCompared(s, j) <= objs
    decreases j
  {
    if j > 0 && Swaps(s[j - 1], s[j]) {
      SwapWithin(s, j, objs);
      InsertComparedWithin(s[j - 1 := s[j]][j := s[j - 1]], j - 1, objs);
    }
  }

  /** A pass over a list within `objs` leaves a list within `objs`. */
  lemma {:induction false} InsertWithin(s: seq<Todo>, j: int, objs: set<Todo>)
    requires 0 <= j < |s| && Within(s, objs)
    ensures Within(Insert(s, j), objs)
    decreases j
  {
    if j > 0 && Swaps(s[j - 1], s[j]) {
      SwapWithin(s, j, objs);
      InsertWithin(s[j - 1 := s[j]][j := s[j - 1]], j - 1, objs);
    }
  }

  /** A pass whose first comparison swaps continues one position to the left
      on the swapped list, having compared the two swapped todos. */
  lemma InsertSwapStep(s: seq<Todo>, j: int)
    requires 0 < j < |s| && Swaps(s[j - 1], s[j])
    ensures Insert(s, j) == Insert(s[j - 1 := s[j]][j := s[j - 1]], j - 1)
    ensures InsertCompared(s, j) == {s[j - 1], s[j]} + InsertCompared(s[j - 1 := s[j]][j := s[j - 1]], j - 1)
  {
  }

  /** A pass compares the todo it moves and the one to its left. */
  lemma InsertComparesMoved(s: seq<Todo>, j: int)
    requires 0 < j < |s|
    ensures s[j - 1] in InsertCompared(s, j) && s[j] in InsertCompared(s, j)
  {
  }

  /** The passes from `i` on keep the todos (as a multiset). */
  lemma {:induction false} SortFromPermutes(s: seq<Todo>, i: nat)
    ensures multiset(SortFrom(s, i)) == multiset(s)
    decreases |s| - i
  {
    if i < |s| {
      InsertPermutes(s, i);
      SortFromPermutes(Insert(s, i), i + 1);
    }
  }

  /** With every todo dated and the first `i` todos sorted, the passes from
      `i` on sort the whole list. */
  lemma {:induction false} SortFromSorts(s: seq<Todo>, i: nat)
    requires AllDue(s) && SortedBetween(s, 0, i)
    ensures SortedByDue(SortFrom(s, i))
    decreases |s| - i
  {
    if i < |s| {
      InsertSorts(s, i, i);
      SortFromSorts(Insert(s, i), i + 1);
    }
  }

  /** Every todo at position `i` or later is compared by the passes from `i`
      on; from the first pass on, so is the todo at position 0. */
  lemma {:induction false} SortFromComparesAll(s: seq<Todo>, i: nat)
    requires 1 <= i
    ensures forall k :: i <= k < |s| ==> s[k] in SortCompared(s, i)
    ensures i == 1 && |s| >= 2 ==> s[0] in SortCompared(s, i)
    decreases |s| - i
  {
    if i < |s| {
      InsertComparesMoved(s, i);
      InsertPermutes(s, i);
      SortFromComparesAll(Insert(s, i), i + 1);
    }
  }

  /** The insertion sort keeps the todos; with every due date valid it orders
      them by due time; a list of two or more has every todo compared. */
  lemma InsertionSortCorrect(s: seq<Todo>)
    ensures multiset(InsertionSort(s)) == multiset(s)
    ensures AllDue(s) ==> SortedByDue(InsertionSort(s))
    ensures |s| >= 2 ==> forall t :: t in s ==> t in SortCompared(s, 1)
  {
    SortFromPermutes(s, 1);
    if AllDue(s) {
      SortFromSorts(s, 1);
    }
    SortFromComparesAll(s, 1);
    if |s| >= 2 {
      forall t | t in s
        ensures t in SortCompared(s, 1)
      {
        var k :| 0 <= k < |s| && s[k] == t;
      }
    }
  }

  /** One comparison of the insertion sort: asks the comparator about the
      todos at positions `j - 1` and `j`, which stamps both, and exchanges them
      when the answer is positive. */
  method CompareAndSwap(a: array<Todo>, j: int, now: int) returns (swapped: bool)
    requires 0 < j < a.Length
    modifies a, a[j - 1], a[j]
    ensures swapped == Swaps(old(a[j - 1]), old(a[j]))
    ensures a[..] == if swapped then old(a[..])[j - 1 := old(a[j])][j := old(a[j - 1])] else old(a[..])
    ensures Stamped(old(a[j - 1]), now) && Stamped(old(a[j]), now)
  {
    var order := CompareTodos(a[j - 1], a[j], now);
    swapped := SortOrder(order) > 0;
    if swapped {
      a[j - 1], a[j] := a[j], a[j - 1];
    }
  }

  /** One pass of the insertion sort, in place: the list becomes
      `Insert(old list, i)`, every todo the pass compares is stamped for `now`,
      and todos already stamped (`done`) stay stamped. The frame is the array
      and the todos the pass compares, so every other todo keeps its status. */
  method InsertAt(a: array<Todo>, i: int, now: int, ghost done: set<Todo>)
    requires 1 <= i < a.Length
    requires forall t :: t in done ==> Stamped(t, now)
    modifies a, InsertCompared(a[..], i)
    ensures a[..] == Insert(old(a[..]), i)
    ensures forall t :: t in done + InsertCompared(old(a[..]), i) ==> Stamped(t, now)
  {
    ghost var original := a[..];
    ghost var seen: set<Todo> := {};
    var j := i;
    while j > 0
      invariant 0 <= j <= i
      invariant Insert(a[..], j) == Insert(original, i)
      invariant InsertCompared(original, i) == seen + InsertCompared(a[..], j)
      invariant forall t :: t in done + seen ==> Stamped(t, now)
    {
      ghost var before := a[..];
      InsertComparesMoved(before, j);
      var swapped := CompareAndSwap(a, j, now);
      seen := seen + {before[j - 1], before[j]};
      if !swapped {
        return;
      }
      InsertSwapStep(before, j);
      j := j - 1;
    }
  }

  /** `todos.sort(compareTodos)`, as an insertion sort over the list in
      place. The list becomes `InsertionSort` of the old list: the same todos,
      ordered by due time when every due date is valid. A list of two or more
      todos has every todo compared, so every status is set for `now`; a
      shorter list is never compared and keeps its statuses. */
  method SortTodos(a: array<Todo>, now: int)
    modifies a, a[..]
    ensures a[..] == InsertionSort(old(a[..]))
    ensures multiset(a[..]) == multiset(old(a[..]))
    ensures AllDue(old(a[..])) ==> SortedByDue(a[..])
    ensures a.Length >= 2 ==> forall k :: 0 <= k < a.Length ==> Stamped(a[k], now)
    ensures a.Length < 2 ==> forall k :: 0 <= k < a.Length ==> a[k].status == old(a[k].status)
  {
    ghost var original := a[..];
    var n := a.Length;
    if n < 2 {
      InsertionSortCorrect(original);
      return;
    }
    ghost var objs := set k | 0 <= k < n :: a[k];
    ghost var done: set<Todo> := {};
    var i := 1;
    while i < n
      invariant 1 <= i <= n
      invariant SortProgress(original, a[..], i, done)
      invariant Within(a[..], objs)
      invariant forall t :: t in done ==> Stamped(t, now)
    {
      ghost var before := a[..];
      InsertComparedWithin(before, i, objs);
      InsertAt(a, i, now, done);
      InsertWithin(before, i, objs);
      SortFromStep(original, before, i, done);
      done := done + InsertCompared(before, i);
      i := i + 1;
    }
    InsertionSortCorrect(original);
    forall k | 0 <= k < n
      ensures Stamped(a[k], now)
    {
      assert a[k] in multiset(a[..]);
    }
  }
}

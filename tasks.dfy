/**
 * The task record of the store and the list transforms behind its mutations
 * (`addTask`, `toggleTask`, `deleteTask`, `renameTask`, `setDescription`,
 * `clearCompleted`) and counts (`completedCount`, `totalCount`).
 *
 * Each transform is a pure function from the old list to the new one; the
 * clock (`Date.now()`) and the id generator (`crypto.randomUUID()`) are
 * parameters.
 */
module Tasks {
  import opened Text

  datatype Option<T> = None | Some(value: T)

  datatype Task = Task(
    id: string,
    title: string,
    completed: bool,
    description: string,
    createdAt: int,   // epoch milliseconds
    updatedAt: int    // epoch milliseconds
  )

  /** The change an id-targeted update makes to a matching task. */
  datatype Edit =
    | Flip(now: int)
    | Retitle(title: string, now: int)
    | Describe(description: string, now: int)

  /** A predicate on tasks, as used by the list filters. */
  datatype Criterion = HasId(id: string) | IsCompleted | Not(c: Criterion)

  predicate Holds(c: Criterion, t: Task) {
    match c
    case HasId(id) => t.id == id
    case IsCompleted => t.completed
    case Not(c') => !Holds(c', t)
  }

  /** `a` occurs in `b` in order, possibly with gaps. */
  ghost predicate IsSubsequence<T>(a: seq<T>, b: seq<T>)
    decreases |b|
  {
    a == [] || (b != [] && if a[0] == b[0] then IsSubsequence(a[1..], b[1..]) else IsSubsequence(a, b[1..]))
  }

  lemma {:induction false} SubsequenceOfItself<T>(s: seq<T>)
    ensures IsSubsequence(s, s)
  {
    if s != [] {
      SubsequenceOfItself(s[1..]);
    }
  }

  /** No two tasks of the list share an id. */
  ghost predicate UniqueIds(tasks: seq<Task>) {
    forall i, j :: 0 <= i < j < |tasks| ==> tasks[i].id != tasks[j].id
  }

  // ---------------------------------------------------------------------
  // Building blocks: `Array.prototype.some`, `map` and `filter`

  /** `tasks.some(t => t.title.toLowerCase() === key)`. */
  function AnyTitleIs(tasks: seq<Task>, key: string): (b: bool)
    ensures b <==> exists i :: 0 <= i < |tasks| && Lower(tasks[i].title) == key
  {
    if tasks == [] then false
    else Lower(tasks[0].title) == key || AnyTitleIs(tasks[1..], key)
  }

  /** A task after edit `e`: the id and creation time never change, the
      last-update time becomes the edit's instant. */
  function Apply(e: Edit, t: Task): (u: Task)
    ensures u.id == t.id && u.createdAt == t.createdAt && u.updatedAt == e.now
    ensures e.Flip? ==> u.completed == !t.completed && u.title == t.title && u.description == t.description
    ensures e.Retitle? ==> u.title == e.title && u.completed == t.completed && u.description == t.description
    ensures e.Describe? ==> u.description == e.description && u.completed == t.completed && u.title == t.title
  {
    match e
    case Flip(now) => t.(completed := !t.completed, updatedAt := now)
    case Retitle(title, now) => t.(title := title, updatedAt := now)
    case Describe(description, now) => t.(description := description, updatedAt := now)
  }

  /** `tasks.map(t => t.id === id ? <edited t> : t)`. */
  function UpdateWhere(tasks: seq<Task>, id: string, e: Edit): (r: seq<Task>)
    ensures |r| == |tasks|
    ensures forall i :: 0 <= i < |tasks| && tasks[i].id == id ==> r[i] == Apply(e, tasks[i])
    ensures forall i :: 0 <= i < |tasks| && tasks[i].id != id ==> r[i] == tasks[i]
  {
    if tasks == [] then []
    else [if tasks[0].id == id then Apply(e, tasks[0]) else tasks[0]] + UpdateWhere(tasks[1..], id, e)
  }

  /** `tasks.filter(t => <c holds of t>)`: an order-preserving subsequence
      that holds exactly the tasks satisfying `c`. */
  function Select(tasks: seq<Task>, c: Criterion): (r: seq<Task>)
    ensures |r| <= |tasks|
    ensures forall t :: t in r <==> t in tasks && Holds(c, t)
    ensures IsSubsequence(r, tasks)
  {
    if tasks == [] then []
    else if Holds(c, tasks[0]) then [tasks[0]] + Select(tasks[1..], c)
    else Select(tasks[1..], c)
  }

  // ---------------------------------------------------------------------
  // The store's operations on its list

  /** `addTask`: rejected (None) when the trimmed title is empty or some
      task's lower-cased title equals the lower-cased trimmed title;
      otherwise the new task, built from the trimmed title, not completed,
      with the given description or "", created and updated `now`, is put
      in front of the unchanged old list. */
  function AddTask(tasks: seq<Task>, title: string, description: Option<string>, id: string, now: int)
    : (r: Option<seq<Task>>)
    ensures r.None? <==>
      Trim(title) == [] || exists i :: 0 <= i < |tasks| && Lower(tasks[i].title) == Lower(Trim(title))
    ensures r.Some? ==>
      && |r.value| == |tasks| + 1
      && r.value[1..] == tasks
      && r.value[0].id == id
      && r.value[0].title == Trim(title)
      && !r.value[0].completed
      && r.value[0].description == (if description.Some? then description.value else "")
      && r.value[0].createdAt == now && r.value[0].updatedAt == now
  {
    var trimmed := Trim(title);
    if trimmed == [] then None
    else if AnyTitleIs(tasks, Lower(trimmed)) then None
    else
      var newTask := Task(id, trimmed, false, match description case Some(d) => d case None => "", now, now);
      Some([newTask] + tasks)
  }

  /** `toggleTask`: every task with the given id has its completion flag
      flipped and its update time set; all other tasks stay as they were. */
  function ToggleTask(tasks: seq<Task>, id: string, now: int): (r: seq<Task>)
    ensures |r| == |tasks|
    ensures forall i :: 0 <= i < |tasks| ==>
      if tasks[i].id == id then r[i] == tasks[i].(completed := !tasks[i].completed, updatedAt := now)
      else r[i] == tasks[i]
  {
    UpdateWhere(tasks, id, Flip(now))
  }

  /** `renameTask`: refused (None) exactly when the trimmed title is empty;
      otherwise the tasks with the given id take the trimmed title and a new
      update time (accepted even when no id matches, and without any
      duplicate-title check). */
  function RenameTask(tasks: seq<Task>, id: string, nextTitle: string, now: int): (r: Option<seq<Task>>)
    ensures r.None? <==> Trim(nextTitle) == []
    ensures r.Some? ==> |r.value| == |tasks| && forall i :: 0 <= i < |tasks| ==>
      if tasks[i].id == id then r.value[i] == tasks[i].(title := Trim(nextTitle), updatedAt := now)
      else r.value[i] == tasks[i]
  {
    var trimmed := Trim(nextTitle);
    if trimmed == [] then None else Some(UpdateWhere(tasks, id, Retitle(trimmed, now)))
  }

  /** `setDescription`: the tasks with the given id take the description as
      given (no validation) and a new update time; the rest are unchanged. */
  function SetDescription(tasks: seq<Task>, id: string, description: string, now: int): (r: seq<Task>)
    ensures |r| == |tasks|
    ensures forall i :: 0 <= i < |tasks| ==>
      if tasks[i].id == id then r[i] == tasks[i].(description := description, updatedAt := now)
      else r[i] == tasks[i]
  {
    UpdateWhere(tasks, id, Describe(description, now))
  }

  /** `deleteTask`: the tasks whose id differs, in their old order. */
  function DeleteTask(tasks: seq<Task>, id: string): (r: seq<Task>)
    ensures forall t :: t in r <==> t in tasks && t.id != id
    ensures IsSubsequence(r, tasks)
  {
    assert forall t :: Holds(Not(HasId(id)), t) <==> t.id != id;
    Select(tasks, Not(HasId(id)))
  }

  /** `clearCompleted`: the tasks not completed, in their old order. */
  function ClearCompleted(tasks: seq<Task>): (r: seq<Task>)
    ensures forall t :: t in r <==> t in tasks && !t.completed
    ensures IsSubsequence(r, tasks)
  {
    assert forall t :: Holds(Not(IsCompleted), t) <==> !t.completed;
    Select(tasks, Not(IsCompleted))
  }

  /** The number of completed tasks, counted one task at a time. */
  function CountDone(tasks: seq<Task>): nat {
    if tasks == [] then 0
    else (if tasks[0].completed then 1 else 0) + CountDone(tasks[1..])
  }

  /** Keeping the completed tasks keeps as many tasks as there are
      completed ones. */
  lemma {:induction false} SelectCompletedCount(tasks: seq<Task>)
    ensures |Select(tasks, IsCompleted)| == CountDone(tasks)
  {
    if tasks != [] {
      SelectCompletedCount(tasks[1..]);
    }
  }

  /** `completedCount`: the number of completed tasks in the stored list. */
  function CompletedCount(tasks: seq<Task>): (n: nat)
    ensures n == CountDone(tasks)
    ensures n <= |tasks|
    ensures n == 0 <==> forall i :: 0 <= i < |tasks| ==> !tasks[i].completed
  {
    var done := Select(tasks, IsCompleted);
    SelectCompletedCount(tasks);
    assert done != [] ==> done[0] in tasks;
    assert forall i :: 0 <= i < |tasks| && tasks[i].completed ==> tasks[i] in done;
    |done|
  }

  /** `totalCount`: the length of the stored list, which the completed
      tasks and the tasks `clearCompleted` keeps add up to. */
  function TotalCount(tasks: seq<Task>): (n: nat)
    ensures n == |tasks|
    ensures n == CompletedCount(tasks) + |ClearCompleted(tasks)|
  {
    SelectPartition(tasks, IsCompleted);
    |tasks|
  }

  // ---------------------------------------------------------------------
  // Properties

  /** An operation aimed at an id no task has leaves the list identical:
      toggle, set-description, a non-empty rename and delete alike. */
  lemma UnknownIdChangesNothing(tasks: seq<Task>, id: string, title: string, description: string, now: int)
    requires forall i :: 0 <= i < |tasks| ==> tasks[i].id != id
    ensures ToggleTask(tasks, id, now) == tasks
    ensures SetDescription(tasks, id, description, now) == tasks
    ensures Trim(title) != [] ==> RenameTask(tasks, id, title, now) == Some(tasks)
    ensures DeleteTask(tasks, id) == tasks
  {
    SelectAll(tasks, Not(HasId(id)));
    if Trim(title) != [] {
      assert RenameTask(tasks, id, title, now).value == tasks;
    }
  }

  /** Toggling the same id twice gives every task back its old completion
      flag; only the update time of the matching tasks moves. */
  lemma ToggleTwice(tasks: seq<Task>, id: string, now1: int, now2: int)
    ensures var r := ToggleTask(ToggleTask(tasks, id, now1), id, now2);
      |r| == |tasks| &&
      forall i :: 0 <= i < |tasks| ==>
        r[i] == if tasks[i].id == id then tasks[i].(updatedAt := now2) else tasks[i]
  {
    var once := ToggleTask(tasks, id, now1);
    var twice := ToggleTask(once, id, now2);
    forall i | 0 <= i < |tasks|
      ensures twice[i] == if tasks[i].id == id then tasks[i].(updatedAt := now2) else tasks[i]
    {
      assert once[i].id == tasks[i].id;
    }
  }

  /** The id-targeted updates keep every id in place. */
  lemma UpdateKeepsIds(tasks: seq<Task>, id: string, e: Edit)
    ensures var r := UpdateWhere(tasks, id, e);
      forall i :: 0 <= i < |tasks| ==> r[i].id == tasks[i].id
  {
  }

  /** `filter` distributes over concatenation: the order of the input is the
      order of the output. */
  lemma {:induction false} SelectAppend(a: seq<Task>, b: seq<Task>, c: Criterion)
    ensures Select(a + b, c) == Select(a, c) + Select(b, c)
  {
    if a == [] {
      assert a + b == b;
    } else {
      assert (a + b)[1..] == a[1..] + b;
      SelectAppend(a[1..], b, c);
    }
  }

  /** A filter every task passes keeps the list as it is: deleting an id no
      task has, or clearing when nothing is completed, changes nothing. */
  lemma {:induction false} SelectAll(tasks: seq<Task>, c: Criterion)
    requires forall i :: 0 <= i < |tasks| ==> Holds(c, tasks[i])
    ensures Select(tasks, c) == tasks
  {
    if tasks != [] {
      SelectAll(tasks[1..], c);
    }
  }

  /** A filter and its negation split the list: every task lands in exactly
      one of the two. */
  lemma {:induction false} SelectPartition(tasks: seq<Task>, c: Criterion)
    ensures multiset(Select(tasks, c)) + multiset(Select(tasks, Not(c))) == multiset(tasks)
    ensures |Select(tasks, c)| + |Select(tasks, Not(c))| == |tasks|
  {
    if tasks != [] {
      SelectPartition(tasks[1..], c);
      assert tasks == [tasks[0]] + tasks[1..];
    }
  }

  /** Every task is completed exactly when the completed count is the total. */
  lemma AllCompleted(tasks: seq<Task>)
    ensures CompletedCount(tasks) == TotalCount(tasks) <==> forall i :: 0 <= i < |tasks| ==> tasks[i].completed
  {
    var rest := ClearCompleted(tasks);
    if CompletedCount(tasks) == TotalCount(tasks) {
      assert forall i :: 0 <= i < |tasks| ==> tasks[i].completed;
    } else {
      assert rest != [];
      assert rest[0] in rest;
    }
  }

  /** With unique ids, deleting the id of the task at `k` removes exactly
      that task and keeps the others in order. */
  lemma DeleteUniqueId(tasks: seq<Task>, k: nat)
    requires UniqueIds(tasks) && k < |tasks|
    ensures DeleteTask(tasks, tasks[k].id) == tasks[..k] + tasks[k + 1..]
  {
    var c := Not(HasId(tasks[k].id));
    assert tasks == tasks[..k] + ([tasks[k]] + tasks[k + 1..]);
    SelectAppend(tasks[..k], [tasks[k]] + tasks[k + 1..], c);
    SelectAppend([tasks[k]], tasks[k + 1..], c);
    SelectAll(tasks[..k], c);
    SelectAll(tasks[k + 1..], c);
  }

  /** A filter keeps ids unique. */
  lemma {:induction false} SelectKeepsUniqueIds(tasks: seq<Task>, c: Criterion)
    requires UniqueIds(tasks)
    ensures UniqueIds(Select(tasks, c))
  {
    if tasks != [] {
      SelectKeepsUniqueIds(tasks[1..], c);
      var rest := Select(tasks[1..], c);
      forall j | 0 <= j < |rest| ensures rest[j].id != tasks[0].id {
        assert rest[j] in tasks[1..];
      }
    }
  }

  /** Adding with an id no task has keeps ids unique. */
  lemma AddKeepsUniqueIds(tasks: seq<Task>, title: string, description: Option<string>, id: string, now: int)
    requires UniqueIds(tasks)
    requires forall i :: 0 <= i < |tasks| ==> tasks[i].id != id
    ensures var r := AddTask(tasks, title, description, id, now);
      r.Some? ==> UniqueIds(r.value)
  {
    var r := AddTask(tasks, title, description, id, now);
    if r.Some? {
      forall i, j | 0 <= i < j < |r.value| ensures r.value[i].id != r.value[j].id {
        assert r.value[j] == tasks[j - 1];
        if i > 0 {
          assert r.value[i] == tasks[i - 1];
        }
      }
    }
  }

  /** A successful add leaves no other task with the same case-insensitive
      title, so a second add of the same title (in any letter case) fails. */
  lemma AddThenAddSameTitle(tasks: seq<Task>, title: string, title2: string, d: Option<string>, d2: Option<string>,
                            id: string, id2: string, now: int, now2: int)
    requires Lower(Trim(title2)) == Lower(Trim(title))
    requires AddTask(tasks, title, d, id, now).Some?
    ensures AddTask(AddTask(tasks, title, d, id, now).value, title2, d2, id2, now2).None?
  {
    var r := AddTask(tasks, title, d, id, now).value;
    assert Lower(r[0].title) == Lower(Trim(title2));
  }

  /** Renaming skips the duplicate check that adding makes: a title that
      add refuses because task `j` already has it (up to letter case) is
      accepted by a rename of task `k`, which then duplicates task `j`. */
  lemma RenameAllowsDuplicateTitle(tasks: seq<Task>, j: nat, k: nat, title: string, d: Option<string>,
                                   newId: string, now: int)
    requires j < |tasks| && k < |tasks| && tasks[j].id != tasks[k].id
    requires Trim(title) != [] && Lower(tasks[j].title) == Lower(Trim(title))
    ensures AddTask(tasks, title, d, newId, now).None?
    ensures var r := RenameTask(tasks, tasks[k].id, title, now);
      r.Some? && Lower(r.value[k].title) == Lower(r.value[j].title)
  {
  }
}

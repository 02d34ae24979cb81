/**
 * The task store (`useTasks`): the stored task list, the filter preference
 * and the sort preference, and the operations that replace them. Every
 * mutation installs the list its `Tasks` function computes from the old
 * one; the clock reading and the fresh id are arguments.
 */
module Store {
  import opened Text
  import opened Tasks
  import opened Loader
  import opened View

  class TaskStore {
    /** The stored tasks, newest additions first; independent of the sort. */
    var tasks: seq<Task>
    /** The filter preference as stored: "all", "active", "completed" or
        whatever string the saved preference held. */
    var filter: string
    /** The sort preference as stored: "newest", "oldest", "alpha",
        "alphaDesc" or whatever string the saved preference held. */
    var sort: string

    /** The state before the saved data is loaded. */
    constructor ()
      ensures tasks == [] && filter == "all" && sort == "newest"
    {
      tasks, filter, sort := [], "all", "newest";
    }

    /** Restores the saved state: the tasks through `safeParseTasks`, each
        preference as stored, or its default when nothing was stored. */
    method Load(stored: Stored, storedFilter: Option<string>, storedSort: Option<string>, now: int)
      modifies this
      ensures tasks == SafeParseTasks(stored, now)
      ensures filter == if storedFilter.Some? then storedFilter.value else "all"
      ensures sort == if storedSort.Some? then storedSort.value else "newest"
    {
      tasks := SafeParseTasks(stored, now);
      filter := match storedFilter case Some(f) => f case None => "all";
      sort := match storedSort case Some(s) => s case None => "newest";
    }

    method AddTask(title: string, description: Option<string>, id: string, now: int) returns (added: bool)
      modifies this`tasks
      ensures added <==> Tasks.AddTask(old(tasks), title, description, id, now).Some?
      ensures added ==> tasks == Tasks.AddTask(old(tasks), title, description, id, now).value
      ensures !added ==> tasks == old(tasks)
    {
      var r := Tasks.AddTask(tasks, title, description, id, now);
      added := r.Some?;
      if added {
        tasks := r.value;
      }
    }

    method ToggleTask(id: string, now: int)
      modifies this`tasks
      ensures tasks == Tasks.ToggleTask(old(tasks), id, now)
    {
      tasks := Tasks.ToggleTask(tasks, id, now);
    }

    method DeleteTask(id: string)
      modifies this`tasks
      ensures tasks == Tasks.DeleteTask(old(tasks), id)
    {
      tasks := Tasks.DeleteTask(tasks, id);
    }

    method RenameTask(id: string, nextTitle: string, now: int) returns (renamed: bool)
      modifies this`tasks
      ensures renamed <==> Trim(nextTitle) != []
      ensures renamed ==> tasks == Tasks.RenameTask(old(tasks), id, nextTitle, now).value
      ensures !renamed ==> tasks == old(tasks)
    {
      var r := Tasks.RenameTask(tasks, id, nextTitle, now);
      renamed := r.Some?;
      if renamed {
        tasks := r.value;
      }
    }

    method SetDescription(id: string, description: string, now: int)
      modifies this`tasks
      ensures tasks == Tasks.SetDescription(old(tasks), id, description, now)
    {
      tasks := Tasks.SetDescription(tasks, id, description, now);
    }

    method ClearCompleted()
      modifies this`tasks
      ensures tasks == Tasks.ClearCompleted(old(tasks))
    {
      tasks := Tasks.ClearCompleted(tasks);
    }

    method SetFilter(next: string)
      modifies this`filter
      ensures filter == next
    {
      filter := next;
    }

    method SetSort(next: string)
      modifies this`sort
      ensures sort == next
    {
      sort := next;
    }

    /** `filteredSortedTasks`: a fresh copy of the filter subset, sorted by
        the preferred comparator; the stored list is left as it is. */
    method FilteredSortedTasks() returns (view: seq<Task>)
      ensures multiset(view) == multiset(FilterBase(tasks, filter))
      ensures SortedBy(view, SortKeyOf(sort))
    {
      var base := FilterBase(tasks, filter);
      var copy := new Task[|base|](i requires 0 <= i < |base| => base[i]);
      assert copy[..] == base;
      SortInPlace(copy, SortKeyOf(sort));
      view := copy[..];
    }
  }

  /** A session on a store holding two open tasks: toggling one makes the
      completed count one, the "completed" view shows just that task, and
      clearing completed tasks leaves the other one. */
  method CompleteAndClear(store: TaskStore, first: Task, second: Task, now: int)
    requires store.tasks == [first, second] && first.id != second.id
    requires !first.completed && !second.completed
    modifies store
  {
    assert TotalCount(store.tasks) == 2;
    store.ToggleTask(second.id, now);
    var done := second.(completed := true, updatedAt := now);
    assert store.tasks == [first, done];
    assert CompletedCount(store.tasks) == 1 by {
      assert Select(store.tasks, IsCompleted) == [done];
    }
    store.SetFilter("completed");
    var view := store.FilteredSortedTasks();
    assert FilterBase(store.tasks, "completed") == [done];
    assert |view| == |multiset(view)| == 1;
    assert view[0] in multiset(view);
    assert view == [done];
    store.ClearCompleted();
    assert store.tasks == [first] by {
      assert [first, done][1..] == [done] && [done][1..] == [];
      assert Select([done], Not(IsCompleted)) == [];
    }
    assert TotalCount(store.tasks) == 1;
  }
}

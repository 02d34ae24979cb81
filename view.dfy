/**
 * The derived view of the store (`filteredSortedTasks`): the stored list
 * narrowed by the filter preference, copied, and sorted in place by the
 * comparator the sort preference selects.
 */
module View {
  import opened Text
  import opened Tasks

  /** The four orders; any unrecognised preference string acts as Newest. */
  datatype SortKey = Newest | Oldest | Alpha | AlphaDesc

  function SortKeyOf(sort: string): (k: SortKey)
    ensures k == Oldest <==> sort == "oldest"
    ensures k == Alpha <==> sort == "alpha"
    ensures k == AlphaDesc <==> sort == "alphaDesc"
    ensures k == Newest <==> sort != "oldest" && sort != "alpha" && sort != "alphaDesc"
  {
    if sort == "oldest" then Oldest
    else if sort == "alpha" then Alpha
    else if sort == "alphaDesc" then AlphaDesc
    else Newest
  }

  /** The filter step: "active" keeps the tasks not completed, "completed"
      keeps the completed ones, any other preference keeps every task; in
      every case in the stored order. */
  function FilterBase(tasks: seq<Task>, filter: string): (r: seq<Task>)
    ensures IsSubsequence(r, tasks)
    ensures filter == "active" ==> forall t :: t in r <==> t in tasks && !t.completed
    ensures filter == "completed" ==> forall t :: t in r <==> t in tasks && t.completed
    ensures filter != "active" && filter != "completed" ==> r == tasks
  {
    if filter == "active" then ClearCompleted(tasks)
    else if filter == "completed" then Select(tasks, IsCompleted)
    else SubsequenceOfItself(tasks); tasks
  }

  /** The comparator handed to `Array.prototype.sort`: negative when `a`
      belongs before `b`. */
  function Compare(k: SortKey, a: Task, b: Task): int {
    match k
    case Newest => b.createdAt - a.createdAt
    case Oldest => a.createdAt - b.createdAt
    case Alpha => Collate(a.title, b.title)
    case AlphaDesc => Collate(b.title, a.title)
  }

  /** Every earlier task compares at most equal to every later one. */
  ghost predicate SortedBy(s: seq<Task>, k: SortKey) {
    forall i, j :: 0 <= i < j < |s| ==> Compare(k, s[i], s[j]) <= 0
  }

  /** No two tasks of `s` tie under the comparator. */
  ghost predicate DistinctKeys(s: seq<Task>, k: SortKey) {
    forall i, j :: 0 <= i < |s| && 0 <= j < |s| && i != j ==> Compare(k, s[i], s[j]) != 0
  }

  /** Newest and Oldest are each other's reverse, and so are Alpha and
      AlphaDesc. */
  function Opposite(k: SortKey): SortKey {
    match k
    case Newest => Oldest
    case Oldest => Newest
    case Alpha => AlphaDesc
    case AlphaDesc => Alpha
  }

  function Reverse(s: seq<Task>): (r: seq<Task>)
    ensures |r| == |s|
    ensures forall i :: 0 <= i < |s| ==> r[i] == s[|s| - 1 - i]
  {
    if s == [] then [] else Reverse(s[1..]) + [s[0]]
  }

  // ---------------------------------------------------------------------
  // The comparators are consistent

  /** What puts `a` before `b`: Newest the later creation time, Oldest the
      earlier one; Alpha the title that collates first and AlphaDesc the
      one that collates last. Newest and Oldest tie on equal times. */
  lemma CompareMeans(k: SortKey, a: Task, b: Task)
    ensures k == Newest ==> (Compare(k, a, b) < 0 <==> a.createdAt > b.createdAt)
    ensures k == Oldest ==> (Compare(k, a, b) < 0 <==> a.createdAt < b.createdAt)
    ensures k == Newest || k == Oldest ==> (Compare(k, a, b) == 0 <==> a.createdAt == b.createdAt)
    ensures k == Alpha ==> (Compare(k, a, b) < 0 <==> Collate(a.title, b.title) < 0)
    ensures k == AlphaDesc ==> (Compare(k, a, b) < 0 <==> Collate(a.title, b.title) > 0)
  {
    CollateAntisymmetric(a.title, b.title);
  }

  /** Swapping the arguments flips the sign. */
  lemma CompareAntisymmetric(k: SortKey, a: Task, b: Task)
    ensures Compare(k, a, b) < 0 <==> Compare(k, b, a) > 0
    ensures Compare(k, a, b) == 0 <==> Compare(k, b, a) == 0
  {
    if k.Alpha? || k.AlphaDesc? {
      CollateAntisymmetric(a.title, b.title);
    }
  }

  lemma CompareTransitive(k: SortKey, a: Task, b: Task, c: Task)
    requires Compare(k, a, b) <= 0 && Compare(k, b, c) <= 0
    ensures Compare(k, a, c) <= 0
  {
    match k
    case Alpha => CollateTransitive(a.title, b.title, c.title);
    case AlphaDesc => CollateTransitive(c.title, b.title, a.title);
    case _ =>
  }

  /** Under Alpha and AlphaDesc two tasks tie exactly when their titles are
      equal. */
  lemma AlphaTieIffSameTitle(a: Task, b: Task)
    ensures Compare(Alpha, a, b) == 0 <==> a.title == b.title
    ensures Compare(AlphaDesc, a, b) == 0 <==> a.title == b.title
  {
    CollateZero(a.title, b.title);
    CollateZero(b.title, a.title);
  }

  // ---------------------------------------------------------------------
  // Sorted orders

  lemma {:induction false} ReverseMultiset(s: seq<Task>)
    ensures multiset(Reverse(s)) == multiset(s)
  {
    if s != [] {
      ReverseMultiset(s[1..]);
      assert s == [s[0]] + s[1..];
    }
  }

  /** Read backwards, a list sorted one way is sorted the opposite way. */
  lemma ReverseSorted(s: seq<Task>, k: SortKey)
    requires SortedBy(s, k)
    ensures SortedBy(Reverse(s), Opposite(k))
  {
    var r := Reverse(s);
    forall i, j | 0 <= i < j < |r| ensures Compare(Opposite(k), r[i], r[j]) <= 0 {
      assert Compare(k, s[|s| - 1 - j], s[|s| - 1 - i]) <= 0;
    }
  }

  lemma SortedTail(x: seq<Task>, k: SortKey)
    requires x != [] && SortedBy(x, k)
    ensures SortedBy(x[1..], k)
  {
    var t := x[1..];
    forall i, j | 0 <= i < j < |t| ensures Compare(k, t[i], t[j]) <= 0 {
      assert t[i] == x[i + 1] && t[j] == x[j + 1];
    }
  }

  lemma DistinctTail(x: seq<Task>, k: SortKey)
    requires x != [] && DistinctKeys(x, k)
    ensures DistinctKeys(x[1..], k)
  {
    var t := x[1..];
    forall i, j | 0 <= i < |t| && 0 <= j < |t| && i != j ensures Compare(k, t[i], t[j]) != 0 {
      assert t[i] == x[i + 1] && t[j] == x[j + 1];
    }
  }

  lemma MultisetTail(x: seq<Task>, y: seq<Task>)
    requires x != [] && y != [] && x[0] == y[0] && multiset(x) == multiset(y)
    ensures multiset(x[1..]) == multiset(y[1..])
  {
    assert x == [x[0]] + x[1..] && y == [y[0]] + y[1..];
    assert multiset(x[1..]) == multiset(x) - multiset{x[0]};
    assert multiset(y[1..]) == multiset(y) - multiset{y[0]};
  }

  /** Two sorted arrangements of the same tasks without ties start with the
      same task. */
  lemma SortedSameHead(x: seq<Task>, y: seq<Task>, k: SortKey)
    requires x != [] && multiset(x) == multiset(y)
    requires SortedBy(x, k) && SortedBy(y, k) && DistinctKeys(x, k)
    ensures y != [] && x[0] == y[0]
  {
    assert x[0] in multiset(y);
    assert y != [];
    assert y[0] in multiset(x);
    var j :| 0 <= j < |y| && y[j] == x[0];
    var i :| 0 <= i < |x| && x[i] == y[0];
    if i != 0 && j != 0 {
      assert Compare(k, x[0], x[i]) <= 0;
      assert Compare(k, y[0], y[j]) <= 0;
      CompareAntisymmetric(k, x[0], x[i]);
      assert false;
    }
  }

  /** When no two tasks tie, there is only one sorted arrangement of a
      collection. */
  lemma {:induction false} SortedUnique(x: seq<Task>, y: seq<Task>, k: SortKey)
    requires multiset(x) == multiset(y)
    requires SortedBy(x, k) && SortedBy(y, k) && DistinctKeys(x, k)
    ensures x == y
  {
    if x == [] {
      assert |y| == |multiset(y)| == 0;
    } else {
      SortedSameHead(x, y, k);
      MultisetTail(x, y);
      SortedTail(x, k);
      SortedTail(y, k);
      DistinctTail(x, k);
      SortedUnique(x[1..], y[1..], k);
    }
  }

  /** For tasks with pairwise different keys (titles for Alpha, creation
      times for Newest), the opposite sort is the reverse of the sort. */
  lemma OppositeSortIsReverse(x: seq<Task>, y: seq<Task>, k: SortKey)
    requires multiset(x) == multiset(y)
    requires SortedBy(x, k) && SortedBy(y, Opposite(k)) && DistinctKeys(x, k)
    ensures y == Reverse(x)
  {
    var r := Reverse(x);
    ReverseMultiset(x);
    ReverseSorted(x, k);
    forall i, j | 0 <= i < |r| && 0 <= j < |r| && i != j ensures Compare(Opposite(k), r[i], r[j]) != 0 {
      assert Compare(k, x[|x| - 1 - j], x[|x| - 1 - i]) != 0;
    }
    SortedUnique(r, y, Opposite(k));
  }

  /** For tasks with pairwise different titles, sorting by "alphaDesc"
      gives the reverse of sorting by "alpha". */
  lemma AlphaDescReversesAlpha(x: seq<Task>, y: seq<Task>)
    requires multiset(x) == multiset(y)
    requires SortedBy(x, Alpha) && SortedBy(y, AlphaDesc)
    requires forall i, j :: 0 <= i < j < |x| ==> x[i].title != x[j].title
    ensures y == Reverse(x)
  {
    forall i, j | 0 <= i < |x| && 0 <= j < |x| && i != j ensures Compare(Alpha, x[i], x[j]) != 0 {
      AlphaTieIffSameTitle(x[i], x[j]);
    }
    OppositeSortIsReverse(x, y, Alpha);
  }

  /** The "completed" and "active" views split the stored list: no task in
      both, none left out. */
  lemma FilterPartition(tasks: seq<Task>)
    ensures multiset(FilterBase(tasks, "completed")) + multiset(FilterBase(tasks, "active")) == multiset(tasks)
    ensures forall t :: !(t in FilterBase(tasks, "completed") && t in FilterBase(tasks, "active"))
  {
    SelectPartition(tasks, IsCompleted);
  }

  // ---------------------------------------------------------------------
  // `copy.sort(compare)`

  /** Exchanges two cells of the copy. */
  method Swap(a: array<Task>, i: int, j: int)
    requires 0 <= i < j < a.Length
    modifies a
    ensures a[i] == old(a[j]) && a[j] == old(a[i])
    ensures forall m :: 0 <= m < a.Length && m != i && m != j ==> a[m] == old(a[m])
    ensures multiset(a[..]) == old(multiset(a[..]))
  {
    a[i], a[j] := a[j], a[i];
  }

  /** While `s[i]` sinks to its place, at `j`: the other cells up to `i`
      are in order, and the sinking task orders before every cell after it. */
  ghost predicate Sinking(s: seq<Task>, i: int, j: int, k: SortKey)
    requires 0 <= j <= i < |s|
  {
    (forall p, q :: 0 <= p < q <= i && p != j && q != j ==> Compare(k, s[p], s[q]) <= 0)
    && (forall q :: j < q <= i ==> Compare(k, s[j], s[q]) <= 0)
  }

  /** Exchanging the sinking task with a left neighbour that orders after
      it moves the sinking position one to the left. */
  lemma SinkStep(s: seq<Task>, i: int, j: int, k: SortKey)
    requires 0 < j <= i < |s| && Sinking(s, i, j, k) && Compare(k, s[j - 1], s[j]) > 0
    ensures Sinking(s[j - 1 := s[j]][j := s[j - 1]], i, j - 1, k)
  {
    CompareAntisymmetric(k, s[j - 1], s[j]);
  }

  /** Once the left neighbour orders no later, the cells up to `i` are
      sorted. */
  lemma SinkDone(s: seq<Task>, i: int, j: int, k: SortKey)
    requires 0 <= j <= i < |s| && Sinking(s, i, j, k)
    requires j == 0 || Compare(k, s[j - 1], s[j]) <= 0
    ensures forall p, q :: 0 <= p < q <= i ==> Compare(k, s[p], s[q]) <= 0
  {
    forall p | 0 <= p < j ensures Compare(k, s[p], s[j]) <= 0 {
      if p < j - 1 {
        CompareTransitive(k, s[p], s[j - 1], s[j]);
      }
    }
  }

  /** Moves `a[i]` left into the sorted prefix `a[..i]`, so that `a[..i + 1]`
      is sorted, the array holds the same tasks, and the cells after `i` are
      untouched. */
  method InsertAt(a: array<Task>, i: int, k: SortKey)
    requires 0 <= i < a.Length
    requires forall p, q :: 0 <= p < q < i ==> Compare(k, a[p], a[q]) <= 0
    modifies a
    ensures forall p, q :: 0 <= p < q <= i ==> Compare(k, a[p], a[q]) <= 0
    ensures multiset(a[..]) == old(multiset(a[..]))
    ensures a[i + 1..] == old(a[i + 1..])
  {
    var j := i;
    while j > 0 && Compare(k, a[j - 1], a[j]) > 0
      invariant 0 <= j <= i
      invariant Sinking(a[..], i, j, k)
      invariant multiset(a[..]) == old(multiset(a[..]))
      invariant a[i + 1..] == old(a[i + 1..])
    {
      ghost var s := a[..];
      SinkStep(s, i, j, k);
      Swap(a, j - 1, j);
      assert a[..] == s[j - 1 := s[j]][j := s[j - 1]];
      j := j - 1;
    }
    SinkDone(a[..], i, j, k);
  }

  /** `copy.sort(compare)`: afterwards the copy is ordered by the comparator
      and holds the same tasks as before. */
  method SortInPlace(a: array<Task>, k: SortKey)
    modifies a
    ensures SortedBy(a[..], k)
    ensures multiset(a[..]) == old(multiset(a[..]))
  {
    var i := 0;
    while i < a.Length
      invariant 0 <= i <= a.Length
      invariant forall p, q :: 0 <= p < q < i ==> Compare(k, a[p], a[q]) <= 0
      invariant multiset(a[..]) == old(multiset(a[..]))
    {
      InsertAt(a, i, k);
      i := i + 1;
    }
  }
}

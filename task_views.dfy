/** The two read-only views of the task list in AdvancedTaskManager: the status and
    search filter (getFilteredTasks) and the four-way sort (getSortedTasks). */
module TaskViews {
  import opened Basics
  import opened Text
  import opened Tasks

  // ---------------------------------------------------------------------------
  // getFilteredTasks

  datatype StatusFilter = AllTasks | Completed | Pending | Overdue

  predicate PassesStatus(t: Task, f: StatusFilter, now: int)
  {
    match f
    case AllTasks => true
    case Completed => t.completed
    case Pending => !t.completed
    case Overdue => t.dueDate.Some? && !t.completed && now > t.dueDate.value
  }

  /** "All" lets every task through, "completed" and "pending" split the tasks between
      them, and an overdue task is a pending one whose due date has passed. */
  lemma StatusFiltersSplit(t: Task, now: int)
    ensures PassesStatus(t, AllTasks, now)
    ensures PassesStatus(t, Completed, now) != PassesStatus(t, Pending, now)
    ensures PassesStatus(t, Overdue, now) ==> PassesStatus(t, Pending, now)
    ensures PassesStatus(t, Overdue, now) <==> PassesStatus(t, Pending, now) && t.dueDate.Some?
                                               && t.dueDate.value < now
    ensures t.dueDate.None? ==> !PassesStatus(t, Overdue, now)
  {
  }

  /** The search: the lower-cased query occurs in the title, a non-empty description,
      or the display name of the category or the priority. */
  predicate MatchesQuery(t: Task, query: string)
  {
    var q := Lower(query);
    Contains(Lower(t.title), q)
    || (|t.description| > 0 && Contains(Lower(t.description), q))
    || Contains(Lower(CategoryName(t.category)), q)
    || Contains(Lower(PriorityName(t.priority)), q)
  }

  /** The search does not see letter case: queries that lower-case alike find the same
      tasks, and a task is found by any slice of its lower-cased title. */
  lemma SearchIgnoresCase(t: Task, q1: string, q2: string, i: nat, j: nat)
    requires Lower(q1) == Lower(q2)
    ensures MatchesQuery(t, q1) == MatchesQuery(t, q2)
    ensures MatchesQuery(t, Lower(q1)) == MatchesQuery(t, q1)
    ensures i <= j <= |t.title| && Lower(q1) == Lower(t.title)[i..j] ==> MatchesQuery(t, q1)
  {
    LowerIdempotent(q1);
    if i <= j <= |t.title| && Lower(q1) == Lower(t.title)[i..j] {
      ContainsSlice(Lower(t.title), i, j);
    }
  }

  predicate Shown(t: Task, f: StatusFilter, query: string, now: int)
  {
    PassesStatus(t, f, now) && (|query| == 0 || MatchesQuery(t, query))
  }

  /** The filter predicate of getFilteredTasks. */
  function ShownBy(f: StatusFilter, query: string, now: int): Task -> bool
  {
    (t: Task) => Shown(t, f, query, now)
  }

  /** getFilteredTasks: the tasks the status filter and the search let through, in
      store order, each as often as it occurs in the store. */
  function FilterTasks(ts: seq<Task>, f: StatusFilter, query: string, now: int): (r: seq<Task>)
    ensures IsSubseq(r, ts) && |r| == CountWhere(ts, ShownBy(f, query, now))
    ensures forall k :: 0 <= k < |r| ==> r[k] in ts && Shown(r[k], f, query, now)
    ensures forall k :: 0 <= k < |ts| && Shown(ts[k], f, query, now) ==> ts[k] in r
    ensures f == Completed ==> forall k :: 0 <= k < |r| ==> r[k].completed
    ensures f == Pending ==> forall k :: 0 <= k < |r| ==> !r[k].completed
    ensures f == Overdue ==> forall k :: 0 <= k < |r| ==>
              r[k].dueDate.Some? && !r[k].completed && r[k].dueDate.value < now
    ensures f == AllTasks && |query| == 0 ==> r == ts
  {
    var shown := ShownBy(f, query, now);
    FilterIsSubseq(ts, shown);
    FilterMembers(ts, shown);
    FilterKeepsAll(ts, shown);
    Filter(ts, shown)
  }

  /** A task just added under a fresh id is listed exactly once under "all" with no search. */
  lemma AddedTaskListedOnce(ts: seq<Task>, t: Task, now: int)
    requires forall k :: 0 <= k < |ts| ==> ts[k].id != t.id
    ensures multiset(FilterTasks(ts + [t], AllTasks, "", now))[t] == 1
  {
    assert t !in ts;
    assert multiset(ts)[t] == 0;
  }

  // ---------------------------------------------------------------------------
  // getSortedTasks

  datatype SortKey = ByCreated | ByPriority | ByDueDate | Alphabetical

  /** Code-point lexicographic comparison standing in for `localeCompare(.., 'ar')`. */
  function LexCompare(a: string, b: string): (r: int)
    ensures -1 <= r <= 1
  {
    if |a| == 0 && |b| == 0 then 0
    else if |a| == 0 then -1
    else if |b| == 0 then 1
    else if a[0] < b[0] then -1
    else if a[0] > b[0] then 1
    else LexCompare(a[1..], b[1..])
  }

  lemma {:induction false} LexCompareAntisymmetric(a: string, b: string)
    ensures LexCompare(a, b) == -LexCompare(b, a)
  {
    if |a| > 0 && |b| > 0 && a[0] == b[0] {
      LexCompareAntisymmetric(a[1..], b[1..]);
    }
  }

  lemma {:induction false} LexCompareTransitive(a: string, b: string, c: string)
    requires LexCompare(a, b) <= 0 && LexCompare(b, c) <= 0
    ensures LexCompare(a, c) <= 0
  {
    if |a| > 0 && |b| > 0 && |c| > 0 && a[0] == b[0] == c[0] {
      LexCompareTransitive(a[1..], b[1..], c[1..]);
    }
  }

  /** Two titles compare equal only when they are the same title. */
  lemma {:induction false} LexCompareZero(a: string, b: string)
    ensures LexCompare(a, b) == 0 <==> a == b
  {
    if |a| > 0 && |b| > 0 && a[0] == b[0] {
      LexCompareZero(a[1..], b[1..]);
      assert a == [a[0]] + a[1..] && b == [b[0]] + b[1..];
    }
  }

  /** The comparator of getSortedTasks; a negative value puts `a` first. */
  function Compare(key: SortKey, a: Task, b: Task): (r: int)
    ensures key == ByPriority ==> (r < 0 <==> PriorityRank(a.priority) > PriorityRank(b.priority))
    ensures key == ByCreated ==> (r < 0 <==> a.createdAt > b.createdAt)
    ensures key == ByDueDate && a.dueDate.Some? && b.dueDate.None? ==> r < 0
    ensures key == ByDueDate && a.dueDate.None? ==> r >= 0
    ensures key == ByDueDate && a.dueDate.Some? && b.dueDate.Some? ==>
              (r < 0 <==> a.dueDate.value < b.dueDate.value)
    ensures key == Alphabetical ==> -1 <= r <= 1 && (r == 0 <==> a.title == b.title)
  {
    LexCompareZero(a.title, b.title);
    match key
    case ByPriority => PriorityRank(b.priority) - PriorityRank(a.priority)
    case ByDueDate =>
      if a.dueDate.None? && b.dueDate.None? then 0
      else if a.dueDate.None? then 1
      else if b.dueDate.None? then -1
      else a.dueDate.value - b.dueDate.value
    case Alphabetical => LexCompare(a.title, b.title)
    case ByCreated => b.createdAt - a.createdAt
  }

  /** `a` may stand before `b`. */
  predicate InOrder(key: SortKey, a: Task, b: Task)
  {
    Compare(key, a, b) <= 0
  }

  /** Each comparator is consistent: swapping the arguments flips the sign, and the
      order it induces and its ties are transitive. */
  lemma CompareConsistent(key: SortKey, a: Task, b: Task, c: Task)
    ensures (Compare(key, a, b) < 0 <==> Compare(key, b, a) > 0)
            && (Compare(key, a, b) == 0 <==> Compare(key, b, a) == 0)
    ensures InOrder(key, a, b) && InOrder(key, b, c) ==> InOrder(key, a, c)
    ensures Compare(key, a, b) == 0 && Compare(key, b, c) == 0 ==> Compare(key, a, c) == 0
  {
    if key == Alphabetical {
      LexCompareAntisymmetric(a.title, b.title);
      LexCompareZero(a.title, b.title);
      LexCompareZero(b.title, c.title);
      LexCompareZero(a.title, c.title);
      if InOrder(key, a, b) && InOrder(key, b, c) {
        LexCompareTransitive(a.title, b.title, c.title);
      }
    }
  }

  predicate Sorted(key: SortKey, s: seq<Task>)
  {
    forall i, j :: 0 <= i < j < |s| ==> InOrder(key, s[i], s[j])
  }

  /** Puts `x` after every element it does not precede strictly. */
  function Insert(key: SortKey, x: Task, s: seq<Task>): (r: seq<Task>)
    requires Sorted(key, s)
    ensures multiset(r) == multiset(s) + multiset{x}
    ensures Sorted(key, r)
  {
    if |s| == 0 then [x]
    else if Compare(key, s[0], x) > 0 then
      InsertFront(key, x, s);
      [x] + s
    else
      var rest := Insert(key, x, s[1..]);
      InsertBehind(key, x, s, rest);
      [s[0]] + rest
  }

  lemma InsertFront(key: SortKey, x: Task, s: seq<Task>)
    requires Sorted(key, s) && |s| > 0 && Compare(key, s[0], x) > 0
    ensures Sorted(key, [x] + s)
  {
    CompareConsistent(key, s[0], x, x);
    forall j | 0 <= j < |s| ensures InOrder(key, x, s[j]) {
      CompareConsistent(key, x, s[0], s[j]);
    }
  }

  lemma InsertBehind(key: SortKey, x: Task, s: seq<Task>, rest: seq<Task>)
    requires Sorted(key, s) && |s| > 0 && InOrder(key, s[0], x)
    requires Sorted(key, rest) && multiset(rest) == multiset(s[1..]) + multiset{x}
    ensures Sorted(key, [s[0]] + rest)
    ensures multiset([s[0]] + rest) == multiset(s) + multiset{x}
  {
    assert s == [s[0]] + s[1..];
    forall j | 0 <= j < |rest| ensures InOrder(key, s[0], rest[j]) {
      assert rest[j] in multiset(rest);
      if rest[j] != x {
        assert rest[j] in s[1..];
      }
    }
  }

  /** getSortedTasks: a sorted copy (`[...tasks].sort(cmp)`), built by stable insertion. */
  function SortTasks(key: SortKey, ts: seq<Task>): (r: seq<Task>)
    ensures |r| == |ts| && multiset(r) == multiset(ts)
    ensures Sorted(key, r)
    ensures key == ByPriority ==> forall i, j :: 0 <= i < j < |r| ==>
              PriorityRank(r[i].priority) >= PriorityRank(r[j].priority)
    ensures key == ByCreated ==> forall i, j :: 0 <= i < j < |r| ==> r[i].createdAt >= r[j].createdAt
    ensures key == ByDueDate ==> forall i, j :: 0 <= i < j < |r| && r[j].dueDate.Some? ==>
              r[i].dueDate.Some? && r[i].dueDate.value <= r[j].dueDate.value
    decreases |ts|
  {
    if |ts| == 0 then []
    else
      var init := ts[..|ts| - 1];
      SplitLast(ts);
      var r := Insert(key, ts[|ts| - 1], SortTasks(key, init));
      assert |r| == |multiset(r)|;
      r
  }

  // ---------------------------------------------------------------------------
  // Stability (Array.prototype.sort is stable since ECMAScript 2019)

  /** The tasks that tie with `e` under the comparator. */
  function TiesWith(key: SortKey, e: Task): Task -> bool
  {
    (y: Task) => Compare(key, y, e) == 0
  }

  lemma {:induction false} InsertStable(key: SortKey, x: Task, s: seq<Task>, e: Task)
    requires Sorted(key, s)
    ensures Filter(Insert(key, x, s), TiesWith(key, e))
            == Filter(s, TiesWith(key, e)) + (if Compare(key, x, e) == 0 then [x] else [])
  {
    if |s| == 0 {
      FilterCons(x, [], TiesWith(key, e));
    } else if Compare(key, s[0], x) > 0 {
      InsertStableFront(key, x, s, e);
    } else {
      InsertStable(key, x, s[1..], e);
      InsertStableBehind(key, x, s, Insert(key, x, s[1..]), e);
    }
  }

  lemma InsertStableFront(key: SortKey, x: Task, s: seq<Task>, e: Task)
    requires Sorted(key, s) && |s| > 0 && Compare(key, s[0], x) > 0
    ensures Filter([x] + s, TiesWith(key, e))
            == Filter(s, TiesWith(key, e)) + (if Compare(key, x, e) == 0 then [x] else [])
  {
    var p := TiesWith(key, e);
    FilterCons(x, s, p);
    if Compare(key, x, e) == 0 {
      NoTiesAfterGreater(key, x, s, e);
      FilterKeepsNone(s, p);
    }
  }

  lemma InsertStableBehind(key: SortKey, x: Task, s: seq<Task>, rest: seq<Task>, e: Task)
    requires |s| > 0
    requires Filter(rest, TiesWith(key, e))
             == Filter(s[1..], TiesWith(key, e)) + (if Compare(key, x, e) == 0 then [x] else [])
    ensures Filter([s[0]] + rest, TiesWith(key, e))
            == Filter(s, TiesWith(key, e)) + (if Compare(key, x, e) == 0 then [x] else [])
  {
    FilterConsBoth(s, rest, if Compare(key, x, e) == 0 then [x] else [], TiesWith(key, e));
  }

  /** In a sorted list that starts above `x`, nothing ties with a task `x` ties with. */
  lemma NoTiesAfterGreater(key: SortKey, x: Task, s: seq<Task>, e: Task)
    requires Sorted(key, s) && |s| > 0 && Compare(key, s[0], x) > 0 && Compare(key, x, e) == 0
    ensures forall j :: 0 <= j < |s| ==> !TiesWith(key, e)(s[j])
  {
    forall j | 0 <= j < |s| ensures Compare(key, s[j], e) != 0 {
      CompareConsistent(key, s[0], s[j], x);
      CompareConsistent(key, x, e, s[j]);
      CompareConsistent(key, s[j], e, x);
    }
  }

  /** getSortedTasks keeps tied tasks in their original relative order. */
  lemma {:induction false} SortStable(key: SortKey, ts: seq<Task>, e: Task)
    ensures Filter(SortTasks(key, ts), TiesWith(key, e)) == Filter(ts, TiesWith(key, e))
    decreases |ts|
  {
    if |ts| > 0 {
      var init, last := ts[..|ts| - 1], ts[|ts| - 1];
      SortStable(key, init, e);
      InsertStable(key, last, SortTasks(key, init), e);
      SplitLast(ts);
      FilterAppend(init, [last], TiesWith(key, e));
      assert Filter([last], TiesWith(key, e)) == if Compare(key, last, e) == 0 then [last] else [] by {
        assert [last][1..] == [];
      }
    }
  }
}

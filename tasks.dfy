/** The task records of AdvancedTaskManager and the pure parts of the store:
    display names, lookup by id, the record updates behind toggle, edit, pause,
    delete and import, the status/search filter, the four-way sort, and the
    invariant the store is meant to keep. Dates are integers (milliseconds). */
module Tasks {
  import opened Basics
  import opened Text

  datatype Category = Personal | Work | Study | Health | Shopping | Other
  datatype Priority = Low | Medium | High | Urgent

  datatype Task = Task(
    id: string,
    title: string,
    description: string,
    category: Category,
    priority: Priority,
    dueDate: Option<int>,
    timerMinutes: int,
    timerRemaining: int,
    timerActive: bool,
    completed: bool,
    createdAt: int,
    completedAt: Option<int>)

  // ---------------------------------------------------------------------------
  // Display names (getCategoryName, getPriorityName)

  function CategoryName(c: Category): (r: string)
    ensures |r| > 0
  {
    match c
    case Personal => "شخصي"
    case Work => "عمل"
    case Study => "دراسة"
    case Health => "صحة"
    case Shopping => "تسوق"
    case Other => "أخرى"
  }

  function PriorityName(p: Priority): (r: string)
    ensures |r| > 0
  {
    match p
    case Low => "منخفضة"
    case Medium => "متوسطة"
    case High => "عالية"
    case Urgent => "عاجلة"
  }

  /** No two categories, and no two priorities, share a display name, and no two
      priorities share a sort weight. */
  lemma DisplayNamesDistinct(a: Category, b: Category, p: Priority, q: Priority)
    ensures CategoryName(a) == CategoryName(b) ==> a == b
    ensures PriorityName(p) == PriorityName(q) ==> p == q
    ensures PriorityRank(p) == PriorityRank(q) ==> p == q
  {
  }

  /** The weights of the priority sort: urgent 4, high 3, medium 2, low 1. */
  function PriorityRank(p: Priority): (r: nat)
    ensures 1 <= r <= 4
    ensures r == 4 <==> p == Urgent
    ensures r == 1 <==> p == Low
  {
    match p
    case Urgent => 4
    case High => 3
    case Medium => 2
    case Low => 1
  }

  // ---------------------------------------------------------------------------
  // Lookup (`this.tasks.find(t => t.id === taskId)`)

  /** The position of the first task with the given id. */
  function FirstIndex(ts: seq<Task>, id: string): (r: Option<nat>)
    ensures r.Some? ==> r.value < |ts| && ts[r.value].id == id
                        && forall k :: 0 <= k < r.value ==> ts[k].id != id
    ensures r.None? ==> forall k :: 0 <= k < |ts| ==> ts[k].id != id
  {
    FirstIndexFrom(ts, id, 0)
  }

  function FirstIndexFrom(ts: seq<Task>, id: string, from: nat): (r: Option<nat>)
    requires from <= |ts|
    ensures r.Some? ==> from <= r.value < |ts| && ts[r.value].id == id
                        && forall k :: from <= k < r.value ==> ts[k].id != id
    ensures r.None? ==> forall k :: from <= k < |ts| ==> ts[k].id != id
    decreases |ts| - from
  {
    if from == |ts| then None
    else if ts[from].id == id then Some(from)
    else FirstIndexFrom(ts, id, from + 1)
  }

  /** With unique ids the first task with an id is the only one. */
  lemma FirstIndexUnique(ts: seq<Task>, id: string, k: nat)
    requires UniqueIds(ts) && k < |ts| && ts[k].id == id
    ensures FirstIndex(ts, id) == Some(k)
  {
  }

  // ---------------------------------------------------------------------------
  // The store's invariant

  predicate UniqueIds(ts: seq<Task>)
  {
    forall i, j :: 0 <= i < j < |ts| ==> ts[i].id != ts[j].id
  }

  /** `completedAt` is set exactly on completed tasks. */
  predicate StampedCompletion(ts: seq<Task>)
  {
    forall i :: 0 <= i < |ts| ==> (ts[i].completedAt.Some? <==> ts[i].completed)
  }

  predicate AtMostOneActive(ts: seq<Task>)
  {
    forall i, j :: 0 <= i < j < |ts| && ts[i].timerActive ==> !ts[j].timerActive
  }

  predicate HasActiveTimer(ts: seq<Task>, id: string)
  {
    exists i :: 0 <= i < |ts| && ts[i].id == id && ts[i].timerActive
  }

  /** `taskTimers` holds a handle for exactly the tasks whose timer is active. */
  predicate HandlesMatch(ts: seq<Task>, timers: map<string, Handle>)
  {
    (forall id :: id in timers ==> HasActiveTimer(ts, id))
    && (forall i :: 0 <= i < |ts| && ts[i].timerActive ==> ts[i].id in timers)
  }

  predicate StoreInvariant(ts: seq<Task>, timers: map<string, Handle>)
  {
    UniqueIds(ts) && StampedCompletion(ts) && AtMostOneActive(ts) && HandlesMatch(ts, timers)
  }

  /** Replacing one record by another with the same id and consistent completion stamp
      keeps the invariant, provided its timer does not start and, if it stops, its
      handle is dropped. Toggle, pause, edit and the tick are all of this shape. */
  lemma UpdateKeepsInvariant(ts: seq<Task>, timers: map<string, Handle>, i: nat, t: Task, m: map<string, Handle>)
    requires StoreInvariant(ts, timers) && i < |ts|
    requires t.id == ts[i].id && (t.completedAt.Some? <==> t.completed)
    requires t.timerActive ==> ts[i].timerActive && m == timers
    requires m == timers || m == timers - {t.id}
    requires ts[i].timerActive && !t.timerActive ==> t.id !in m
    ensures StoreInvariant(ts[i := t], m)
  {
    var r := ts[i := t];
    forall x | x in m ensures HasActiveTimer(r, x) {
      var j :| 0 <= j < |ts| && ts[j].id == x && ts[j].timerActive;
      assert r[j].id == x && r[j].timerActive;
    }
  }

  // ---------------------------------------------------------------------------
  // addTask

  /** The record addTask builds (advanced-task-manager.js:204-217); `minutes` is the
      parsed timer field, 0 when it was left empty. */
  function NewTask(id: string, title: string, description: string, category: Category,
                   priority: Priority, dueDate: Option<int>, minutes: int, now: int): (r: Task)
    ensures r.id == id && r.title == Trim(title) && r.description == Trim(description)
    ensures r.category == category && r.priority == priority && r.dueDate == dueDate
    ensures !r.completed && r.completedAt.None? && r.createdAt == now
    ensures !r.timerActive && r.timerMinutes == minutes && r.timerRemaining == r.timerMinutes * 60
    ensures minutes >= 0 ==> InRange(r)
  {
    Task(id, Trim(title), Trim(description), category, priority, dueDate,
         minutes, minutes * 60, false, false, now, None)
  }

  /** Appending a new record under a fresh id keeps the invariant, and the store is then
      never entirely completed (so addTask's celebration branch cannot fire). */
  lemma {:induction false} AddKeepsInvariant(ts: seq<Task>, timers: map<string, Handle>, t: Task)
    requires StoreInvariant(ts, timers)
    requires forall k :: 0 <= k < |ts| ==> ts[k].id != t.id
    requires !t.timerActive && !t.completed && t.completedAt.None?
    ensures StoreInvariant(ts + [t], timers)
    ensures exists k :: 0 <= k < |ts + [t]| && !(ts + [t])[k].completed
  {
    var r := ts + [t];
    assert r[|ts|] == t;
    forall id | id in timers ensures HasActiveTimer(r, id) {
      var i :| 0 <= i < |ts| && ts[i].id == id && ts[i].timerActive;
      assert r[i] == ts[i];
    }
  }

  // ---------------------------------------------------------------------------
  // toggleTask

  function Toggled(t: Task, now: int): Task
  {
    var done := !t.completed;
    t.(completed := done, completedAt := if done then Some(now) else None)
  }

  /** toggleTask on the list: the first task with the id is flipped, nothing else changes. */
  function ToggleTasks(ts: seq<Task>, id: string, now: int): (r: seq<Task>)
    ensures |r| == |ts|
    ensures FirstIndex(ts, id).None? ==> r == ts
    ensures forall k :: 0 <= k < |ts| && FirstIndex(ts, id) != Some(k) ==> r[k] == ts[k]
    ensures FirstIndex(ts, id).Some? ==>
              var i := FirstIndex(ts, id).value;
              r[i].completed == !ts[i].completed
              && (r[i].completedAt.Some? <==> r[i].completed)
              && (r[i].completed ==> r[i].completedAt == Some(now))
              && r[i] == ts[i].(completed := r[i].completed, completedAt := r[i].completedAt)
  {
    match FirstIndex(ts, id)
    case None => ts
    case Some(i) => ts[i := Toggled(ts[i], now)]
  }

  /** Toggling twice restores every `completed` flag. It restores the whole list when
      the toggled task was pending; a completed task gets its stamp back only when the
      second toggle happens at the very time of the original completion. */
  lemma ToggleTwice(ts: seq<Task>, id: string, now1: int, now2: int)
    requires StampedCompletion(ts)
    ensures var r := ToggleTasks(ToggleTasks(ts, id, now1), id, now2);
            |r| == |ts| && (forall k :: 0 <= k < |ts| ==> r[k].completed == ts[k].completed)
    ensures (forall k :: 0 <= k < |ts| && ts[k].id == id ==> !ts[k].completed)
              ==> ToggleTasks(ToggleTasks(ts, id, now1), id, now2) == ts
    ensures ToggleTasks(ToggleTasks(ts, id, now1), id, now2) == ts
            <==> match FirstIndex(ts, id)
                 case None => true
                 case Some(i) => !ts[i].completed || ts[i].completedAt == Some(now2)
  {
    var once := ToggleTasks(ts, id, now1);
    assert forall k :: 0 <= k < |ts| ==> once[k].id == ts[k].id;
    assert FirstIndex(once, id) == FirstIndex(ts, id) by {
      match FirstIndex(ts, id)
      case None =>
      case Some(i) => assert forall k :: 0 <= k < i ==> once[k].id != id;
    }
    match FirstIndex(ts, id)
    case None =>
    case Some(i) =>
      var twice := ToggleTasks(once, id, now2);
      if twice == ts {
        assert twice[i] == ts[i];
      }
  }

  lemma {:induction false} ToggleKeepsInvariant(ts: seq<Task>, timers: map<string, Handle>, id: string, now: int)
    requires StoreInvariant(ts, timers)
    ensures StoreInvariant(ToggleTasks(ts, id, now), timers)
  {
    match FirstIndex(ts, id)
    case None =>
    case Some(i) => UpdateKeepsInvariant(ts, timers, i, Toggled(ts[i], now), timers);
  }

  // ---------------------------------------------------------------------------
  // pauseTaskTimer on the list

  /** pauseTaskTimer's effect on the list: the first task with the id stops. */
  function PauseTasks(ts: seq<Task>, id: string): (r: seq<Task>)
    ensures |r| == |ts|
    ensures forall k :: 0 <= k < |ts| && FirstIndex(ts, id) != Some(k) ==> r[k] == ts[k]
    ensures FirstIndex(ts, id).Some? ==>
              var i := FirstIndex(ts, id).value;
              !r[i].timerActive && SameButTimer(r[i], ts[i])
  {
    match FirstIndex(ts, id)
    case None => ts
    case Some(i) => ts[i := ts[i].(timerActive := false)]
  }

  /** pauseTaskTimer's effect on `taskTimers`: the handle goes only if the task exists. */
  function PauseTimers(ts: seq<Task>, timers: map<string, Handle>, id: string): map<string, Handle>
  {
    if FirstIndex(ts, id).Some? then timers - {id} else timers
  }

  /** Overwriting the paused task undoes the pause. */
  lemma PauseThenOverwrite(ts: seq<Task>, id: string, i: nat, u: Task)
    requires FirstIndex(ts, id) == Some(i)
    ensures PauseTasks(ts, id)[i := u] == ts[i := u]
  {
  }

  lemma {:induction false} PauseKeepsInvariant(ts: seq<Task>, timers: map<string, Handle>, id: string)
    requires StoreInvariant(ts, timers)
    ensures StoreInvariant(PauseTasks(ts, id), PauseTimers(ts, timers, id))
    ensures forall k :: 0 <= k < |ts| && ts[k].id == id ==> !PauseTasks(ts, id)[k].timerActive
  {
    forall k | 0 <= k < |ts| && ts[k].id == id ensures !PauseTasks(ts, id)[k].timerActive {
      FirstIndexUnique(ts, id, k);
    }
    match FirstIndex(ts, id)
    case None =>
    case Some(i) => UpdateKeepsInvariant(ts, timers, i, ts[i].(timerActive := false), timers - {id});
  }

  // ---------------------------------------------------------------------------
  // startTaskTimer, the task-timer tick and taskTimerFinished on the list

  /** startTaskTimer's `forEach` after visiting the first `k` positions: every visited
      task that is running under another id is handed to pauseTaskTimer. */
  function PauseOthers(ts: seq<Task>, timers: map<string, Handle>, id: string, k: nat)
    : (r: (seq<Task>, map<string, Handle>))
    requires k <= |ts|
    ensures |r.0| == |ts|
    ensures forall j :: 0 <= j < |ts| ==> r.0[j].id == ts[j].id
    ensures forall j :: k <= j < |ts| ==> r.0[j] == ts[j]
  {
    if k == 0 then (ts, timers)
    else
      var p := PauseOthers(ts, timers, id, k - 1);
      var t := p.0[k - 1];
      if t.timerActive && t.id != id then (PauseTasks(p.0, t.id), PauseTimers(p.0, p.1, t.id))
      else p
  }

  /** One more position of the pass: the task there is paused if it runs under another id. */
  lemma PauseOthersNext(ts: seq<Task>, timers: map<string, Handle>, id: string, k: nat,
                        now: seq<Task>, held: map<string, Handle>)
    requires k < |ts| && (now, held) == PauseOthers(ts, timers, id, k)
    ensures now[k] == ts[k]
    ensures PauseOthers(ts, timers, id, k + 1)
            == if ts[k].timerActive && ts[k].id != id
               then (PauseTasks(now, ts[k].id), PauseTimers(now, held, ts[k].id))
               else (now, held)
  {
  }

  /** `a` is `b` except perhaps for its `timerActive` flag. */
  predicate SameButTimer(a: Task, b: Task)
  {
    a.(timerActive := b.timerActive) == b
  }

  /** The pass changes nothing but `timerActive` flags. */
  lemma {:induction false} PauseOthersFrame(ts: seq<Task>, timers: map<string, Handle>, id: string, k: nat)
    requires k <= |ts|
    ensures forall j :: 0 <= j < |ts| ==>
              SameButTimer(PauseOthers(ts, timers, id, k).0[j], ts[j])
  {
    if k > 0 {
      PauseOthersFrame(ts, timers, id, k - 1);
      var p := PauseOthers(ts, timers, id, k - 1).0;
      var t := p[k - 1];
      if t.timerActive && t.id != id {
        match FirstIndex(p, t.id)
        case None =>
        case Some(m) =>
          var r := PauseOthers(ts, timers, id, k).0;
          assert r == p[m := p[m].(timerActive := false)];
          forall j | 0 <= j < |ts| ensures SameButTimer(r[j], ts[j]) {
            assert SameButTimer(p[j], ts[j]);
            if j != m {
              assert r[j] == p[j];
            }
          }
      }
    }
  }

  /** With the store's invariant, the pass stops exactly the visited tasks under other
      ids and drops exactly their handles. */
  lemma {:induction false} PauseOthersExact(ts: seq<Task>, timers: map<string, Handle>, id: string, k: nat)
    requires UniqueIds(ts) && k <= |ts|
    ensures forall j :: 0 <= j < k ==>
              PauseOthers(ts, timers, id, k).0[j].timerActive == (ts[j].timerActive && ts[j].id == id)
  {
    if k > 0 {
      PauseOthersExact(ts, timers, id, k - 1);
      PauseOthersStep(ts, timers, id, k);
      var p, r := PauseOthers(ts, timers, id, k - 1).0, PauseOthers(ts, timers, id, k).0;
      assert p[k - 1] == ts[k - 1];
      assert r[k - 1].timerActive == (ts[k - 1].timerActive && ts[k - 1].id == id);
      forall j | 0 <= j < k ensures r[j].timerActive == (ts[j].timerActive && ts[j].id == id) {
        if j < k - 1 {
          assert r[j].timerActive == p[j].timerActive;
        }
      }
    }
  }

  /** The ids of the first `k` tasks. */
  function VisitedIds(ts: seq<Task>, k: nat): (r: set<string>)
    requires k <= |ts|
    ensures forall j :: 0 <= j < k ==> ts[j].id in r
  {
    if k == 0 then {} else VisitedIds(ts, k - 1) + {ts[k - 1].id}
  }

  lemma {:induction false} PauseOthersHandles(ts: seq<Task>, timers: map<string, Handle>, id: string, k: nat)
    requires UniqueIds(ts) && k <= |ts|
    requires forall j :: 0 <= j < |ts| && !ts[j].timerActive ==> ts[j].id !in timers
    ensures forall x :: x in PauseOthers(ts, timers, id, k).1 <==>
              x in timers && (x == id || x !in VisitedIds(ts, k))
  {
    if k > 0 {
      PauseOthersHandles(ts, timers, id, k - 1);
      PauseOthersStep(ts, timers, id, k);
    }
  }

  /** One visit of the pass, with unique ids: the visited task is the one paused. */
  lemma PauseOthersStep(ts: seq<Task>, timers: map<string, Handle>, id: string, k: nat)
    requires UniqueIds(ts) && 0 < k <= |ts|
    ensures var p, r, t := PauseOthers(ts, timers, id, k - 1), PauseOthers(ts, timers, id, k), ts[k - 1];
            if t.timerActive && t.id != id
            then (forall j :: 0 <= j < |ts| && j != k - 1 ==> r.0[j] == p.0[j])
                 && !r.0[k - 1].timerActive && r.1 == p.1 - {t.id}
            else r == p
  {
    var p := PauseOthers(ts, timers, id, k - 1);
    var t := p.0[k - 1];
    assert t == ts[k - 1];
    assert UniqueIds(p.0) by {
      assert forall j :: 0 <= j < |ts| ==> p.0[j].id == ts[j].id;
    }
    if t.timerActive && t.id != id {
      FirstIndexUnique(p.0, t.id, k - 1);
    }
  }

  /** A task whose timer is stopped has no handle (ids being unique). */
  lemma IdleTasksHaveNoHandle(ts: seq<Task>, timers: map<string, Handle>)
    requires StoreInvariant(ts, timers)
    ensures forall j :: 0 <= j < |ts| && !ts[j].timerActive ==> ts[j].id !in timers
  {
  }

  /** startTaskTimer: nothing for an unknown or completed task; otherwise the others
      are paused, the task runs and `taskTimers` records `handle` for it. */
  function Started(ts: seq<Task>, timers: map<string, Handle>, id: string, handle: Handle)
    : (r: (seq<Task>, map<string, Handle>))
    ensures |r.0| == |ts|
    ensures forall j :: 0 <= j < |ts| ==>
              SameButTimer(r.0[j], ts[j])
    ensures match FirstIndex(ts, id)
            case None => r == (ts, timers)
            case Some(i) =>
              if ts[i].completed then r == (ts, timers)
              else r.0[i].timerActive && id in r.1 && r.1[id] == handle
  {
    match FirstIndex(ts, id)
    case None => (ts, timers)
    case Some(i) =>
      if ts[i].completed then (ts, timers)
      else
        var p := PauseOthers(ts, timers, id, |ts|);
        PauseOthersFrame(ts, timers, id, |ts|);
        (p.0[i := p.0[i].(timerActive := true)], p.1[id := handle])
  }

  /** After starting the timer of an existing, pending task it is the only one running,
      its handle is the only one kept, and the invariant holds. */
  lemma {:induction false} StartKeepsInvariant(ts: seq<Task>, timers: map<string, Handle>, id: string, handle: Handle)
    requires StoreInvariant(ts, timers)
    ensures var r := Started(ts, timers, id, handle);
            StoreInvariant(r.0, r.1)
            && (FirstIndex(ts, id).Some? && !ts[FirstIndex(ts, id).value].completed ==>
                  (forall j :: 0 <= j < |ts| ==> (r.0[j].timerActive <==> r.0[j].id == id))
                  && r.1 == map[id := handle])
  {
    var r := Started(ts, timers, id, handle);
    match FirstIndex(ts, id)
    case None =>
    case Some(i) =>
      if !ts[i].completed {
        PauseOthersExact(ts, timers, id, |ts|);
        var p := PauseOthers(ts, timers, id, |ts|);
        assert forall j :: 0 <= j < |ts| ==> r.0[j].id == ts[j].id;
        forall j | 0 <= j < |ts| ensures r.0[j].timerActive <==> r.0[j].id == id {
          if ts[j].id == id { FirstIndexUnique(ts, id, j); }
        }
        IdleTasksHaveNoHandle(ts, timers);
        PauseOthersHandles(ts, timers, id, |ts|);
        forall x | x in p.1 ensures x == id {
          var j :| 0 <= j < |ts| && ts[j].id == x && ts[j].timerActive;
          assert x in VisitedIds(ts, |ts|);
        }
        assert r.1 == map[id := handle];
        assert HasActiveTimer(r.0, id) by { assert r.0[i].id == id; }
      }
  }

  /** taskTimerFinished: the task stops, its remaining time is cleared and its handle goes. */
  function Finished(ts: seq<Task>, timers: map<string, Handle>, id: string)
    : (r: (seq<Task>, map<string, Handle>))
    ensures |r.0| == |ts|
    ensures match FirstIndex(ts, id)
            case None => r == (ts, timers)
            case Some(i) =>
              r.0 == ts[i := ts[i].(timerActive := false, timerRemaining := 0)]
              && r.1 == timers - {id}
  {
    match FirstIndex(ts, id)
    case None => (ts, timers)
    case Some(i) =>
      (PauseTasks(ts, id)[i := PauseTasks(ts, id)[i].(timerRemaining := 0)], PauseTimers(ts, timers, id))
  }

  lemma {:induction false} FinishKeepsInvariant(ts: seq<Task>, timers: map<string, Handle>, id: string)
    requires StoreInvariant(ts, timers)
    ensures var r := Finished(ts, timers, id); StoreInvariant(r.0, r.1)
  {
    match FirstIndex(ts, id)
    case None =>
    case Some(i) =>
      UpdateKeepsInvariant(ts, timers, i, ts[i].(timerActive := false, timerRemaining := 0), timers - {id});
  }

  /** One tick of a task's interval: count down while time is left, finish otherwise.
      A task that is no longer in the list is not visible to the tick. */
  function Ticked(ts: seq<Task>, timers: map<string, Handle>, id: string)
    : (r: (seq<Task>, map<string, Handle>))
    ensures |r.0| == |ts|
    ensures forall j :: 0 <= j < |ts| && FirstIndex(ts, id) != Some(j) ==> r.0[j] == ts[j]
    ensures FirstIndex(ts, id).Some? ==>
              var i := FirstIndex(ts, id).value;
              var before := ts[i].timerRemaining;
              (before > 0 ==> r.0[i] == ts[i].(timerRemaining := before - 1) && r.1 == timers)
              && (before <= 0 ==> r.0[i].timerRemaining == 0 && !r.0[i].timerActive
                                  && id !in r.1)
              && r.0[i].timerRemaining >= 0
  {
    match FirstIndex(ts, id)
    case None => (ts, timers)
    case Some(i) =>
      if ts[i].timerRemaining <= 0 then Finished(ts, timers, id)
      else (ts[i := ts[i].(timerRemaining := ts[i].timerRemaining - 1)], timers)
  }

  lemma {:induction false} TickKeepsInvariant(ts: seq<Task>, timers: map<string, Handle>, id: string)
    requires StoreInvariant(ts, timers)
    ensures var r := Ticked(ts, timers, id); StoreInvariant(r.0, r.1)
  {
    match FirstIndex(ts, id)
    case None =>
    case Some(i) =>
      var t := ts[i];
      if t.timerRemaining <= 0 {
        UpdateKeepsInvariant(ts, timers, i, t.(timerActive := false, timerRemaining := 0), timers - {id});
      } else {
        UpdateKeepsInvariant(ts, timers, i, t.(timerRemaining := t.timerRemaining - 1), timers);
      }
  }

  // ---------------------------------------------------------------------------
  // saveTaskChanges

  /** The values read from the edit dialog; `minutes` is the parsed timer field. */
  datatype Edit = Edit(title: string, description: string, category: Category,
                       priority: Priority, dueDate: Option<int>, minutes: int)

  /** The edited record (advanced-task-manager.js:332-347). A changed timer length
      stops the timer and restarts the countdown from the full length; an unchanged
      length leaves the whole timer state alone. */
  function Edited(t: Task, e: Edit): (r: Task)
    ensures r.id == t.id && r.completed == t.completed && r.completedAt == t.completedAt
    ensures r.createdAt == t.createdAt
    ensures r.title == Trim(e.title) && r.description == Trim(e.description)
    ensures r.category == e.category && r.priority == e.priority && r.dueDate == e.dueDate
    ensures e.minutes == t.timerMinutes ==>
              r.timerMinutes == t.timerMinutes && r.timerRemaining == t.timerRemaining
              && r.timerActive == t.timerActive
    ensures e.minutes != t.timerMinutes ==>
              !r.timerActive && r.timerMinutes == e.minutes && r.timerRemaining == e.minutes * 60
  {
    var u := t.(title := Trim(e.title), description := Trim(e.description),
                category := e.category, priority := e.priority, dueDate := e.dueDate);
    if e.minutes != t.timerMinutes then
      u.(timerActive := false, timerMinutes := e.minutes, timerRemaining := e.minutes * 60)
    else u
  }

  /** Editing the task at `i` (the pause of a running timer included) keeps the invariant. */
  lemma {:induction false} EditKeepsInvariant(ts: seq<Task>, timers: map<string, Handle>, i: nat, e: Edit)
    requires StoreInvariant(ts, timers) && i < |ts|
    ensures var stopped := ts[i].timerActive && e.minutes != ts[i].timerMinutes;
            StoreInvariant(ts[i := Edited(ts[i], e)],
                           if stopped then timers - {ts[i].id} else timers)
  {
    var t := ts[i];
    var stopped := t.timerActive && e.minutes != t.timerMinutes;
    UpdateKeepsInvariant(ts, timers, i, Edited(t, e), if stopped then timers - {t.id} else timers);
  }

  // ---------------------------------------------------------------------------
  // deleteTask

  /** The tasks that survive `this.tasks.filter(t => t.id !== taskId)`. */
  function DeleteTasks(ts: seq<Task>, id: string): (r: seq<Task>)
    ensures IsSubseq(r, ts) && |r| == CountWhere(ts, OtherId(id))
    ensures forall k :: 0 <= k < |r| ==> r[k].id != id && r[k] in ts
    ensures forall k :: 0 <= k < |ts| && ts[k].id != id ==> ts[k] in r
    ensures (forall k :: 0 <= k < |ts| ==> ts[k].id != id) ==> r == ts
  {
    FilterIsSubseq(ts, OtherId(id));
    FilterMembers(ts, OtherId(id));
    FilterKeepsAll(ts, OtherId(id));
    Filter(ts, OtherId(id))
  }

  /** The filter predicate of deleteTask. */
  function OtherId(id: string): Task -> bool
  {
    (t: Task) => t.id != id
  }

  /** Pausing the task that is about to be deleted does not change what remains. */
  lemma DeleteAfterPause(ts: seq<Task>, id: string)
    ensures DeleteTasks(PauseTasks(ts, id), id) == DeleteTasks(ts, id)
  {
    match FirstIndex(ts, id)
    case None =>
    case Some(i) =>
      FilterUpdateDropped(ts, i, ts[i].(timerActive := false), OtherId(id));
  }

  /** Removing tasks keeps ids unique, completion stamps and the one-timer rule. */
  lemma {:induction false} DeleteKeepsTaskInvariants(ts: seq<Task>, id: string)
    requires UniqueIds(ts) && StampedCompletion(ts) && AtMostOneActive(ts)
    ensures var r := DeleteTasks(ts, id);
            UniqueIds(r) && StampedCompletion(r) && AtMostOneActive(r)
  {
    SubseqKeeps(DeleteTasks(ts, id), ts);
  }

  lemma {:induction false} SubseqKeeps(a: seq<Task>, b: seq<Task>)
    requires IsSubseq(a, b)
    requires UniqueIds(b) && StampedCompletion(b) && AtMostOneActive(b)
    ensures UniqueIds(a) && StampedCompletion(a) && AtMostOneActive(a)
    ensures forall k :: 0 <= k < |a| ==> a[k] in b
    decreases |b|
  {
    if |a| > 0 {
      assert UniqueIds(b[1..]) && StampedCompletion(b[1..]) && AtMostOneActive(b[1..]) by {
        forall i | 0 <= i < |b[1..]| ensures b[1..][i] == b[i + 1] { }
      }
      if a[0] == b[0] && IsSubseq(a[1..], b[1..]) {
        SubseqKeeps(a[1..], b[1..]);
        forall j | 0 < j < |a| ensures a[j].id != a[0].id && (a[0].timerActive ==> !a[j].timerActive) {
          assert a[j] == a[1..][j - 1];
          var m :| 0 <= m < |b[1..]| && b[1..][m] == a[j];
          assert b[m + 1] == a[j];
        }
        forall i, j | 0 <= i < j < |a| ensures a[i].id != a[j].id {
          if i > 0 { assert a[i] == a[1..][i - 1] && a[j] == a[1..][j - 1]; }
        }
        forall i, j | 0 <= i < j < |a| && a[i].timerActive ensures !a[j].timerActive {
          if i > 0 { assert a[i] == a[1..][i - 1] && a[j] == a[1..][j - 1]; }
        }
        forall k | 0 <= k < |a| ensures a[k] in b {
          if k > 0 { assert a[k] == a[1..][k - 1]; }
        }
      } else {
        SubseqKeeps(a, b[1..]);
      }
    }
  }

  /** deleteTask as written leaves the interval of a running task behind: the task is
      gone but `taskTimers` still holds its handle. */
  lemma DeleteLeavesHandle()
    ensures var t := Task("a", "T", "", Personal, Medium, None, 1, 60, true, false, 0, None);
            var timers := map["a" := 7];
            StoreInvariant([t], timers)
            && DeleteTasks([t], "a") == []
            && !StoreInvariant(DeleteTasks([t], "a"), timers)
  {
    var t := Task("a", "T", "", Personal, Medium, None, 1, 60, true, false, 0, None);
    assert [t][0] == t;
    assert HasActiveTimer([t], "a");
    assert DeleteTasks([t], "a") == [] by {
      assert Filter([t], OtherId("a")) == [];
    }
  }

  /** Stopping the timer of the task first and then deleting it keeps the invariant. */
  lemma {:induction false} PauseThenDeleteKeepsInvariant(ts: seq<Task>, timers: map<string, Handle>, id: string)
    requires StoreInvariant(ts, timers)
    ensures StoreInvariant(DeleteTasks(PauseTasks(ts, id), id), PauseTimers(ts, timers, id))
  {
    PauseKeepsInvariant(ts, timers, id);
    assert !HasActiveTimer(PauseTasks(ts, id), id);
    DeleteKeepsInvariant(PauseTasks(ts, id), PauseTimers(ts, timers, id), id);
  }

  /** Deleting a task whose timer holds no handle keeps the invariant. */
  lemma {:induction false} DeleteKeepsInvariant(ts: seq<Task>, timers: map<string, Handle>, id: string)
    requires StoreInvariant(ts, timers) && id !in timers
    ensures StoreInvariant(DeleteTasks(ts, id), timers)
  {
    var r := DeleteTasks(ts, id);
    DeleteKeepsTaskInvariants(ts, id);
    forall x | x in timers ensures HasActiveTimer(r, x) {
      var i :| 0 <= i < |ts| && ts[i].id == x && ts[i].timerActive;
      var j :| 0 <= j < |r| && r[j] == ts[i];
    }
    forall i | 0 <= i < |r| && r[i].timerActive ensures r[i].id in timers {
      var j :| 0 <= j < |ts| && ts[j] == r[i];
    }
  }

  // ---------------------------------------------------------------------------
  // importTasks

  /** importTasks' pass over the file's records: an entry without an id (missing or
      empty, both falsy) takes the next generated one. */
  function WithIds(items: seq<Task>, freshIds: seq<string>): (r: seq<Task>)
    requires |freshIds| == |items|
    ensures |r| == |items|
    ensures forall k :: 0 <= k < |items| ==> r[k].(id := items[k].id) == items[k]
    ensures forall k :: 0 <= k < |items| ==>
              r[k].id == (if items[k].id == "" then freshIds[k] else items[k].id)
    ensures (forall k :: 0 <= k < |freshIds| ==> freshIds[k] != "") ==>
              forall k :: 0 <= k < |r| ==> r[k].id != ""
  {
    seq(|items|, k requires 0 <= k < |items| =>
      if items[k].id == "" then items[k].(id := freshIds[k]) else items[k])
  }

  // ---------------------------------------------------------------------------
  // Countdown bounds

  /** A task's countdown lies between zero and its full length. */
  predicate InRange(t: Task)
  {
    0 <= t.timerRemaining <= t.timerMinutes * 60
  }

  predicate CountdownsInRange(ts: seq<Task>)
  {
    forall k :: 0 <= k < |ts| ==> InRange(ts[k])
  }

  lemma RangeAfterUpdate(ts: seq<Task>, i: nat, t: Task)
    requires CountdownsInRange(ts) && i < |ts| && InRange(t)
    ensures CountdownsInRange(ts[i := t])
  {
  }

  /** Appending a record within the bounds keeps the store within them; `NewTask` makes
      one from any non-negative timer length. */
  lemma {:induction false} AddKeepsRange(ts: seq<Task>, t: Task)
    requires CountdownsInRange(ts) && InRange(t)
    ensures CountdownsInRange(ts + [t])
  {
    var r := ts + [t];
    forall k | 0 <= k < |r| ensures InRange(r[k]) {
      if k < |ts| {
        assert r[k] == ts[k];
      }
    }
  }

  /** A tick counts down by one and stops at zero, inside the bounds. */
  lemma {:induction false} TickKeepsRange(ts: seq<Task>, timers: map<string, Handle>, id: string)
    requires CountdownsInRange(ts)
    ensures CountdownsInRange(Ticked(ts, timers, id).0)
  {
    match FirstIndex(ts, id)
    case None =>
    case Some(i) =>
      var t := ts[i];
      if t.timerRemaining <= 0 {
        RangeAfterUpdate(ts, i, t.(timerActive := false, timerRemaining := 0));
      } else {
        RangeAfterUpdate(ts, i, t.(timerRemaining := t.timerRemaining - 1));
      }
  }

  lemma {:induction false} FinishKeepsRange(ts: seq<Task>, timers: map<string, Handle>, id: string)
    requires CountdownsInRange(ts)
    ensures CountdownsInRange(Finished(ts, timers, id).0)
  {
    match FirstIndex(ts, id)
    case None =>
    case Some(i) => RangeAfterUpdate(ts, i, ts[i].(timerActive := false, timerRemaining := 0));
  }

  /** An edit with a non-negative length either keeps the countdown or restarts it in full. */
  lemma {:induction false} EditKeepsRange(ts: seq<Task>, i: nat, e: Edit)
    requires CountdownsInRange(ts) && i < |ts| && e.minutes >= 0
    ensures CountdownsInRange(ts[i := Edited(ts[i], e)])
  {
    RangeAfterUpdate(ts, i, Edited(ts[i], e));
  }

  /** Completing, pausing, starting and deleting leave every countdown as it was. */
  lemma {:induction false} OtherOperationsKeepRange(ts: seq<Task>, timers: map<string, Handle>, id: string,
                                                    now: int, handle: Handle)
    requires CountdownsInRange(ts)
    ensures CountdownsInRange(ToggleTasks(ts, id, now))
    ensures CountdownsInRange(PauseTasks(ts, id))
    ensures CountdownsInRange(Started(ts, timers, id, handle).0)
    ensures CountdownsInRange(DeleteTasks(ts, id))
  {
    var toggled, paused, started := ToggleTasks(ts, id, now), PauseTasks(ts, id), Started(ts, timers, id, handle).0;
    forall k | 0 <= k < |ts| ensures InRange(toggled[k]) && InRange(paused[k]) && InRange(started[k]) {
      assert SameButTimer(started[k], ts[k]);
    }
    var deleted := DeleteTasks(ts, id);
    forall k | 0 <= k < |deleted| ensures InRange(deleted[k]) {
      var j :| 0 <= j < |ts| && ts[j] == deleted[k];
    }
  }

  /** Imported records within the bounds keep the store within them: the ids given to
      them change nothing else. */
  lemma {:induction false} ImportKeepsRange(ts: seq<Task>, items: seq<Task>, freshIds: seq<string>)
    requires CountdownsInRange(ts) && CountdownsInRange(items) && |freshIds| == |items|
    ensures CountdownsInRange(ts + WithIds(items, freshIds))
  {
    var w := WithIds(items, freshIds);
    var r := ts + w;
    forall k | 0 <= k < |r| ensures InRange(r[k]) {
      if k < |ts| {
        assert r[k] == ts[k];
      } else {
        assert r[k] == w[k - |ts|];
        assert w[k - |ts|].(id := items[k - |ts|].id) == items[k - |ts|];
      }
    }
  }
}

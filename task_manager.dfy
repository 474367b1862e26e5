/** The mutable store of AdvancedTaskManager: the task list, the map of running task
    timers and the id of the task open in the edit dialog. Each method is proved
    against the list functions of module Tasks, and the methods of the corrected
    design keep the store's invariant. The rendering, storage and notification calls
    that follow every change are not part of this model. */
module TaskManager {
  import opened Basics
  import opened Text
  import opened Tasks

  /** `this.tasks.every(t => t.completed)` on a list that is not empty. */
  predicate AllCompleted(ts: seq<Task>)
  {
    |ts| > 0 && forall k :: 0 <= k < |ts| ==> ts[k].completed
  }

  class AdvancedTaskManager {
    var tasks: seq<Task>
    var taskTimers: map<string, Handle>
    var editingTaskId: Option<string>

    /** Ids are unique, completion stamps agree with `completed`, at most one timer
        runs and `taskTimers` holds a handle for exactly the running one. */
    ghost predicate Consistent()
      reads this
    {
      StoreInvariant(tasks, taskTimers)
    }

    constructor()
      ensures tasks == [] && taskTimers == map[] && editingTaskId == None
      ensures Consistent()
    {
      tasks := [];
      taskTimers := map[];
      editingTaskId := None;
    }

    /** `this.tasks.find(t => t.id === taskId)`, as a position. */
    method FindTask(id: string) returns (r: Option<nat>)
      ensures r == FirstIndex(tasks, id)
    {
      var k := 0;
      while k < |tasks|
        invariant k <= |tasks|
        invariant forall j :: 0 <= j < k ==> tasks[j].id != id
      {
        if tasks[k].id == id {
          return Some(k);
        }
        k := k + 1;
      }
      return None;
    }

    /** addTask: a title that is blank after trimming is refused; otherwise the new
        record is appended under the id `generateId` produced. The celebration that
        follows when every task is completed cannot fire, since the new one is not. */
    method AddTask(id: string, title: string, description: string, category: Category,
                   priority: Priority, dueDate: Option<int>, minutes: int, now: int)
      returns (added: bool, celebrate: bool)
      requires forall k :: 0 <= k < |tasks| ==> tasks[k].id != id
      modifies this
      ensures added <==> !AllSpace(title)
      ensures tasks == if added then old(tasks) + [NewTask(id, title, description, category, priority, dueDate, minutes, now)]
                       else old(tasks)
      ensures taskTimers == old(taskTimers) && editingTaskId == old(editingTaskId)
      ensures !celebrate
      ensures old(Consistent()) ==> Consistent()
      ensures old(CountdownsInRange(tasks)) && minutes >= 0 ==> CountdownsInRange(tasks)
    {
      if |Trim(title)| == 0 {
        return false, false;
      }
      var t := NewTask(id, title, description, category, priority, dueDate, minutes, now);
      if Consistent() {
        AddKeepsInvariant(tasks, taskTimers, t);
      }
      if CountdownsInRange(tasks) && minutes >= 0 {
        AddKeepsRange(tasks, t);
      }
      tasks := tasks + [t];
      added := true;
      assert !tasks[|tasks| - 1].completed;
      celebrate := AllCompleted(tasks);
    }

    /** toggleTask: flips the first task with the id and stamps its completion. The
        celebration is due when that made every task completed. */
    method ToggleTask(id: string, now: int) returns (celebrate: bool)
      modifies this
      ensures tasks == ToggleTasks(old(tasks), id, now)
      ensures taskTimers == old(taskTimers) && editingTaskId == old(editingTaskId)
      ensures celebrate <==> FirstIndex(old(tasks), id).Some?
                             && tasks[FirstIndex(old(tasks), id).value].completed
                             && AllCompleted(tasks)
      ensures old(Consistent()) ==> Consistent()
    {
      if Consistent() {
        ToggleKeepsInvariant(tasks, taskTimers, id, now);
      }
      var found := FindTask(id);
      match found
      case None =>
        celebrate := false;
      case Some(i) =>
        tasks := tasks[i := Toggled(tasks[i], now)];
        celebrate := tasks[i].completed && AllCompleted(tasks);
    }

    /** deleteTask as written: after confirmation, the tasks with the id are filtered
        out. A running timer of the deleted task keeps its handle (see Findings). */
    method DeleteTaskAsWritten(id: string, confirmed: bool)
      modifies this
      ensures tasks == if confirmed then DeleteTasks(old(tasks), id) else old(tasks)
      ensures taskTimers == old(taskTimers) && editingTaskId == old(editingTaskId)
    {
      if confirmed {
        tasks := DeleteTasks(tasks, id);
      }
    }

    /** deleteTask with the timer of the task stopped first; the same tasks remain. */
    method DeleteTask(id: string, confirmed: bool)
      modifies this
      ensures tasks == if confirmed then DeleteTasks(old(tasks), id) else old(tasks)
      ensures taskTimers == if confirmed then PauseTimers(old(tasks), old(taskTimers), id)
                            else old(taskTimers)
      ensures editingTaskId == old(editingTaskId)
      ensures old(Consistent()) ==> Consistent()
    {
      if confirmed {
        if Consistent() {
          PauseThenDeleteKeepsInvariant(tasks, taskTimers, id);
        }
        DeleteAfterPause(tasks, id);
        PauseTaskTimer(id);
        tasks := DeleteTasks(tasks, id);
      }
    }

    /** clearAllTasks as written: the list is emptied, the handles stay. */
    method ClearAllTasksAsWritten(confirmed: bool)
      modifies this
      ensures tasks == if confirmed then [] else old(tasks)
      ensures taskTimers == old(taskTimers) && editingTaskId == old(editingTaskId)
    {
      if confirmed {
        tasks := [];
      }
    }

    /** clearAllTasks with every task interval cleared as well. */
    method ClearAllTasks(confirmed: bool)
      modifies this
      ensures tasks == if confirmed then [] else old(tasks)
      ensures taskTimers == if confirmed then map[] else old(taskTimers)
      ensures editingTaskId == old(editingTaskId)
      ensures old(Consistent()) ==> Consistent()
    {
      if confirmed {
        tasks := [];
        taskTimers := map[];
      }
    }

    /** editTask: remembers which task the edit dialog is for, if it exists. */
    method EditTask(id: string)
      modifies this
      ensures editingTaskId == if FirstIndex(tasks, id).Some? then Some(id) else old(editingTaskId)
      ensures tasks == old(tasks) && taskTimers == old(taskTimers)
    {
      var found := FindTask(id);
      if found.Some? {
        editingTaskId := Some(id);
      }
    }

    method CloseModal()
      modifies this
      ensures editingTaskId == None
      ensures tasks == old(tasks) && taskTimers == old(taskTimers)
    {
      editingTaskId := None;
    }

    /** saveTaskChanges: nothing happens without an edited task that still exists, or
        with a blank title. Otherwise the record takes the dialog's values, a changed
        timer length stops the timer (dropping its handle), and the dialog closes. */
    method SaveTaskChanges(e: Edit) returns (saved: bool)
      modifies this
      ensures saved <==> old(editingTaskId).Some? && old(editingTaskId).value != ""
                         && FirstIndex(old(tasks), old(editingTaskId).value).Some?
                         && !AllSpace(e.title)
      ensures !saved ==> tasks == old(tasks) && taskTimers == old(taskTimers)
                         && editingTaskId == old(editingTaskId)
      ensures saved ==>
                var id := old(editingTaskId).value;
                var i := FirstIndex(old(tasks), id).value;
                var t := old(tasks)[i];
                tasks == old(tasks)[i := Edited(t, e)]
                && taskTimers == (if t.timerActive && e.minutes != t.timerMinutes
                                  then old(taskTimers) - {id} else old(taskTimers))
                && editingTaskId == None
      ensures old(Consistent()) ==> Consistent()
      ensures old(CountdownsInRange(tasks)) && e.minutes >= 0 ==> CountdownsInRange(tasks)
    {
      if editingTaskId.None? || editingTaskId.value == "" {
        return false;
      }
      var id := editingTaskId.value;
      var found := FindTask(id);
      if found.None? {
        return false;
      }
      if |Trim(e.title)| == 0 {
        return false;
      }
      var i := found.value;
      var t := tasks[i];
      if Consistent() {
        EditKeepsInvariant(tasks, taskTimers, i, e);
      }
      if CountdownsInRange(tasks) && e.minutes >= 0 {
        EditKeepsRange(tasks, i, e);
      }
      if t.timerActive && e.minutes != t.timerMinutes {
        PauseThenOverwrite(tasks, id, i, Edited(t, e));
        PauseTaskTimer(id);
      }
      tasks := tasks[i := Edited(t, e)];
      CloseModal();
      saved := true;
    }

    /** importTasks: a file that is not a list of records (`payload` is None) is
        refused; otherwise every entry lacking an id receives the next of `freshIds`
        and the entries are appended after the existing tasks. */
    method ImportTasks(payload: Option<seq<Task>>, freshIds: seq<string>) returns (imported: bool)
      requires payload.Some? ==> |freshIds| == |payload.value|
      modifies this
      ensures imported <==> payload.Some?
      ensures tasks == if imported then old(tasks) + WithIds(payload.value, freshIds) else old(tasks)
      ensures taskTimers == old(taskTimers) && editingTaskId == old(editingTaskId)
    {
      if payload.None? {
        return false;
      }
      var items := payload.value;
      var k := 0;
      while k < |items|
        invariant k <= |items| == |payload.value|
        invariant forall j :: 0 <= j < k ==> items[j] == WithIds(payload.value, freshIds)[j]
        invariant forall j :: k <= j < |items| ==> items[j] == payload.value[j]
      {
        if items[k].id == "" {
          items := items[k := items[k].(id := freshIds[k])];
        }
        k := k + 1;
      }
      tasks := tasks + items;
      imported := true;
    }

    /** pauseTaskTimer: the first task with the id stops and its handle is dropped. */
    method PauseTaskTimer(id: string)
      modifies this
      ensures tasks == PauseTasks(old(tasks), id)
      ensures taskTimers == PauseTimers(old(tasks), old(taskTimers), id)
      ensures editingTaskId == old(editingTaskId)
      ensures old(Consistent()) ==> Consistent()
    {
      if Consistent() {
        PauseKeepsInvariant(tasks, taskTimers, id);
      }
      var found := FindTask(id);
      match found
      case None =>
      case Some(i) =>
        tasks := tasks[i := tasks[i].(timerActive := false)];
        if id in taskTimers {
          taskTimers := taskTimers - {id};
        }
    }

    /** startTaskTimer: for an existing, pending task, every other running timer is
        paused in list order, then the task runs under the new interval `handle`. */
    method StartTaskTimer(id: string, handle: Handle)
      modifies this
      ensures (tasks, taskTimers) == Started(old(tasks), old(taskTimers), id, handle)
      ensures editingTaskId == old(editingTaskId)
      ensures old(Consistent()) ==> Consistent()
    {
      if Consistent() {
        StartKeepsInvariant(tasks, taskTimers, id, handle);
      }
      var found := FindTask(id);
      if found.None? || tasks[found.value].completed {
        return;
      }
      var i := found.value;
      PauseOtherTimers(id);
      tasks := tasks[i := tasks[i].(timerActive := true)];
      taskTimers := taskTimers[id := handle];
    }

    /** The `forEach` of startTaskTimer: each task running under another id, visited in
        list order, is handed to pauseTaskTimer. */
    method PauseOtherTimers(id: string)
      modifies this
      ensures (tasks, taskTimers) == PauseOthers(old(tasks), old(taskTimers), id, |old(tasks)|)
      ensures editingTaskId == old(editingTaskId)
    {
      ghost var ts0, timers0 := tasks, taskTimers;
      var k := 0;
      while k < |tasks|
        invariant k <= |tasks| == |ts0|
        invariant (tasks, taskTimers) == PauseOthers(ts0, timers0, id, k)
        invariant editingTaskId == old(editingTaskId)
      {
        var t := tasks[k];
        PauseOthersNext(ts0, timers0, id, k, tasks, taskTimers);
        if t.timerActive && t.id != id {
          PauseTaskTimer(t.id);
        }
        k := k + 1;
      }
    }

    /** One firing of the task's interval: count down, or finish at zero. */
    method TaskTimerTick(id: string) returns (finished: bool)
      requires id in taskTimers
      modifies this
      ensures (tasks, taskTimers) == Ticked(old(tasks), old(taskTimers), id)
      ensures finished <==> FirstIndex(old(tasks), id).Some?
                            && old(tasks)[FirstIndex(old(tasks), id).value].timerRemaining <= 0
      ensures editingTaskId == old(editingTaskId)
      ensures old(Consistent()) ==> Consistent()
      ensures old(CountdownsInRange(tasks)) ==> CountdownsInRange(tasks)
    {
      if Consistent() {
        TickKeepsInvariant(tasks, taskTimers, id);
      }
      if CountdownsInRange(tasks) {
        TickKeepsRange(tasks, taskTimers, id);
      }
      var found := FindTask(id);
      match found
      case None =>
        finished := false;
      case Some(i) =>
        if tasks[i].timerRemaining <= 0 {
          TaskTimerFinished(id);
          finished := true;
        } else {
          tasks := tasks[i := tasks[i].(timerRemaining := tasks[i].timerRemaining - 1)];
          finished := false;
        }
    }

    /** taskTimerFinished: the timer is paused and the remaining time cleared. */
    method TaskTimerFinished(id: string)
      modifies this
      ensures (tasks, taskTimers) == Finished(old(tasks), old(taskTimers), id)
      ensures editingTaskId == old(editingTaskId)
      ensures old(Consistent()) ==> Consistent()
      ensures old(CountdownsInRange(tasks)) ==> CountdownsInRange(tasks)
    {
      if Consistent() {
        FinishKeepsInvariant(tasks, taskTimers, id);
      }
      if CountdownsInRange(tasks) {
        FinishKeepsRange(tasks, taskTimers, id);
      }
      var found := FindTask(id);
      if found.None? {
        return;
      }
      var i := found.value;
      PauseTaskTimer(id);
      tasks := tasks[i := tasks[i].(timerRemaining := 0)];
    }

    /** toggleTaskTimer: nothing for an unknown or completed task; otherwise a running
        timer is paused and a stopped one started. */
    method ToggleTaskTimer(id: string, handle: Handle)
      modifies this
      ensures match FirstIndex(old(tasks), id)
              case None => tasks == old(tasks) && taskTimers == old(taskTimers)
              case Some(i) =>
                if old(tasks)[i].completed then tasks == old(tasks) && taskTimers == old(taskTimers)
                else if old(tasks)[i].timerActive then
                  tasks == PauseTasks(old(tasks), id)
                  && taskTimers == PauseTimers(old(tasks), old(taskTimers), id)
                else (tasks, taskTimers) == Started(old(tasks), old(taskTimers), id, handle)
      ensures editingTaskId == old(editingTaskId)
      ensures old(Consistent()) ==> Consistent()
    {
      var found := FindTask(id);
      if found.None? || tasks[found.value].completed {
        return;
      }
      if tasks[found.value].timerActive {
        PauseTaskTimer(id);
      } else {
        StartTaskTimer(id, handle);
      }
    }
  }

  /** clearAllTasks as written leaves the handle of a running timer behind. */
  lemma ClearLeavesHandle()
    ensures var t := Task("a", "T", "", Personal, Medium, None, 1, 60, true, false, 0, None);
            var timers := map["a" := 7];
            StoreInvariant([t], timers) && !StoreInvariant([], timers)
  {
    var t := Task("a", "T", "", Personal, Medium, None, 1, 60, true, false, 0, None);
    var timers := map["a" := 7];
    assert [t][0] == t;
    assert HasActiveTimer([t], "a");
    assert "a" in timers && !HasActiveTimer([], "a");
  }
}

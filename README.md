# Cyberpunk task manager and time tools — a Dafny model

This project models the two in-memory state machines of the application.

- **`AdvancedTaskManager`** (advanced-task-manager.js):
  - the ordered list of task records, with add, toggle, edit, delete, import and clear-all;
  - the status and search filter, and the four-way sort;
  - the per-task countdown timers and the `taskTimers` map of interval handles, which are kept to "at most one timer running";
  - the `h:mm:ss` / `m:ss` timer text.
- **`CyberpunkTimeTools`** (time-tools.js):
  - the countdown timer;
  - the stopwatch with its laps;
  - the alarm list, each alarm firing once;
  - the Pomodoro phase machine;
  - the hour/minute/second/millisecond splits behind the three displays.

These parts are values and are modelled as datatypes and functions: the display names, the filter, the sort, the record updates and the texts. The objects the source updates in place are classes: `AdvancedTaskManager`, `CountdownTimer`, `Stopwatch`, `AlarmClock` and `PomodoroTimer`. Their methods have `modifies` clauses, and their loops (`find`, `forEach`) have invariants. Each method is proved against a specification function over the old state, and the invariants the source intends are proved about those functions.

Some things are parameters instead of calls:
- the current time (`Date.now()`, `new Date()`);
- the confirmation dialogs;
- the fresh ids from `generateId`;
- the interval handles from `setInterval`.

Every firing of an interval is an explicit method call (`TaskTimerTick`, `CountdownTimer.Tick`, `Stopwatch.Tick`, `PomodoroTimer.Tick`, `CheckAlarms`).

Modules, in dependency order:
- `Basics`: Option, handles, `Array.prototype.filter` and subsequences.
- `Text`: `trim`, lower-casing, `includes`, decimal printing, `padStart`, and a clock-text reader used as the inverse of the displays.
- `ClockFormat`: `formatTimer` and the display splits.
- `Tasks`: the task record, the store's invariant, and the specification functions of every store operation.
- `TaskViews`: `getFilteredTasks` and `getSortedTasks`.
- `TaskManager`: the `AdvancedTaskManager` class.
- `TimeTools`: countdown timer, stopwatch and alarms.
- `Pomodoro`.

The store's invariant is `Tasks.StoreInvariant`. It requires:
- unique ids;
- `completedAt` set exactly on completed tasks;
- at most one task with `timerActive`;
- `taskTimers` holding a handle for exactly the tasks whose timer is active.

Every store method keeps it, apart from the two as-written methods listed under "## Findings" and `ImportTasks`, whose records are taken as they come.

A second predicate, `Tasks.CountdownsInRange`, says that every task's remaining time lies between 0 and its length × 60. Adding, editing (both with a non-negative length), ticking, finishing, toggling, pausing, starting, deleting and importing records within the bounds keep it.

## Model

| member | source | states |
|---|---|---|
| Tasks.CategoryName | advanced-task-manager.js:452-462 | every category has a non-empty display name |
| Tasks.PriorityName | advanced-task-manager.js:464-472 | every priority has a non-empty display name |
| Tasks.DisplayNamesDistinct | advanced-task-manager.js:452-472 | no two categories, and no two priorities, share a display name; no two priorities share a sort weight |
| Tasks.PriorityRank | advanced-task-manager.js:513-514 | the sort weights lie between 1 and 4, urgent alone weighing 4 and low alone 1 |
| Tasks.FirstIndex | advanced-task-manager.js:238 | `find` by id: the position holds the id and no earlier task has it; none means no task has the id |
| Tasks.FirstIndexUnique | advanced-task-manager.js:238 | with unique ids, the task found is the only one with that id |
| Tasks.UpdateKeepsInvariant | advanced-task-manager.js:237-241 | replacing one record by another with the same id and a consistent completion stamp keeps the store invariant |
| Tasks.NewTask | advanced-task-manager.js:204-217 | the new record has the given id, the trimmed title and description; it is pending, unstamped, idle, created now, with its countdown at the full length; a non-negative length puts it within the countdown bounds |
| Tasks.AddKeepsInvariant | advanced-task-manager.js:204-219 | appending a new, pending, idle task under a fresh id keeps the invariant, and some task is then pending, so the confetti check fails |
| Tasks.ToggleTasks | advanced-task-manager.js:237-241 | the task found by id flips `completed`; `completedAt` is set, to now, exactly when it is completed; nothing else changes; an unknown id changes nothing |
| Tasks.ToggleTwice | advanced-task-manager.js:237-241 | toggling twice restores every `completed` flag; it restores the whole list if and only if the id is unknown, the task was pending, or the second toggle happens at the time of the task's original completion stamp |
| Tasks.ToggleKeepsInvariant | advanced-task-manager.js:237-241 | toggling keeps the store invariant |
| Tasks.PauseTasks | advanced-task-manager.js:980-995 | only the task found by id changes, and it only stops; an unknown id changes nothing |
| Tasks.PauseThenOverwrite | advanced-task-manager.js:337-344 | overwriting the paused task undoes the pause on the list, so the pause inside saveTaskChanges only shows in `taskTimers` |
| Tasks.PauseKeepsInvariant | advanced-task-manager.js:980-995 | pausing keeps the invariant, and the task with the id is no longer running |
| Tasks.PauseOthers | advanced-task-manager.js:955-959 | the `forEach` pass after `k` visits keeps ids and leaves the unvisited tasks untouched |
| Tasks.PauseOthersFrame | advanced-task-manager.js:955-959 | the pass changes nothing but `timerActive` flags |
| Tasks.PauseOthersExact | advanced-task-manager.js:955-959 | with unique ids, every visited task under another id is stopped and the others keep their flag |
| Tasks.PauseOthersHandles | advanced-task-manager.js:955-990 | the handles left after the pass are exactly those of the visited task with the id and of the unvisited tasks |
| Tasks.PauseOthersStep | advanced-task-manager.js:955-959 | one visit pauses exactly the visited task when it runs under another id |
| Tasks.PauseOthersNext | advanced-task-manager.js:955-959 | one more visit of the pass pauses the visited task exactly when it runs under another id, and that task is still as it was before the pass |
| Tasks.Started | advanced-task-manager.js:950-978 | startTaskTimer changes only `timerActive` flags; an unknown or completed task is a no-op; otherwise the task runs and its handle is recorded |
| Tasks.StartKeepsInvariant | advanced-task-manager.js:950-978 | after a start on an existing pending task it is the only running task and its handle the only one kept; the invariant holds |
| Tasks.Finished | advanced-task-manager.js:997-1002 | taskTimerFinished stops the task, sets its remaining time to 0 and drops its handle; an unknown id changes nothing |
| Tasks.FinishKeepsInvariant | advanced-task-manager.js:997-1002 | finishing a task's timer keeps the store invariant |
| Tasks.Ticked | advanced-task-manager.js:963-972 | a tick decrements the remaining time of a task that has time left by exactly 1, finishes it at 0 or below, and touches no other task |
| Tasks.TickKeepsInvariant | advanced-task-manager.js:963-972 | a tick keeps the store invariant |
| Tasks.Edited | advanced-task-manager.js:329-344 | the edited record carries the trimmed dialog values; a changed timer length stops the timer and resets the countdown to minutes × 60; an unchanged length leaves the timer state alone; id and completion are kept |
| Tasks.EditKeepsInvariant | advanced-task-manager.js:329-344 | editing, with the pause of a running timer whose length changed, keeps the invariant |
| Tasks.DeleteTasks | advanced-task-manager.js:258 | exactly the tasks with other ids remain, in their order, each as many times as it occurs; an absent id changes nothing |
| Tasks.DeleteAfterPause | advanced-task-manager.js:256-264 | pausing the task about to be deleted does not change what remains |
| Tasks.DeleteKeepsTaskInvariants | advanced-task-manager.js:258 | deleting keeps unique ids, the completion stamps and the one-timer rule |
| Tasks.DeleteLeavesHandle | advanced-task-manager.js:256-264 | as written, deleting a running task breaks the invariant: its handle remains |
| Tasks.PauseThenDeleteKeepsInvariant | advanced-task-manager.js:256-264 | pausing first and then deleting keeps the invariant |
| Tasks.DeleteKeepsInvariant | advanced-task-manager.js:258 | deleting a task that holds no handle keeps the invariant |
| Tasks.WithIds | advanced-task-manager.js:645-648 | only ids change: a record with an id keeps it, one without takes the fresh id at its position, so with non-empty fresh ids every imported record has an id |
| Tasks.AddKeepsRange | advanced-task-manager.js:204-217 | appending a record within the countdown bounds keeps every countdown within them |
| Tasks.TickKeepsRange | advanced-task-manager.js:963-972 | a tick keeps every countdown between 0 and its full length |
| Tasks.FinishKeepsRange | advanced-task-manager.js:997-1002 | finishing keeps every countdown within the bounds |
| Tasks.EditKeepsRange | advanced-task-manager.js:329-347 | an edit with a non-negative length keeps every countdown within the bounds |
| Tasks.OtherOperationsKeepRange | advanced-task-manager.js:237-264 | toggling, pausing, starting and deleting keep every countdown within the bounds |
| Tasks.ImportKeepsRange | advanced-task-manager.js:641-648 | importing records within the bounds keeps the store within them |
| TaskViews.FilterTasks | advanced-task-manager.js:490-508 | an order-preserving subsequence holding exactly the tasks that pass the status and search filters, each as many times as it occurs in the store; completed, pending and overdue each hold for every result; "all" with no query gives the whole list |
| TaskViews.StatusFiltersSplit | advanced-task-manager.js:491-494 | the status test of `PassesStatus`: "all" admits every task, "completed" and "pending" split the tasks between them, and a task is overdue exactly when it is pending with a due date in the past |
| TaskViews.SearchIgnoresCase | advanced-task-manager.js:497-502 | the search test of `MatchesQuery` ignores letter case: queries that lower-case alike find the same tasks, and any slice of a task's lower-cased title finds it |
| TaskViews.AddedTaskListedOnce | advanced-task-manager.js:490-508 | a task added under a fresh id is listed exactly once under "all" with no query |
| TaskViews.LexCompare | advanced-task-manager.js:522 | the alphabetical comparator returns -1, 0 or 1 |
| TaskViews.LexCompareAntisymmetric | advanced-task-manager.js:522 | swapping the titles flips the sign |
| TaskViews.LexCompareTransitive | advanced-task-manager.js:522 | the alphabetical order is transitive |
| TaskViews.LexCompareZero | advanced-task-manager.js:522 | two titles compare equal exactly when they are the same |
| TaskViews.Compare | advanced-task-manager.js:510-528 | by priority, a goes first exactly when its weight is higher; by creation, exactly when it is newer; by due date, a dated task goes before an undated one, an undated one never goes first, and between two dated tasks the earlier goes first; alphabetically the result is -1, 0 or 1 and 0 exactly for equal titles |
| TaskViews.CompareConsistent | advanced-task-manager.js:510-528 | each of the four comparators is antisymmetric, and its order and its ties are transitive |
| TaskViews.Insert | advanced-task-manager.js:510-528 | inserting into a sorted list keeps it sorted and adds exactly the element |
| TaskViews.SortTasks | advanced-task-manager.js:510-528 | a permutation of the input, sorted by the key: priority rank non-increasing, creation time non-increasing, dated tasks ascending before undated ones |
| TaskViews.InsertStable | advanced-task-manager.js:510-528 | insertion puts the new element after every element it ties with |
| TaskViews.SortStable | advanced-task-manager.js:510-528 | tied tasks keep their original relative order |
| TaskManager.AdvancedTaskManager.constructor | advanced-task-manager.js:7-18 | empty list, no handles, no task under edit, store consistent |
| TaskManager.AdvancedTaskManager.FindTask | advanced-task-manager.js:238 | the linear search returns the first position with the id |
| TaskManager.AdvancedTaskManager.AddTask | advanced-task-manager.js:199-228 | a blank title is refused with nothing changed; otherwise the new record is appended and nothing else changes; no confetti; consistency kept, and the countdown bounds too for a non-negative length |
| TaskManager.AdvancedTaskManager.ToggleTask | advanced-task-manager.js:237-254 | the list becomes the toggled list; celebration exactly when the task became completed and all tasks are completed; consistency kept |
| TaskManager.AdvancedTaskManager.DeleteTaskAsWritten | advanced-task-manager.js:256-264 | after confirmation the tasks with the id are removed and the handles left as they are |
| TaskManager.AdvancedTaskManager.DeleteTask | advanced-task-manager.js:256-264 | the same removal with the task's timer paused first; consistency kept |
| TaskManager.AdvancedTaskManager.ClearAllTasksAsWritten | advanced-task-manager.js:665-673 | after confirmation the list is empty and the handles are left as they are |
| TaskManager.AdvancedTaskManager.ClearAllTasks | advanced-task-manager.js:665-673 | the list is emptied and the handles with it; consistency kept |
| TaskManager.AdvancedTaskManager.EditTask | advanced-task-manager.js:266-272 | the dialog is for the task when it exists; nothing else changes |
| TaskManager.AdvancedTaskManager.CloseModal | advanced-task-manager.js:303-309 | no task is under edit afterwards; tasks and handles untouched |
| TaskManager.AdvancedTaskManager.SaveTaskChanges | advanced-task-manager.js:311-354 | the countdown bounds are kept for a non-negative length; saved exactly when a task is under edit, it still exists and the title is not blank; otherwise nothing changes; when saved, only that record changes, to the edited one; its handle is dropped exactly when a running timer's length changed; the dialog closes; consistency kept |
| TaskManager.AdvancedTaskManager.ImportTasks | advanced-task-manager.js:630-663 | a payload that is not a list of records changes nothing; otherwise the records, with ids filled in, are appended after the existing tasks |
| TaskManager.AdvancedTaskManager.PauseTaskTimer | advanced-task-manager.js:980-995 | the task stops and its handle goes; consistency kept |
| TaskManager.AdvancedTaskManager.StartTaskTimer | advanced-task-manager.js:950-978 | the pass and the start give exactly the state of `Tasks.Started`; consistency kept |
| TaskManager.AdvancedTaskManager.PauseOtherTimers | advanced-task-manager.js:955-959 | the `forEach` loop leaves exactly the state of `Tasks.PauseOthers` over the whole list |
| TaskManager.AdvancedTaskManager.TaskTimerTick | advanced-task-manager.js:963-972 | one firing gives exactly the state of `Tasks.Ticked`, finishing exactly when the task has run out of time; consistency and the countdown bounds kept |
| TaskManager.AdvancedTaskManager.TaskTimerFinished | advanced-task-manager.js:997-1002 | the state becomes that of `Tasks.Finished`; consistency and the countdown bounds kept |
| TaskManager.AdvancedTaskManager.ToggleTaskTimer | advanced-task-manager.js:939-948 | no-op for an unknown or completed task; a running timer is paused; an idle one is started; consistency kept |
| TaskManager.ClearLeavesHandle | advanced-task-manager.js:665-673 | as written, clearing while a timer runs breaks the invariant: an empty list with a handle left |
| Text.Trim | advanced-task-manager.js:199-207 | the result is empty exactly when the text is all white space; otherwise it starts and ends with non-space |
| Text.TrimIsSlice | advanced-task-manager.js:199-207 | the result is a slice of the text with only white space cut off before and after it |
| Text.TrimIdempotent | advanced-task-manager.js:332-333 | trimming a trimmed text changes nothing |
| Text.Lower | advanced-task-manager.js:497-502 | lower-casing keeps the length, leaves no capital letter, turns each capital into its small letter and leaves every other character as it is |
| Text.LowerIdempotent | advanced-task-manager.js:497-502 | lower-casing a lower-cased text changes nothing |
| Text.ContainsSlice | advanced-task-manager.js:498-502 | a text contains each of its slices |
| Text.NatToStringValue | advanced-task-manager.js:1040-1042 | the printed decimal digits read back as the number |
| Text.PadZeros | advanced-task-manager.js:1040-1042 | `padStart` with zeros reaches the width and keeps the digits' value |
| Text.TwoDigitField | advanced-task-manager.js:1040-1042 | a number below 100 padded to two digits takes exactly two characters |
| Text.ReadPrinted | time-tools.js:240 | the printed and the zero-padded forms of a number parse back to it |
| ClockFormat.SplitSeconds | time-tools.js:237-239 | hours × 3600 + minutes × 60 + seconds equals the total, with minutes and seconds below 60 |
| ClockFormat.SplitSecondsUnique | time-tools.js:237-239 | that decomposition is the only one |
| ClockFormat.SplitMillis | time-tools.js:316-319 | hours × 3600000 + minutes × 60000 + seconds × 1000 + ms equals the total, with minutes, seconds below 60 and ms below 1000 |
| ClockFormat.SplitMillisAgrees | time-tools.js:316-319 | the stopwatch's fields are those of the whole seconds plus the remaining milliseconds |
| ClockFormat.FormatTimer | advanced-task-manager.js:1034-1044 | the text has at least 7 characters from an hour on and at least 4 below, and a colon before its last two |
| ClockFormat.FormatTimerShape | advanced-task-manager.js:1034-1044 | the text has three fields from an hour on and two below; every field is a non-empty run of digits; the seconds take exactly two digits, and so do the minutes when there are hours |
| ClockFormat.FormatTimerFields | advanced-task-manager.js:1035-1042 | the fields of the text read as the split of the seconds: hours, minutes and seconds from an hour on, minutes and seconds below, so the printed minutes and seconds are below 60 |
| ClockFormat.FormatTimerRoundTrip | advanced-task-manager.js:1034-1044 | reading the text back gives the seconds it was made from |
| ClockFormat.FormatTimerInjective | advanced-task-manager.js:1034-1044 | distinct remaining times give distinct texts |
| ClockFormat.ClockText | time-tools.js:237-240 | `HH:MM:SS` has colons in its third- and sixth-last places and eight characters below a hundred hours |
| ClockFormat.ClockTextFields | time-tools.js:240 | the three fields of `HH:MM:SS` read as the hours, minutes and seconds it was made from |
| ClockFormat.TimerText | time-tools.js:237-240 | the countdown display is `HH:MM:SS`, eight characters below a hundred hours |
| ClockFormat.TimerTextFields | time-tools.js:237-240 | the countdown display's fields read as the hours, minutes below 60 and seconds below 60 of its time |
| ClockFormat.TimerTextRoundTrip | time-tools.js:237-240 | the countdown display reads back as its time |
| ClockFormat.StopwatchDisplay | time-tools.js:315-321 | the millisecond text has three digits; the clock text is `HH:MM:SS`, eight characters below a hundred hours |
| ClockFormat.StopwatchDisplayFields | time-tools.js:315-321 | the stopwatch clock's fields read as the hours, minutes and seconds of the split of the elapsed milliseconds, and the millisecond text as the milliseconds left over |
| ClockFormat.StopwatchDisplayRoundTrip | time-tools.js:315-321 | the two stopwatch displays read back as the elapsed milliseconds, and the millisecond text has three digits |
| ClockFormat.PomodoroText | time-tools.js:535-537 | the display ends in `:SS` and has five characters below a hundred minutes |
| ClockFormat.PomodoroTextFields | time-tools.js:535-537 | the Pomodoro display's fields read as the whole minutes and the seconds within the minute |
| ClockFormat.PomodoroTextRoundTrip | time-tools.js:535-537 | the Pomodoro display reads back as its time |
| TimeTools.CountdownTimer.constructor | time-tools.js:15 | stopped at zero, no interval |
| TimeTools.CountdownTimer.StartTimerAsWritten | time-tools.js:192-216 | an all-zero entry changes nothing; otherwise time = h × 3600 + m × 60 + s, running, and one more live interval, the old one not cleared |
| TimeTools.CountdownTimer.StartTimer | time-tools.js:192-216 | the same, with the interval held before cleared first, so the timer stays valid |
| TimeTools.CountdownTimer.PauseTimer | time-tools.js:218-225 | stopped, time kept, its interval cleared; from a valid state no interval is live |
| TimeTools.CountdownTimer.ResetTimer | time-tools.js:227-232 | stopped at zero with the interval cleared |
| TimeTools.CountdownTimer.ClearInterval | time-tools.js:219-223 | no interval is held afterwards and the live set is `ClearedLive` of the old one; running flag and time untouched |
| TimeTools.CountdownTimer.Tick | time-tools.js:205-258 | a firing decrements the time by exactly 1 while it is positive; at 0 or below it pauses and keeps the time; a non-negative time stays non-negative |
| TimeTools.ClearedLive | time-tools.js:219-223 | the cleared interval is no longer live and nothing else is removed; with no interval held, the live set is unchanged |
| TimeTools.StrayTickAfterPause | time-tools.js:192-225 | as written, start twice, then pause, and the paused timer still counts down |
| TimeTools.NoStrayIntervalAfterPause | time-tools.js:192-225 | with the corrected start, no interval is live after the pause |
| TimeTools.Stopwatch.constructor | time-tools.js:16 | stopped at zero, no laps |
| TimeTools.Stopwatch.StartStopwatch | time-tools.js:269-280 | running, the origin `time` before now, time and laps kept |
| TimeTools.Stopwatch.Tick | time-tools.js:273-274 | the elapsed time is now minus the origin |
| TimeTools.Stopwatch.PauseStopwatch | time-tools.js:282-290 | stopped, interval cleared, time and laps kept |
| TimeTools.Stopwatch.ToggleStopwatch | time-tools.js:261-267 | a running stopwatch pauses, a stopped one starts |
| TimeTools.Stopwatch.ResetStopwatch | time-tools.js:292-299 | stopped, time 0, no laps |
| TimeTools.Stopwatch.AddLap | time-tools.js:301-308 | appends the current time only when running; otherwise nothing changes |
| TimeTools.ResumeContinues | time-tools.js:269-290 | after a pause and a resume the elapsed time is the time before the pause plus the time since the resume |
| TimeTools.NewAlarm | time-tools.js:359-364 | the new alarm is active, is stamped with now, and gets the default label when none is given |
| TimeTools.FirstAlarm | time-tools.js:404 | the first position with the id, or none when no alarm has it |
| TimeTools.ToggleAlarms | time-tools.js:403-411 | only the first alarm with the id changes, and only its `active` flag |
| TimeTools.ToggleAlarmTwice | time-tools.js:403-411 | toggling twice restores the list |
| TimeTools.DeleteAlarms | time-tools.js:413-418 | exactly the alarms with other ids remain, in their order, each as many times as it occurs; an absent id changes nothing |
| TimeTools.CheckedAlarms | time-tools.js:420-440 | exactly the active alarms at the current minute are switched off; nothing else changes and none is removed |
| TimeTools.CheckedAlarmsFireOnce | time-tools.js:420-440 | after a check nothing is due at that minute, and a second check changes nothing |
| TimeTools.AlarmClock.constructor | time-tools.js:29 | the alarm list starts empty |
| TimeTools.AlarmClock.AddAlarm | time-tools.js:350-375 | refused without a time; otherwise the new alarm is appended |
| TimeTools.AlarmClock.FindAlarm | time-tools.js:404 | the linear search returns the first position with the id |
| TimeTools.AlarmClock.ToggleAlarm | time-tools.js:403-411 | the list becomes `ToggleAlarms` of the old one |
| TimeTools.AlarmClock.DeleteAlarm | time-tools.js:413-418 | the list becomes `DeleteAlarms` of the old one |
| TimeTools.AlarmClock.TriggerAlarm | time-tools.js:431-440 | only that alarm is switched off |
| TimeTools.AlarmClock.CheckAlarms | time-tools.js:420-429 | the loop leaves `CheckedAlarms` of the old list and reports, in order, exactly the alarms that were due |
| Pomodoro.NextPhase | time-tools.js:500-526 | after work: one more session and a break, long exactly when the sessions are a multiple of 4; after a break: one more break and work; the new phase starts at its full length |
| Pomodoro.CompletionsClosedForm | time-tools.js:500-526 | after k phases from work: ⌈k/2⌉ more sessions, ⌊k/2⌋ more breaks, work after an even count, otherwise a break that is long exactly at a multiple of 4 sessions |
| Pomodoro.FourCycles | time-tools.js:500-526 | from a fresh state the phases are work, short, work, short, work, short, work, long, and four cycles leave 4 sessions and 4 breaks |
| Pomodoro.PomodoroTimer.constructor | time-tools.js:17-26 | stopped at the start of a 25-minute work session, no sessions or breaks |
| Pomodoro.PomodoroTimer.StartPomodoro | time-tools.js:466-480 | running with an interval, the counting state kept |
| Pomodoro.PomodoroTimer.PausePomodoro | time-tools.js:482-490 | stopped, interval cleared, counting state kept |
| Pomodoro.PomodoroTimer.TogglePomodoro | time-tools.js:458-464 | running flips; the counting state is kept |
| Pomodoro.PomodoroTimer.ResetPomodoro | time-tools.js:492-498 | stopped at the start of a work session, sessions and breaks kept |
| Pomodoro.PomodoroTimer.PhaseComplete | time-tools.js:500-526 | stopped, in the state `NextPhase` gives |
| Pomodoro.PomodoroTimer.Tick | time-tools.js:469-476 | decrements the time by exactly 1 while it is positive; completes the phase at 0 |

## Left out

- DOM work is not modelled: rendering, the modal's fields, notifications, the theme, the cursor and particle effects, confetti, the screen flash, and sound. The dialog's values come in as an `Edit`, and the confetti decision as a boolean result.
- Persistence is not modelled: `localStorage`, JSON, `FileReader` and export. The loading of saved tasks and alarms in the constructors is left out with it. An import file is an `Option<seq<Task>>`, and `None` stands for a file that does not parse to a list.
- ImportTasks: the records of an imported file are taken as well-formed tasks. The source does not check their fields, their categories or the uniqueness of their ids, so the method does not claim to keep `Consistent()`.
- Clocks and intervals are not modelled: `Date.now()`, `new Date()`, `setInterval` and `clearInterval`. The current time and each fresh handle are parameters, and each firing is a method call. `setTimeout` delays are dropped.
- `generateId` is not modelled, because it uses the clock and `Math.random`. The fresh id is a parameter with a freshness precondition.
- TaskManager.AdvancedTaskManager.TaskTimerFinished: the delayed `confirm` question that may toggle the task (advanced-task-manager.js:1008-1012) is a separate user action in the model, `ToggleTask`.
- Tasks.Ticked: the JavaScript tick closes over the task object, and the model looks the task up by id. The two agree while ids are unique, which `Consistent()` keeps. A tick for a task that was removed from the list changes nothing in the model.
- TaskViews.LexCompare: it compares code points. `localeCompare(.., 'ar')` is locale collation, which is not modelled.
- Text.Lower: only ASCII letters are lower-cased. Unicode case mapping is not modelled.
- Categories and priorities are enumerations. A string outside them, possible only through an import, is not modelled. Neither is `getCategoryName`'s fall-back to the raw value.
- `parseInt` on the input fields is not modelled: the numbers come in already parsed, and `NaN` is not modelled.
- Tasks.CountdownsInRange: a negative timer length is accepted as the source accepts it, so the countdown bounds are proved only for non-negative lengths (AddTask, SaveTaskChanges) and for imported records that are within the bounds.
- ClockFormat.FormatTimer: it takes a non-negative count, so the source's text for a negative remaining time (such as `-5:00`) is not modelled; with the countdown bounds every remaining time is non-negative.
- ClockFormat.TimerText: it takes a non-negative count, while `CountdownTimer.time` is an integer that `StartTimer` lets go negative for negative fields (minutes -1 gives -60). The source's display of a negative countdown (such as `-1:-1:00` for -60) is not modelled.
- Floating point in its entirety is not modelled: statistics, `formatDate`, and the Pomodoro progress circle.
- The digital clock and the world clocks are not modelled, because they show the wall clock and time zones.
- jsr.js is not part of this model.
- TimeTools.Stopwatch.StartStopwatch and Pomodoro.PomodoroTimer.StartPomodoro require a stopped widget. Their only callers are the toggles, which check `running`.
- The stopwatch's origin is a field, where the source keeps it in a closure.
- Dafny integers are unbounded. JavaScript numbers are doubles, which is exact for all times and counts these widgets reach.

## Findings

| source | as written | input that shows it | evidently intended | confidence | as-written member | corrected member |
|---|---|---|---|---|---|---|
| advanced-task-manager.js:256-264 | `deleteTask` removes a task whose timer is running without clearing its interval; the handle stays in `taskTimers`, and `taskTimerFinished` returns early for the missing task, so the interval fires forever | one task `a` with a running timer and handle 7; `deleteTask("a")` confirmed | stop the task's timer before removing it | not executed | TaskManager.AdvancedTaskManager.DeleteTaskAsWritten, Tasks.DeleteLeavesHandle | TaskManager.AdvancedTaskManager.DeleteTask, Tasks.PauseThenDeleteKeepsInvariant |
| advanced-task-manager.js:665-673 | `clearAllTasks` empties the list but leaves every running interval and its handle | one task `a` with a running timer and handle 7; `clearAllTasks()` confirmed | clear every task interval as well | not executed | TaskManager.AdvancedTaskManager.ClearAllTasksAsWritten, TaskManager.ClearLeavesHandle | TaskManager.AdvancedTaskManager.ClearAllTasks |
| time-tools.js:192-216 | `startTimer` while the timer runs schedules a second interval and overwrites the handle of the first; `pauseTimer` then clears only the second, so the paused timer keeps counting down | start with 0:00:05, start again with 0:00:05, pause, and the first interval's next firing takes the time from 5 to 4 | clear the running interval before scheduling a new one | not executed | TimeTools.CountdownTimer.StartTimerAsWritten, TimeTools.StrayTickAfterPause | TimeTools.CountdownTimer.StartTimer, TimeTools.NoStrayIntervalAfterPause |

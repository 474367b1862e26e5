/** Three widgets of CyberpunkTimeTools: the countdown timer (`states.timer` with
    `timers.timer`), the stopwatch (`states.stopwatch` with `timers.stopwatch`) and
    the alarm list (`alarms`). Every firing of an interval is an explicit call, the
    current time is a parameter, and each interval handle comes from the caller. */
module TimeTools {
  import opened Basics

  // ---------------------------------------------------------------------------
  // Countdown timer

  /** The countdown timer. `live` is the set of intervals that have been scheduled and
      not cleared; each of them keeps firing `Tick`. */
  class CountdownTimer {
    var running: bool
    var time: int
    var interval: Option<Handle>
    var live: set<Handle>

    /** The timer runs exactly when it holds an interval, and that interval is the only
        live one. */
    ghost predicate Valid()
      reads this
    {
      (running <==> interval.Some?)
      && live == if interval.Some? then {interval.value} else {}
    }

    constructor()
      ensures !running && time == 0 && interval == None && live == {}
      ensures Valid()
    {
      running := false;
      time := 0;
      interval := None;
      live := {};
    }

    /** startTimer as written: an all-zero entry is refused; otherwise the countdown is
        set, a new interval `h` is scheduled and any interval held before is forgotten
        without being cleared (see Findings). */
    method StartTimerAsWritten(hours: int, minutes: int, seconds: int, h: Handle) returns (started: bool)
      requires h !in live
      modifies this
      ensures started <==> !(hours == 0 && minutes == 0 && seconds == 0)
      ensures !started ==> running == old(running) && time == old(time)
                           && interval == old(interval) && live == old(live)
      ensures started ==> running && time == hours * 3600 + minutes * 60 + seconds
                          && interval == Some(h) && live == old(live) + {h}
    {
      if hours == 0 && minutes == 0 && seconds == 0 {
        return false;
      }
      time := hours * 3600 + minutes * 60 + seconds;
      running := true;
      interval := Some(h);
      live := live + {h};
      started := true;
    }

    /** startTimer with the interval held before cleared first. */
    method StartTimer(hours: int, minutes: int, seconds: int, h: Handle) returns (started: bool)
      requires h !in live
      modifies this
      ensures started <==> !(hours == 0 && minutes == 0 && seconds == 0)
      ensures !started ==> running == old(running) && time == old(time)
                           && interval == old(interval) && live == old(live)
      ensures started ==> running && time == hours * 3600 + minutes * 60 + seconds
                          && interval == Some(h) && live == ClearedLive(old(live), old(interval)) + {h}
      ensures old(Valid()) ==> Valid()
    {
      if hours == 0 && minutes == 0 && seconds == 0 {
        return false;
      }
      ClearInterval();
      time := hours * 3600 + minutes * 60 + seconds;
      running := true;
      interval := Some(h);
      live := live + {h};
      started := true;
    }

    /** `clearInterval(this.timers.timer)` when there is one, and forget it. */
    method ClearInterval()
      modifies this
      ensures interval == None && live == ClearedLive(old(live), old(interval))
      ensures running == old(running) && time == old(time)
    {
      if interval.Some? {
        live := live - {interval.value};
        interval := None;
      }
    }

    /** pauseTimer: the timer stops and its interval, if any, is cleared. */
    method PauseTimer()
      modifies this
      ensures !running && time == old(time)
      ensures interval == None && live == ClearedLive(old(live), old(interval))
      ensures old(Valid()) ==> Valid() && live == {}
    {
      running := false;
      ClearInterval();
    }

    /** resetTimer: paused, and the countdown back to zero. */
    method ResetTimer()
      modifies this
      ensures !running && time == 0
      ensures interval == None && live == ClearedLive(old(live), old(interval))
      ensures old(Valid()) ==> Valid()
    {
      PauseTimer();
      time := 0;
    }

    /** One firing of the live interval `h`: count down while time is left, otherwise
        finish (timerFinished pauses the timer; the time is left as it is). */
    method Tick(h: Handle) returns (finished: bool)
      requires h in live
      modifies this
      ensures finished <==> old(time) <= 0
      ensures !finished ==> time == old(time) - 1 && running == old(running)
                            && interval == old(interval) && live == old(live)
      ensures finished ==> time == old(time) && !running
                           && interval == None && live == ClearedLive(old(live), old(interval))
      ensures old(time) >= 0 ==> time >= 0
      ensures old(Valid()) ==> Valid()
    {
      if time <= 0 {
        PauseTimer();
        return true;
      }
      time := time - 1;
      finished := false;
    }
  }

  /** The live intervals after the one in `held` (if any) is cleared. */
  function ClearedLive(live: set<Handle>, held: Option<Handle>): (r: set<Handle>)
    ensures held.Some? ==> held.value !in r && r + {held.value} >= live
    ensures held.None? ==> r == live
    ensures r <= live
  {
    if held.Some? then live - {held.value} else live
  }

  /** Starting the timer twice as written and then pausing leaves the first interval
      live: its next firing still counts the paused timer down. */
  method StrayTickAfterPause() returns (before: int, after: int, running: bool, live: set<Handle>)
    ensures !running && before == 5 && after == 4 && live == {1}
  {
    var c := new CountdownTimer();
    var s1 := c.StartTimerAsWritten(0, 0, 5, 1);
    var s2 := c.StartTimerAsWritten(0, 0, 5, 2);
    c.PauseTimer();
    before := c.time;
    var finished := c.Tick(1);
    after, running, live := c.time, c.running, c.live;
  }

  /** With the corrected start, starting twice and pausing leaves no interval live. */
  method NoStrayIntervalAfterPause() returns (running: bool, live: set<Handle>)
    ensures !running && live == {}
  {
    var c := new CountdownTimer();
    var s1 := c.StartTimer(0, 0, 5, 1);
    var s2 := c.StartTimer(0, 0, 5, 2);
    c.PauseTimer();
    running, live := c.running, c.live;
  }

  // ---------------------------------------------------------------------------
  // Stopwatch

  /** The stopwatch. `startTime` is the origin its interval measures from, so that the
      elapsed time continues where it stopped. */
  class Stopwatch {
    var running: bool
    var time: int
    var laps: seq<int>
    var startTime: int
    var interval: Option<Handle>

    ghost predicate Valid()
      reads this
    {
      running <==> interval.Some?
    }

    constructor()
      ensures !running && time == 0 && laps == [] && interval == None
      ensures Valid()
    {
      running := false;
      time := 0;
      laps := [];
      startTime := 0;
      interval := None;
    }

    /** startStopwatch (reached only through toggleStopwatch when stopped): runs from
        an origin `time` milliseconds before `now`. */
    method StartStopwatch(now: int, h: Handle)
      requires !running
      modifies this
      ensures running && interval == Some(h) && startTime == now - old(time)
      ensures time == old(time) && laps == old(laps)
      ensures Valid()
    {
      running := true;
      startTime := now - time;
      interval := Some(h);
    }

    /** One firing of the stopwatch's interval at `now`: the elapsed time is the
        distance from the origin, so it grows by exactly the time since the last start
        or firing. */
    method Tick(now: int)
      requires running
      modifies this
      ensures time == now - startTime
      ensures running && startTime == old(startTime) && laps == old(laps) && interval == old(interval)
    {
      time := now - startTime;
    }

    /** pauseStopwatch: stops and clears the interval; the elapsed time is kept. */
    method PauseStopwatch()
      modifies this
      ensures !running && interval == None
      ensures time == old(time) && laps == old(laps) && startTime == old(startTime)
      ensures Valid()
    {
      running := false;
      interval := None;
    }

    method ToggleStopwatch(now: int, h: Handle)
      modifies this
      ensures old(running) ==> !running && interval == None && startTime == old(startTime)
      ensures !old(running) ==> running && interval == Some(h) && startTime == now - old(time)
      ensures time == old(time) && laps == old(laps)
      ensures Valid()
    {
      if running {
        PauseStopwatch();
      } else {
        StartStopwatch(now, h);
      }
    }

    /** resetStopwatch: stopped, at zero, without laps. */
    method ResetStopwatch()
      modifies this
      ensures !running && interval == None && time == 0 && laps == []
      ensures Valid()
    {
      PauseStopwatch();
      time := 0;
      laps := [];
    }

    /** addLap: records the elapsed time, only while running. */
    method AddLap()
      modifies this
      ensures laps == if old(running) then old(laps) + [old(time)] else old(laps)
      ensures running == old(running) && time == old(time) && interval == old(interval)
      ensures startTime == old(startTime)
    {
      if running {
        laps := laps + [time];
      }
    }
  }

  /** Pausing and resuming lose no time: a firing after a resume at `resumed` reports the
      time elapsed before the pause plus the time since the resume. */
  method ResumeContinues(firstStart: int, paused: int, resumed: int, later: int) returns (elapsed: int)
    ensures elapsed == (paused - firstStart) + (later - resumed)
  {
    var w := new Stopwatch();
    w.StartStopwatch(firstStart, 1);
    w.Tick(paused);
    w.PauseStopwatch();
    w.StartStopwatch(resumed, 2);
    w.Tick(later);
    elapsed := w.time;
  }

  // ---------------------------------------------------------------------------
  // Alarms

  /** An alarm: its id is the `Date.now()` of its creation, its time an `HH:MM` text. */
  datatype Alarm = Alarm(id: int, time: string, labelText: string, active: bool)

  const DefaultLabel: string := "منبه"

  /** The alarm addAlarm builds: a missing label becomes the default one. */
  function NewAlarm(time: string, labelText: string, now: int): (a: Alarm)
    ensures a.id == now && a.time == time && a.active
    ensures a.labelText == (if labelText == "" then DefaultLabel else labelText) && |a.labelText| > 0
  {
    Alarm(now, time, if labelText == "" then DefaultLabel else labelText, true)
  }

  /** The position of the first alarm with the id. */
  function FirstAlarm(alarms: seq<Alarm>, id: int, from: nat): (r: Option<nat>)
    requires from <= |alarms|
    ensures r.Some? ==> from <= r.value < |alarms| && alarms[r.value].id == id
                        && forall k :: from <= k < r.value ==> alarms[k].id != id
    ensures r.None? ==> forall k :: from <= k < |alarms| ==> alarms[k].id != id
    decreases |alarms| - from
  {
    if from == |alarms| then None
    else if alarms[from].id == id then Some(from)
    else FirstAlarm(alarms, id, from + 1)
  }

  /** toggleAlarm on the list: the first alarm with the id flips, nothing else changes. */
  function ToggleAlarms(alarms: seq<Alarm>, id: int): (r: seq<Alarm>)
    ensures |r| == |alarms|
    ensures forall k :: 0 <= k < |alarms| ==>
              r[k].(active := alarms[k].active) == alarms[k]
              && (r[k].active != alarms[k].active <==> FirstAlarm(alarms, id, 0) == Some(k))
  {
    match FirstAlarm(alarms, id, 0)
    case None => alarms
    case Some(i) => alarms[i := alarms[i].(active := !alarms[i].active)]
  }

  /** Toggling the same alarm twice changes nothing. */
  lemma ToggleAlarmTwice(alarms: seq<Alarm>, id: int)
    ensures ToggleAlarms(ToggleAlarms(alarms, id), id) == alarms
  {
    var once := ToggleAlarms(alarms, id);
    assert FirstAlarm(once, id, 0) == FirstAlarm(alarms, id, 0) by {
      assert forall k :: 0 <= k < |alarms| ==> once[k].id == alarms[k].id;
    }
  }

  /** The filter predicate of deleteAlarm. */
  function OtherAlarm(id: int): Alarm -> bool
  {
    (a: Alarm) => a.id != id
  }

  /** deleteAlarm on the list: exactly the alarms with other ids remain, in order. */
  function DeleteAlarms(alarms: seq<Alarm>, id: int): (r: seq<Alarm>)
    ensures IsSubseq(r, alarms) && |r| == CountWhere(alarms, OtherAlarm(id))
    ensures forall k :: 0 <= k < |r| ==> r[k].id != id && r[k] in alarms
    ensures forall k :: 0 <= k < |alarms| && alarms[k].id != id ==> alarms[k] in r
    ensures (forall k :: 0 <= k < |alarms| ==> alarms[k].id != id) ==> r == alarms
  {
    FilterIsSubseq(alarms, OtherAlarm(id));
    FilterMembers(alarms, OtherAlarm(id));
    FilterKeepsAll(alarms, OtherAlarm(id));
    Filter(alarms, OtherAlarm(id))
  }

  /** The alarms checkAlarms triggers at the minute `now`. */
  function Due(now: string): Alarm -> bool
  {
    (a: Alarm) => a.active && a.time == now
  }

  /** checkAlarms on the list: each alarm due at `now` is switched off; nothing else
      changes and no alarm is removed. */
  function CheckedAlarms(alarms: seq<Alarm>, now: string): (r: seq<Alarm>)
    ensures |r| == |alarms|
    ensures forall k :: 0 <= k < |alarms| ==>
              r[k].id == alarms[k].id && r[k].time == alarms[k].time
              && r[k].labelText == alarms[k].labelText
              && r[k].active == (alarms[k].active && alarms[k].time != now)
  {
    seq(|alarms|, k requires 0 <= k < |alarms| =>
      if alarms[k].active && alarms[k].time == now then alarms[k].(active := false) else alarms[k])
  }

  /** An alarm fires once: checking the same minute again triggers nothing and changes
      nothing. */
  lemma CheckedAlarmsFireOnce(alarms: seq<Alarm>, now: string)
    ensures Filter(CheckedAlarms(alarms, now), Due(now)) == []
    ensures CheckedAlarms(CheckedAlarms(alarms, now), now) == CheckedAlarms(alarms, now)
  {
    FilterKeepsNone(CheckedAlarms(alarms, now), Due(now));
  }

  class AlarmClock {
    var alarms: seq<Alarm>

    constructor()
      ensures alarms == []
    {
      alarms := [];
    }

    /** addAlarm: refused without a time; otherwise the new, active alarm is appended. */
    method AddAlarm(time: string, labelText: string, now: int) returns (added: bool)
      modifies this
      ensures added <==> time != ""
      ensures alarms == if added then old(alarms) + [NewAlarm(time, labelText, now)] else old(alarms)
    {
      if time == "" {
        return false;
      }
      alarms := alarms + [NewAlarm(time, labelText, now)];
      added := true;
    }

    /** `this.alarms.find(a => a.id === id)`, as a position. */
    method FindAlarm(id: int) returns (r: Option<nat>)
      ensures r == FirstAlarm(alarms, id, 0)
    {
      var k := 0;
      while k < |alarms|
        invariant k <= |alarms|
        invariant FirstAlarm(alarms, id, 0) == FirstAlarm(alarms, id, k)
      {
        if alarms[k].id == id {
          return Some(k);
        }
        k := k + 1;
      }
      return None;
    }

    method ToggleAlarm(id: int)
      modifies this
      ensures alarms == ToggleAlarms(old(alarms), id)
    {
      var found := FindAlarm(id);
      if found.Some? {
        var i := found.value;
        alarms := alarms[i := alarms[i].(active := !alarms[i].active)];
      }
    }

    method DeleteAlarm(id: int)
      modifies this
      ensures alarms == DeleteAlarms(old(alarms), id)
    {
      alarms := Filter(alarms, OtherAlarm(id));
    }

    /** triggerAlarm on the alarm at position `k`: it is switched off. */
    method TriggerAlarm(k: nat)
      requires k < |alarms|
      modifies this
      ensures alarms == old(alarms)[k := old(alarms)[k].(active := false)]
    {
      alarms := alarms[k := alarms[k].(active := false)];
    }

    /** checkAlarms at the minute `now` (`toTimeString().slice(0, 5)`): every alarm due
        is triggered, in list order; `fired` lists them as they were. */
    method CheckAlarms(now: string) returns (fired: seq<Alarm>)
      modifies this
      ensures alarms == CheckedAlarms(old(alarms), now)
      ensures fired == Filter(old(alarms), Due(now))
    {
      ghost var before := alarms;
      fired := [];
      var k := 0;
      while k < |alarms|
        invariant k <= |alarms| == |before|
        invariant forall j :: 0 <= j < k ==> alarms[j] == CheckedAlarms(before, now)[j]
        invariant forall j :: k <= j < |alarms| ==> alarms[j] == before[j]
        invariant fired == Filter(before[..k], Due(now))
      {
        assert before[..k + 1] == before[..k] + [before[k]];
        FilterAppend(before[..k], [before[k]], Due(now));
        if alarms[k].active && alarms[k].time == now {
          fired := fired + [alarms[k]];
          TriggerAlarm(k);
        }
        k := k + 1;
      }
      assert before[..k] == before;
    }
  }
}

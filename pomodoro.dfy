/** The Pomodoro widget of CyberpunkTimeTools (`states.pomodoro` with
    `timers.pomodoro`): work sessions of 25 minutes alternate with breaks of 5 minutes,
    and every fourth work session is followed by a break of 15 minutes. */
module Pomodoro {
  import opened Basics

  datatype Phase = Work | ShortBreak | LongBreak

  /** The phase lengths in seconds: `workTime`, `shortBreak` and `longBreak`. */
  const WorkTime: int := 25 * 60
  const ShortBreakTime: int := 5 * 60
  const LongBreakTime: int := 15 * 60

  function PhaseLength(p: Phase): int
  {
    match p
    case Work => WorkTime
    case ShortBreak => ShortBreakTime
    case LongBreak => LongBreakTime
  }

  /** The counting part of the widget's state. */
  datatype Cycle = Cycle(phase: Phase, time: int, sessions: nat, breaks: nat)

  /** The state the widget starts in. */
  function Fresh(): Cycle
  {
    Cycle(Work, WorkTime, 0, 0)
  }

  /** pomodoroPhaseComplete: a finished work session is counted and followed by a break,
      a long one when the count reaches a multiple of four; a finished break is counted
      and followed by work. Each new phase starts at its full length. */
  function NextPhase(c: Cycle): (r: Cycle)
    ensures r.time == PhaseLength(r.phase)
    ensures c.phase == Work ==>
              r.sessions == c.sessions + 1 && r.breaks == c.breaks
              && (r.phase == LongBreak <==> r.sessions % 4 == 0)
              && r.phase != Work
    ensures c.phase != Work ==>
              r.phase == Work && r.breaks == c.breaks + 1 && r.sessions == c.sessions
  {
    if c.phase == Work then
      var s := c.sessions + 1;
      if s % 4 == 0 then Cycle(LongBreak, LongBreakTime, s, c.breaks)
      else Cycle(ShortBreak, ShortBreakTime, s, c.breaks)
    else Cycle(Work, WorkTime, c.sessions, c.breaks + 1)
  }

  /** The state after `k` phases have completed. */
  function Completions(c: Cycle, k: nat): Cycle
  {
    if k == 0 then c else NextPhase(Completions(c, k - 1))
  }

  /** From the start of a work session, after `k` completed phases: half of them
      (rounded up) were work sessions, the rest breaks, and the phase is work after an
      even number and a break otherwise, long exactly when the sessions are a multiple
      of four. */
  lemma {:induction false} CompletionsClosedForm(c: Cycle, k: nat)
    requires c.phase == Work
    ensures var r := Completions(c, k);
            r.sessions == c.sessions + (k + 1) / 2
            && r.breaks == c.breaks + k / 2
            && r.phase == (if k % 2 == 0 then Work
                           else if r.sessions % 4 == 0 then LongBreak
                           else ShortBreak)
            && (k > 0 ==> r.time == PhaseLength(r.phase))
  {
    if k > 0 {
      CompletionsClosedForm(c, k - 1);
    }
  }

  /** The phases seen in `n` consecutive phases starting from `c`. */
  function Phases(c: Cycle, n: nat): (r: seq<Phase>)
    ensures |r| == n
    decreases n
  {
    if n == 0 then [] else [c.phase] + Phases(NextPhase(c), n - 1)
  }

  /** Four full cycles from a fresh widget: three short breaks, then a long one. */
  lemma FourCycles()
    ensures Phases(Fresh(), 8)
            == [Work, ShortBreak, Work, ShortBreak, Work, ShortBreak, Work, LongBreak]
    ensures Completions(Fresh(), 8) == Cycle(Work, WorkTime, 4, 4)
  {
  }

  /** The widget. */
  class PomodoroTimer {
    var running: bool
    var time: int
    var phase: Phase
    var sessions: nat
    var breaks: nat
    var interval: Option<Handle>

    ghost function State(): Cycle
      reads this
    {
      Cycle(phase, time, sessions, breaks)
    }

    ghost predicate Valid()
      reads this
    {
      running <==> interval.Some?
    }

    constructor()
      ensures State() == Fresh() && !running && interval == None
      ensures Valid()
    {
      running := false;
      time := WorkTime;
      phase := Work;
      sessions := 0;
      breaks := 0;
      interval := None;
    }

    /** startPomodoro (reached only through togglePomodoro when stopped). */
    method StartPomodoro(h: Handle)
      requires !running
      modifies this
      ensures running && interval == Some(h) && State() == old(State())
      ensures Valid()
    {
      running := true;
      interval := Some(h);
    }

    /** pausePomodoro: stops and clears the interval; the countdown is kept. */
    method PausePomodoro()
      modifies this
      ensures !running && interval == None && State() == old(State())
      ensures Valid()
    {
      running := false;
      interval := None;
    }

    method TogglePomodoro(h: Handle)
      modifies this
      ensures running == !old(running) && State() == old(State())
      ensures interval == if old(running) then None else Some(h)
      ensures Valid()
    {
      if running {
        PausePomodoro();
      } else {
        StartPomodoro(h);
      }
    }

    /** resetPomodoro: paused, back at the start of a work session; the session and
        break counters are kept. */
    method ResetPomodoro()
      modifies this
      ensures !running && interval == None
      ensures State() == Cycle(Work, WorkTime, old(sessions), old(breaks))
      ensures Valid()
    {
      PausePomodoro();
      phase := Work;
      time := WorkTime;
    }

    /** pomodoroPhaseComplete: paused, in the next phase. */
    method PhaseComplete()
      modifies this
      ensures !running && interval == None
      ensures State() == NextPhase(old(State()))
      ensures Valid()
    {
      PausePomodoro();
      if phase == Work {
        sessions := sessions + 1;
        if sessions % 4 == 0 {
          phase := LongBreak;
          time := LongBreakTime;
        } else {
          phase := ShortBreak;
          time := ShortBreakTime;
        }
      } else {
        breaks := breaks + 1;
        phase := Work;
        time := WorkTime;
      }
    }

    /** One firing of the Pomodoro interval: count down while time is left, otherwise
        complete the phase. */
    method Tick() returns (completed: bool)
      requires running
      modifies this
      ensures completed <==> old(time) <= 0
      ensures !completed ==> State() == old(State()).(time := old(time) - 1)
                             && running && interval == old(interval)
      ensures completed ==> State() == NextPhase(old(State())) && !running && interval == None
      ensures old(Valid()) ==> Valid()
    {
      if time <= 0 {
        PhaseComplete();
        return true;
      }
      time := time - 1;
      completed := false;
    }
  }
}

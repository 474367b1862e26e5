/** The arithmetic behind the countdown texts: the task timer's `formatTimer`
    (advanced-task-manager.js) and the three time-tool displays
    (`updateTimerDisplay`, `updateStopwatchDisplay`, `updatePomodoroDisplay` in
    time-tools.js). Each splits a count of seconds or milliseconds into fields with
    `Math.floor` and `%`; on non-negative counts those agree with Dafny's `/` and `%`. */
module ClockFormat {
  import opened Basics
  import opened Text

  datatype Hms = Hms(hours: nat, minutes: nat, seconds: nat)

  /** Whole hours, minutes within the hour, seconds within the minute. */
  function SplitSeconds(total: nat): (r: Hms)
    ensures ClockSeconds(r.hours, r.minutes, r.seconds) == total
    ensures r.minutes < 60 && r.seconds < 60
  {
    Hms(total / 3600, (total % 3600) / 60, total % 60)
  }

  /** There is only one way to write a count as hours, minutes below 60 and seconds below 60. */
  lemma SplitSecondsUnique(total: nat, h: nat, m: nat, s: nat)
    requires h * 3600 + m * 60 + s == total && m < 60 && s < 60
    ensures SplitSeconds(total) == Hms(h, m, s)
  {
    assert total / 3600 == h;
    assert total % 3600 == m * 60 + s;
  }

  datatype Hmsm = Hmsm(hours: nat, minutes: nat, seconds: nat, millis: nat)

  /** The stopwatch's split of elapsed milliseconds. */
  function SplitMillis(totalMs: nat): (r: Hmsm)
    ensures r.hours * 3600000 + r.minutes * 60000 + r.seconds * 1000 + r.millis == totalMs
    ensures r.minutes < 60 && r.seconds < 60 && r.millis < 1000
  {
    var r := Hmsm(totalMs / 3600000, (totalMs % 3600000) / 60000, (totalMs % 60000) / 1000, totalMs % 1000);
    MillisFields(totalMs);
    r
  }

  lemma MillisFields(q: nat)
    ensures (q / 3600000) * 3600000 + ((q % 3600000) / 60000) * 60000
            + ((q % 60000) / 1000) * 1000 + q % 1000 == q
    ensures (q % 3600000) / 60000 < 60
  {
    var h, b := q / 3600000, q % 3600000;
    assert q == h * 3600000 + b;
    var m, c := b / 60000, b % 60000;
    assert b == m * 60000 + c;
    assert q == (h * 60 + m) * 60000 + c;
    assert q % 60000 == c;
    var s, ms := c / 1000, c % 1000;
    assert c == s * 1000 + ms;
    assert q == ((h * 60 + m) * 60 + s) * 1000 + ms;
    assert q % 1000 == ms;
  }

  /** The stopwatch's fields are those of its whole seconds, plus the milliseconds left over. */
  lemma SplitMillisAgrees(totalMs: nat)
    ensures var r := SplitMillis(totalMs);
            SplitSeconds(totalMs / 1000) == Hms(r.hours, r.minutes, r.seconds)
            && r.millis == totalMs % 1000
  {
    var r := SplitMillis(totalMs);
    assert (r.hours * 3600 + r.minutes * 60 + r.seconds) * 1000 + r.millis == totalMs;
    assert totalMs / 1000 == r.hours * 3600 + r.minutes * 60 + r.seconds;
    SplitSecondsUnique(totalMs / 1000, r.hours, r.minutes, r.seconds);
  }

  // ---------------------------------------------------------------------------
  // Texts

  /** `formatTimer`: `H:MM:SS` from one hour on, `M:SS` below an hour. */
  function FormatTimer(seconds: nat): (r: string)
    ensures |r| >= (if seconds >= 3600 then 7 else 4)
    ensures r[|r| - 3] == ':'
  {
    var f := SplitSeconds(seconds);
    TwoDigitField(f.seconds);
    if f.hours > 0 then NatToString(f.hours) + ":" + Pad2(f.minutes) + ":" + Pad2(f.seconds)
    else NatToString(f.minutes) + ":" + Pad2(f.seconds)
  }

  /** The text of `formatTimer` has an hours field exactly when at least an hour is left;
      every field is a non-empty run of digits, the seconds always take two of them and,
      when there are hours, so do the minutes. */
  lemma FormatTimerShape(seconds: nat)
    ensures |Split(FormatTimer(seconds), ':')| == (if seconds >= 3600 then 3 else 2)
    ensures var p := Split(FormatTimer(seconds), ':');
            (forall k :: 0 <= k < |p| ==> |p[k]| > 0 && AllDigits(p[k]))
            && |p[|p| - 1]| == 2 && (seconds >= 3600 ==> |p[1]| == 2)
  {
    var f := SplitSeconds(seconds);
    TwoDigitField(f.minutes);
    TwoDigitField(f.seconds);
    DigitsHaveNoColon(Pad2(f.seconds));
    DigitsHaveNoColon(Pad2(f.minutes));
    SplitNoSep(Pad2(f.seconds), ':');
    if f.hours > 0 {
      var a, b, c := NatToString(f.hours), Pad2(f.minutes), Pad2(f.seconds);
      DigitsHaveNoColon(a);
      assert a + ":" + b + ":" + c == a + [':'] + (b + [':'] + c);
      SplitAt(a, ':', b + [':'] + c);
      SplitAt(b, ':', c);
    } else {
      var a, c := NatToString(f.minutes), Pad2(f.seconds);
      DigitsHaveNoColon(a);
      assert a + ":" + c == a + [':'] + c;
      SplitAt(a, ':', c);
    }
  }

  /** The fields of `formatTimer`'s text are the split of the seconds: hours, minutes and
      seconds from an hour on, minutes and seconds below; so minutes and seconds read
      below 60. */
  lemma FormatTimerFields(seconds: nat)
    ensures var p := Split(FormatTimer(seconds), ':'); var f := SplitSeconds(seconds);
            if seconds >= 3600 then
              |p| == 3 && ParseNat(p[0]) == Some(f.hours) && ParseNat(p[1]) == Some(f.minutes)
              && ParseNat(p[2]) == Some(f.seconds)
            else
              |p| == 2 && ParseNat(p[0]) == Some(f.minutes) && ParseNat(p[1]) == Some(f.seconds)
  {
    var f := SplitSeconds(seconds);
    ReadPrinted(f.minutes);
    ReadPrinted(f.seconds);
    if f.hours > 0 {
      ReadPrinted(f.hours);
      SplitThree(NatToString(f.hours), Pad2(f.minutes), Pad2(f.seconds));
    } else {
      SplitTwo(NatToString(f.minutes), Pad2(f.seconds));
    }
  }

  /** Reading the text of `formatTimer` back gives the number of seconds it was made from. */
  lemma FormatTimerRoundTrip(seconds: nat)
    ensures ParseClock(FormatTimer(seconds)) == Some(seconds)
  {
    var f := SplitSeconds(seconds);
    var mm, ss := Pad2(f.minutes), Pad2(f.seconds);
    ReadPrinted(f.minutes);
    ReadPrinted(f.seconds);
    if f.hours > 0 {
      var hh := NatToString(f.hours);
      ReadPrinted(f.hours);
      assert FormatTimer(seconds) == hh + ":" + mm + ":" + ss;
      ReadClock3(hh, mm, ss, f.hours, f.minutes, f.seconds);
    } else {
      var m := NatToString(f.minutes);
      assert FormatTimer(seconds) == m + ":" + ss;
      ReadClock2(m, ss, f.minutes, f.seconds);
    }
  }

  /** Distinct remaining times are shown as distinct texts. */
  lemma FormatTimerInjective(a: nat, b: nat)
    requires FormatTimer(a) == FormatTimer(b)
    ensures a == b
  {
    FormatTimerRoundTrip(a);
    FormatTimerRoundTrip(b);
  }

  /** `HH:MM:SS`, each field padded to two digits: eight characters below a hundred hours. */
  function ClockText(h: nat, m: nat, s: nat): (r: string)
    requires m < 60 && s < 60
    ensures |r| >= 8 && r[|r| - 3] == ':' && r[|r| - 6] == ':'
    ensures h < 100 ==> |r| == 8
  {
    TwoDigitField(h);
    TwoDigitField(m);
    TwoDigitField(s);
    Pad2(h) + ":" + Pad2(m) + ":" + Pad2(s)
  }

  /** The three fields of `HH:MM:SS` read as the hours, minutes and seconds it was made from. */
  lemma ClockTextFields(h: nat, m: nat, s: nat)
    requires m < 60 && s < 60
    ensures var p := Split(ClockText(h, m, s), ':');
            |p| == 3 && ParseNat(p[0]) == Some(h) && ParseNat(p[1]) == Some(m) && ParseNat(p[2]) == Some(s)
  {
    ReadPrinted(h);
    ReadPrinted(m);
    ReadPrinted(s);
    SplitThree(Pad2(h), Pad2(m), Pad2(s));
  }

  /** The countdown timer's display. */
  function TimerText(time: nat): (r: string)
    ensures |r| >= 8 && r[|r| - 3] == ':' && r[|r| - 6] == ':'
    ensures time < 360000 ==> |r| == 8
  {
    var f := SplitSeconds(time);
    ClockText(f.hours, f.minutes, f.seconds)
  }

  /** The countdown display's fields are the split of its time. */
  lemma TimerTextFields(time: nat)
    ensures var p := Split(TimerText(time), ':'); var f := SplitSeconds(time);
            |p| == 3 && ParseNat(p[0]) == Some(f.hours) && ParseNat(p[1]) == Some(f.minutes)
            && ParseNat(p[2]) == Some(f.seconds)
  {
    var f := SplitSeconds(time);
    ClockTextFields(f.hours, f.minutes, f.seconds);
  }

  lemma TimerTextRoundTrip(time: nat)
    ensures ParseClock(TimerText(time)) == Some(time)
  {
    var f := SplitSeconds(time);
    ReadPrinted(f.hours);
    ReadPrinted(f.minutes);
    ReadPrinted(f.seconds);
    ReadClock3(Pad2(f.hours), Pad2(f.minutes), Pad2(f.seconds), f.hours, f.minutes, f.seconds);
  }

  /** The stopwatch's two displays: `HH:MM:SS` and the milliseconds padded to three digits. */
  datatype StopwatchText = StopwatchText(clock: string, millis: string)

  function StopwatchDisplay(totalMs: nat): (r: StopwatchText)
    ensures |r.millis| == 3
    ensures |r.clock| >= 8 && r.clock[|r.clock| - 3] == ':' && r.clock[|r.clock| - 6] == ':'
    ensures totalMs < 360000000 ==> |r.clock| == 8
  {
    var f := SplitMillis(totalMs);
    ShortNumber(f.millis);
    StopwatchText(ClockText(f.hours, f.minutes, f.seconds), Pad3(f.millis))
  }

  /** The stopwatch's clock fields are the hours, minutes and seconds of the split of the
      elapsed milliseconds, and the millisecond text reads as the milliseconds left over. */
  lemma StopwatchDisplayFields(totalMs: nat)
    ensures var t := StopwatchDisplay(totalMs); var f := SplitMillis(totalMs);
            var p := Split(t.clock, ':');
            |p| == 3 && ParseNat(p[0]) == Some(f.hours) && ParseNat(p[1]) == Some(f.minutes)
            && ParseNat(p[2]) == Some(f.seconds) && ParseNat(t.millis) == Some(f.millis)
  {
    var f := SplitMillis(totalMs);
    ClockTextFields(f.hours, f.minutes, f.seconds);
    ReadPrinted(f.millis);
  }

  /** The stopwatch's texts read back give whole seconds and leftover milliseconds
      that add up to the elapsed time. */
  lemma StopwatchDisplayRoundTrip(totalMs: nat)
    ensures var t := StopwatchDisplay(totalMs);
            ParseClock(t.clock).Some? && ParseNat(t.millis).Some?
            && ParseClock(t.clock).value * 1000 + ParseNat(t.millis).value == totalMs
            && |t.millis| == 3
  {
    var f := SplitMillis(totalMs);
    ReadPrinted(f.hours);
    ReadPrinted(f.minutes);
    ReadPrinted(f.seconds);
    ReadPrinted(f.millis);
    ReadClock3(Pad2(f.hours), Pad2(f.minutes), Pad2(f.seconds), f.hours, f.minutes, f.seconds);
    SplitMillisAgrees(totalMs);
    ShortNumber(f.millis);
  }

  /** The Pomodoro display: `MM:SS`, the minutes unbounded. */
  function PomodoroText(time: nat): (r: string)
    ensures |r| >= 5 && r[|r| - 3] == ':'
    ensures time < 6000 ==> |r| == 5
  {
    TwoDigitField(time % 60);
    TwoDigitField(time / 60);
    Pad2(time / 60) + ":" + Pad2(time % 60)
  }

  /** The Pomodoro display's fields are the whole minutes and the seconds within the minute. */
  lemma PomodoroTextFields(time: nat)
    ensures var p := Split(PomodoroText(time), ':');
            |p| == 2 && ParseNat(p[0]) == Some(time / 60) && ParseNat(p[1]) == Some(time % 60)
            && time % 60 < 60
  {
    ReadPrinted(time / 60);
    ReadPrinted(time % 60);
    SplitTwo(Pad2(time / 60), Pad2(time % 60));
  }

  lemma PomodoroTextRoundTrip(time: nat)
    ensures ParseClock(PomodoroText(time)) == Some(time)
  {
    ReadPrinted(time / 60);
    ReadPrinted(time % 60);
    ReadClock2(Pad2(time / 60), Pad2(time % 60), time / 60, time % 60);
  }
}

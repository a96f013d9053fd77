/** The timer's expected behaviour, event by event, from mounting through
    `start`, the interval callbacks, `reset` and a second `start`. */
module TimerScenarios {
  import opened ElapsedTimer
  import opened TimerMachine
  import opened TimerExamples

  /** A live timer ticked d milliseconds after `start` shows any text that
      d milliseconds format to. */
  lemma ShowsAfter(s: TimerState, t0: nat, d: nat, text: string)
    requires Format(d) == text
    ensures Tick(Start(s, t0), t0 + d).timerText == text
  {
  }

  /** Mounted at m and started at t0, the timer shows the start text until
      the first callback, and one second later shows one second. */
  lemma FirstCallback(m: nat, t0: nat)
    ensures Mount(m).timerText == START_TEXT
    ensures Start(Mount(m), t0).timerText == START_TEXT
    ensures Tick(Start(Mount(m), t0), t0 + 1000).timerText == "00:00:01"
  {
    FormatOneSecond();
    ShowsAfter(Mount(m), t0, 1000, "00:00:01");
  }

  /** The callbacks at one second, one minute, one hour and later show
      seconds rolling into minutes, minutes into hours, and the hours field
      growing past two digits instead of wrapping. */
  lemma LaterCallbacks(m: nat, t0: nat)
    ensures var s := Start(Mount(m), t0);
      && Tick(s, t0 + 60000).timerText == "00:01:00"
      && Tick(s, t0 + 3600000).timerText == "01:00:00"
      && Tick(s, t0 + 3661000).timerText == "01:01:01"
      && Tick(s, t0 + 39661000).timerText == "11:01:01"
      && Tick(s, t0 + 399661000).timerText == "111:01:01"
  {
    var s := Mount(m);
    FormatOneMinute();
    ShowsAfter(s, t0, 60000, "00:01:00");
    FormatOneHour();
    ShowsAfter(s, t0, 3600000, "01:00:00");
    FormatOneHourOneMinuteOneSecond();
    ShowsAfter(s, t0, 3661000, "01:01:01");
    FormatElevenHours();
    ShowsAfter(s, t0, 39661000, "11:01:01");
    FormatHundredElevenHours();
    ShowsAfter(s, t0, 399661000, "111:01:01");
  }

  /** Ten seconds after `start` the start text is gone; `reset` brings it
      back and it stays through later callbacks; ten seconds after a second
      `start` it is gone again. */
  lemma ResetAndRestart(m: nat, t0: nat, t1: nat, t2: nat)
    requires m <= t0 && t0 + 10000 <= t1 <= t2
    ensures var s1 := Tick(Start(Mount(m), t0), t0 + 10000);
      var s2 := Reset(s1);
      var s3 := Tick(s2, t1);
      var s4 := Tick(Start(s3, t2), t2 + 10000);
      && s1.timerText != START_TEXT
      && s2.timerText == START_TEXT
      && s3.timerText == START_TEXT
      && s4.timerText != START_TEXT
  {
    FormatTenSeconds();
    ShowsAfter(Mount(m), t0, 10000, "00:00:10");
  }
}

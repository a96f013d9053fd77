/** The state of the breathing-animation timer component: when the current
    run started, the text on show, and whether the run is live. `start` and
    `reset` are the two imperative handles; the periodic interval callback
    is a tick. Every event carries the wall-clock reading (milliseconds) at
    which it happens, in place of `Date.now()`. */
module TimerMachine {
  import opened Wrappers
  import opened ElapsedTimer

  datatype TimerState = TimerState(timerStart: nat, timerText: string, active: bool)

  /** The state right after mounting at time `now`: idle, showing the start
      text, with the start time initialised to the mount time. */
  function Mount(now: nat): (s: TimerState)
    ensures !s.active && s.timerText == START_TEXT
    ensures s.timerStart == now
  {
    TimerState(now, START_TEXT, false)
  }

  /** `start`: record the current time and go live; the text is left for
      the next tick to replace. */
  function Start(s: TimerState, now: nat): (r: TimerState)
    ensures r.active && r.timerStart == now
    ensures r.timerText == s.timerText
  {
    s.(timerStart := now, active := true)
  }

  /** `reset`: go idle and put the start text back; the start time is kept
      until the next `start`. */
  function Reset(s: TimerState): (r: TimerState)
    ensures !r.active && r.timerText == START_TEXT
    ensures r.timerStart == s.timerStart
  {
    s.(active := false, timerText := START_TEXT)
  }

  /** The interval callback at time `now`: while live, show the time elapsed
      since the start; while idle, do nothing at all. */
  function Tick(s: TimerState, now: nat): (r: TimerState)
    requires s.active ==> s.timerStart <= now
    ensures !s.active ==> r == s
    ensures s.active ==> r.timerText == Format(now - s.timerStart)
    ensures r.active == s.active && r.timerStart == s.timerStart
  {
    if s.active then s.(timerText := Format(now - s.timerStart)) else s
  }

  /** Something that happens to the component, with the time it happens. */
  datatype TimerEvent = OnStart(now: nat) | OnReset(now: nat) | OnTick(now: nat)

  /** Events whose times never go backwards, starting no earlier than `from`. */
  predicate Chronological(from: nat, evs: seq<TimerEvent>)
    decreases |evs|
  {
    evs == [] || (from <= evs[0].now && Chronological(evs[0].now, evs[1..]))
  }

  function Step(s: TimerState, e: TimerEvent): (r: TimerState)
    requires s.timerStart <= e.now
    ensures r.timerStart <= e.now
  {
    match e
    case OnStart(now) => Start(s, now)
    case OnReset(_) => Reset(s)
    case OnTick(now) => Tick(s, now)
  }

  /** Feed a chronological sequence of events to the component. */
  function Run(s: TimerState, clock: nat, evs: seq<TimerEvent>): (r: TimerState)
    requires s.timerStart <= clock && Chronological(clock, evs)
    ensures evs != [] ==> r.timerStart <= evs[|evs| - 1].now
    decreases |evs|
  {
    if evs == [] then s else Run(Step(s, evs[0]), evs[0].now, evs[1..])
  }

  /** The display shows the formatting of some elapsed time. */
  ghost predicate ShowsElapsed(s: TimerState) {
    exists d: nat :: s.timerText == Format(d)
  }

  /** The start text is the display of no elapsed time. */
  lemma StartTextShowsElapsed(s: TimerState)
    requires s.timerText == START_TEXT
    ensures ShowsElapsed(s)
  {
    FormatZero();
    assert s.timerText == Format(0);
  }

  /** `start` leaves the display as it was. */
  lemma StartKeepsElapsed(s: TimerState, now: nat)
    requires ShowsElapsed(s)
    ensures ShowsElapsed(Start(s, now))
  {
    var d: nat :| s.timerText == Format(d);
    assert Start(s, now).timerText == Format(d);
  }

  /** A tick either leaves the display alone or shows the elapsed time. */
  lemma TickKeepsElapsed(s: TimerState, now: nat)
    requires s.timerStart <= now && ShowsElapsed(s)
    ensures ShowsElapsed(Tick(s, now))
  {
    if s.active {
      assert Tick(s, now).timerText == Format(now - s.timerStart);
    }
  }

  /** Every event keeps the display a formatted elapsed time. */
  lemma StepShowsElapsed(s: TimerState, e: TimerEvent)
    requires s.timerStart <= e.now && ShowsElapsed(s)
    ensures ShowsElapsed(Step(s, e))
  {
    match e
    case OnStart(now) => StartKeepsElapsed(s, now);
    case OnReset(_) => StartTextShowsElapsed(Reset(s));
    case OnTick(now) => TickKeepsElapsed(s, now);
  }

  /** From mounting onwards, whatever happens, the display is always some
      elapsed time in `HH:MM:SS` form, and reading it back gives the clock
      it was made from. */
  lemma {:induction false} RunShowsElapsed(s: TimerState, clock: nat, evs: seq<TimerEvent>)
    requires s.timerStart <= clock && Chronological(clock, evs) && ShowsElapsed(s)
    ensures ShowsElapsed(Run(s, clock, evs))
    ensures Parse(Run(s, clock, evs).timerText).Some?
    decreases |evs|
  {
    if evs != [] {
      StepShowsElapsed(s, evs[0]);
      RunShowsElapsed(Step(s, evs[0]), evs[0].now, evs[1..]);
    } else {
      var d: nat :| s.timerText == Format(d);
    }
  }

  /** A freshly mounted timer shows a formatted elapsed time. */
  lemma MountShowsElapsed(now: nat)
    ensures ShowsElapsed(Mount(now))
  {
    StartTextShowsElapsed(Mount(now));
  }

  /** Only the latest tick matters: a timer ticked twice shows what a
      single tick at the later time shows. */
  lemma LatestTickWins(s: TimerState, t1: nat, t2: nat)
    requires s.active ==> s.timerStart <= t1 <= t2
    ensures Tick(Tick(s, t1), t2) == Tick(s, t2)
  {
    var r1 := Tick(s, t1);
    var r2 := Tick(r1, t2);
    var r := Tick(s, t2);
    assert r2.timerText == r.timerText;
  }

  /** Repeating a tick at the same time changes nothing. */
  lemma TickIdempotent(s: TimerState, t: nat)
    requires s.active ==> s.timerStart <= t
    ensures Tick(Tick(s, t), t) == Tick(s, t)
  {
    LatestTickWins(s, t, t);
  }

  /** A live timer ticked `d` milliseconds after its start shows exactly the
      clock of `d` milliseconds. */
  lemma TickShowsElapsed(s: TimerState, t0: nat, d: nat)
    ensures Parse(Tick(Start(s, t0), t0 + d).timerText) == Some(Split(d))
  {
    var r := Start(s, t0);
    assert Tick(r, t0 + d).timerText == Format(d);
  }

  /** The k-th interval callback after `start` lands exactly k periods later,
      so it shows k whole seconds as hours, minutes and seconds. */
  lemma KthTickShows(s: TimerState, t0: nat, k: nat)
    ensures Tick(Start(s, t0), t0 + k * TICK_PERIOD).timerText
            == Render(Clock(k / 3600, k / 60 % 60, k % 60))
  {
    var c := Clock(k / 3600, k / 60 % 60, k % 60);
    assert k / 60 == k / 3600 * 60 + k / 60 % 60;
    SplitUnique(k * TICK_PERIOD, c);
  }

  /** Ticks alone never move an idle timer: after `reset`, or before the
      first `start`, the display stays as it is however much time passes. */
  lemma {:induction false} IdleTicksChangeNothing(s: TimerState, clock: nat, evs: seq<TimerEvent>)
    requires !s.active && s.timerStart <= clock && Chronological(clock, evs)
    requires forall i :: 0 <= i < |evs| ==> evs[i].OnTick?
    ensures Run(s, clock, evs) == s
    decreases |evs|
  {
    if evs != [] {
      IdleTicksChangeNothing(s, evs[0].now, evs[1..]);
    }
  }

  /** After a reset, ticks keep showing the start text until the next
      `start`. */
  lemma ResetHoldsStartText(s: TimerState, clock: nat, evs: seq<TimerEvent>)
    requires s.timerStart <= clock && Chronological(clock, evs)
    requires forall i :: 0 <= i < |evs| ==> evs[i].OnTick?
    ensures Run(Reset(s), clock, evs).timerText == START_TEXT
  {
    IdleTicksChangeNothing(Reset(s), clock, evs);
  }
}

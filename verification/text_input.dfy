/** The debounced text setting (`SettingTextInput.tsx`): every change
    cancels the submission still waiting, and a non-empty value is handed
    to the setting's handler `SUBMIT_DELAY` milliseconds later, provided
    the optional validator accepts it. Time is an explicit millisecond
    reading carried by each event, and each event first lets a submission
    that has fallen due fire; the calls made to the handler are recorded,
    in order, in `submitted`. */
module TextInput {
  import opened Wrappers

  /** Milliseconds between the last change and its submission. */
  const SUBMIT_DELAY: nat := 1000

  /** A submission waiting for its timer: the value and when it fires. */
  datatype Pending = Pending(value: string, fireAt: nat)

  datatype InputState = InputState(pending: Option<Pending>, submitted: seq<string>)

  /** Nothing waiting and nothing handed over yet. */
  const Initial: InputState := InputState(None, [])

  /** The validator actually applied: the one supplied, or one that accepts
      everything when none is. */
  function Accepts(validate: Option<string -> bool>, value: string): (ok: bool)
    ensures validate.None? ==> ok
    ensures validate.Some? ==> (ok <==> validate.value(value))
  {
    match validate
    case None => true
    case Some(f) => f(value)
  }

  /** The input's change handler at time `now`: cancel whatever is waiting,
      then, unless the new value is empty, schedule it to fire after
      SUBMIT_DELAY. Nothing is handed over here. */
  function Change(s: InputState, value: string, now: nat): (r: InputState)
    ensures r.submitted == s.submitted
    ensures r.pending.Some? <==> value != []
    ensures r.pending.Some? ==> r.pending.value == Pending(value, now + SUBMIT_DELAY)
  {
    if value != [] then
      InputState(Some(Pending(value, now + SUBMIT_DELAY)), s.submitted)
    else
      InputState(None, s.submitted)
  }

  /** Time reaches `now`: a waiting submission whose time has come fires,
      handing its value to the handler if the validator accepts it; before
      its time, or with nothing waiting, nothing happens. */
  function Elapse(s: InputState, now: nat, validate: Option<string -> bool>): (r: InputState)
    ensures s.pending.None? || now < s.pending.value.fireAt ==> r == s
    ensures s.pending.Some? && s.pending.value.fireAt <= now ==>
      && r.pending.None?
      && r.submitted == s.submitted
         + (if Accepts(validate, s.pending.value.value) then [s.pending.value.value] else [])
  {
    match s.pending
    case None => s
    case Some(p) =>
      if p.fireAt <= now then
        InputState(None, s.submitted + (if Accepts(validate, p.value) then [p.value] else []))
      else
        s
  }

  /** Something that happens to the input: a change of its value, or the
      clock reaching `now` (which lets a due timeout callback run). */
  datatype InputEvent = Changed(value: string, now: nat) | Elapsed(now: nat)

  /** One event at its time. A submission that fell due by then has already
      fired (its timer is not held back by later input), so a change first
      lets it fire and only then cancels what is still waiting. */
  function Step(s: InputState, e: InputEvent, validate: Option<string -> bool>): (r: InputState)
    ensures |s.submitted| <= |r.submitted| <= |s.submitted| + 1
    ensures r.submitted[..|s.submitted|] == s.submitted
  {
    match e
    case Changed(v, now) => Change(Elapse(s, now, validate), v, now)
    case Elapsed(now) => Elapse(s, now, validate)
  }

  /** Feed a sequence of events to the input. */
  function Run(s: InputState, evs: seq<InputEvent>, validate: Option<string -> bool>): (r: InputState)
    ensures |s.submitted| <= |r.submitted| <= |s.submitted| + |evs|
    ensures r.submitted[..|s.submitted|] == s.submitted
    decreases |evs|
  {
    if evs == [] then s else Run(Step(s, evs[0], validate), evs[1..], validate)
  }

  /** Everything handed over or waiting is non-empty, and everything handed
      over passed the validator. */
  predicate Sound(s: InputState, validate: Option<string -> bool>) {
    && (forall i :: 0 <= i < |s.submitted| ==> s.submitted[i] != [] && Accepts(validate, s.submitted[i]))
    && (s.pending.Some? ==> s.pending.value.value != [])
  }

  lemma StepSound(s: InputState, e: InputEvent, validate: Option<string -> bool>)
    requires Sound(s, validate)
    ensures Sound(Step(s, e, validate), validate)
  {
  }

  /** Whatever the events, the handler is never given an empty value or
      one the validator rejects. */
  lemma {:induction false} RunSound(s: InputState, evs: seq<InputEvent>, validate: Option<string -> bool>)
    requires Sound(s, validate)
    ensures Sound(Run(s, evs, validate), validate)
    decreases |evs|
  {
    if evs != [] {
      StepSound(s, evs[0], validate);
      RunSound(Step(s, evs[0], validate), evs[1..], validate);
    }
  }

  /** A change cancels whatever was waiting: what waits afterwards depends
      only on the new value and the time of the change. */
  lemma ChangeCancels(s1: InputState, s2: InputState, value: string, now: nat)
    ensures Change(s1, value, now).pending == Change(s2, value, now).pending
  {
  }

  /** A non-empty value is handed over, unchanged and exactly once, when
      SUBMIT_DELAY has passed since the change, if the validator accepts it;
      with no validator it always is. */
  lemma SubmitsAfterDelay(s: InputState, value: string, now: nat, later: nat,
                          validate: Option<string -> bool>)
    requires value != [] && now + SUBMIT_DELAY <= later
    ensures Elapse(Change(s, value, now), later, validate).submitted
            == s.submitted + (if Accepts(validate, value) then [value] else [])
    ensures Elapse(Change(s, value, now), later, None).submitted == s.submitted + [value]
  {
  }

  /** Before SUBMIT_DELAY has passed, the change is still waiting and
      nothing has been handed over. */
  lemma NothingBeforeDelay(s: InputState, value: string, now: nat, earlier: nat,
                           validate: Option<string -> bool>)
    requires earlier < now + SUBMIT_DELAY
    ensures Elapse(Change(s, value, now), earlier, validate) == Change(s, value, now)
  {
  }

  /** Changing to the empty value hands nothing over, however long one
      waits, and discards a value that was still waiting. */
  lemma {:induction false} EmptyChangeSubmitsNothing(s: InputState, now: nat, evs: seq<InputEvent>,
                                                     validate: Option<string -> bool>)
    requires forall i :: 0 <= i < |evs| ==> evs[i].Elapsed?
    ensures Change(s, [], now).pending.None?
    ensures Run(Change(s, [], now), evs, validate) == Change(s, [], now)
    decreases |evs|
  {
    if evs != [] {
      EmptyChangeSubmitsNothing(s, now, evs[1..], validate);
    }
  }

  /** A change made once the waiting value is due does not lose it: the
      value is handed over (if accepted) before the change cancels anything. */
  lemma DueFiresBeforeChange(s: InputState, value: string, now: nat,
                             validate: Option<string -> bool>)
    requires s.pending.Some? && s.pending.value.fireAt <= now
    ensures Step(s, Changed(value, now), validate).submitted
            == s.submitted + (if Accepts(validate, s.pending.value.value) then [s.pending.value.value] else [])
  {
  }

  /** A burst: changes only, in time order, each less than SUBMIT_DELAY
      after the one before, so nothing typed inside it falls due inside it. */
  predicate Burst(evs: seq<InputEvent>) {
    && evs != []
    && (forall i :: 0 <= i < |evs| ==> evs[i].Changed?)
    && (forall i :: 1 <= i < |evs| ==> evs[i - 1].now <= evs[i].now < evs[i - 1].now + SUBMIT_DELAY)
  }

  /** After a burst only the last value is waiting: the state is as if the
      clock had reached the first change and only the last change had been
      made. */
  lemma {:induction false} BurstKeepsLast(s: InputState, evs: seq<InputEvent>,
                                          validate: Option<string -> bool>)
    requires Burst(evs)
    ensures Run(s, evs, validate)
            == Change(Elapse(s, evs[0].now, validate), evs[|evs| - 1].value, evs[|evs| - 1].now)
    decreases |evs|
  {
    if |evs| > 1 {
      var s1 := Step(s, evs[0], validate);
      var rest := evs[1..];
      assert Burst(rest) by {
        forall i | 1 <= i < |rest|
          ensures rest[i - 1].now <= rest[i].now < rest[i - 1].now + SUBMIT_DELAY
        {
          assert rest[i - 1] == evs[i] && rest[i] == evs[i + 1];
        }
      }
      BurstKeepsLast(s1, rest, validate);
      assert Elapse(s1, rest[0].now, validate) == s1;
    }
  }

  /** A burst followed by waiting until `later` hands over, besides what
      was already due when the burst began, at most the last value typed:
      exactly when it is non-empty, SUBMIT_DELAY has passed since it was
      typed, and the validator accepts it. */
  lemma BurstSubmitsOnlyLast(s: InputState, evs: seq<InputEvent>, later: nat,
                             validate: Option<string -> bool>)
    requires Burst(evs)
    ensures var last := evs[|evs| - 1];
      Elapse(Run(s, evs, validate), later, validate).submitted
      == Elapse(s, evs[0].now, validate).submitted
         + (if last.value != [] && last.now + SUBMIT_DELAY <= later && Accepts(validate, last.value)
            then [last.value] else [])
  {
    BurstKeepsLast(s, evs, validate);
  }

  /** Two changes five seconds apart, then the clock reaching six seconds:
      both values reach the handler, in order. */
  lemma SpacedChangesBothSubmitted()
    ensures Run(Initial, [Changed("5", 0), Changed("7", 5000), Elapsed(6000)], None).submitted
            == ["5", "7"]
  {
  }

  /** One thousand copies of "a", typed at once and left for the delay with
      no validator, reach the handler exactly once and unchanged. */
  lemma LongValueSubmittedWhole(now: nat)
    ensures var long := seq(1000, _ => 'a');
      Run(Initial, [Changed(long, now), Elapsed(now + SUBMIT_DELAY)], None).submitted == [long]
  {
    var long := seq(1000, _ => 'a');
    assert long[0] == 'a';
    SubmitsAfterDelay(Initial, long, now, now + SUBMIT_DELAY, None);
  }
}

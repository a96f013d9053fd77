# Box breathing: timer display, phase labels and debounced settings

A Dafny model of the logic inside the box-breathing web app's components.

- **The elapsed-time display.** `BreathingAnimationTimer.tsx` turns the milliseconds since `start` into an `HH:MM:SS` text. This uses JavaScript's `${n}` and `padStart(2, "0")`.
- **The timer's state.** The component keeps three fields: `timerStart`, `timerText` and `active`. They are driven by `start`, `reset` and a one-second interval callback.
- **The phase type.** `BreathingAnimation.types.ts` defines the five-valued `Phase`, the start value and the cycle length.
- **The phase labels.** `BreathingAnimationText.tsx` chooses the `active`, `after` or `before` subclass for a label.
- **The debounced text setting.** In `SettingTextInput.tsx`, every change cancels the pending submission. A non-empty value is handed to the handler one second later if the optional validator accepts it.

Time, which the source reads with `Date.now()` and timers, is explicit here: every event carries its millisecond timestamp. The handler calls are recorded as a sequence of submitted values. Every text-input event first lets a submission that has fallen due by its time fire, as the source's timer would have done already.

Modules, one per file:

| file | module | what it holds |
|---|---|---|
| `wrappers.dfy` | `Wrappers` | `Option` |
| `phases.dfy` | `Phases` | `Phase`, `START_PHASE`, `NUM_PHASES`, the cyclic successor |
| `jstext.dfy` | `JsText` | `${n}` for naturals (`Decimal`), `padStart` (`PadStart`), digit strings and their values |
| `elapsed_timer.dfy` | `ElapsedTimer` | the time constants, `Split` (hours, minutes, seconds), `Format` (the display), and `Parse` (reading a display back) |
| `timer_examples.dfy` | `TimerExamples` | the concrete displays |
| `timer_machine.dfy` | `TimerMachine` | the timer state and its events |
| `timer_scenarios.dfy` | `TimerScenarios` | event-by-event runs of the timer |
| `phase_text.dfy` | `PhaseText` | JavaScript `%` (`JsRemainder`), `Classify`, the class name |
| `text_input.dfy` | `TextInput` | the debounced submission |

## Model

Source paths are relative to the repository root.

| member | source | states |
|---|---|---|
| Phases.AllPhases | src/components/BreathingAnimation/BreathingAnimation.types.ts:10 | `Phase` holds exactly the integers −1 to 3. |
| Phases.CyclePhases | src/components/BreathingAnimation/BreathingAnimation.types.ts:10-12 | The cycle values are exactly 0 ≤ p < `NUM_PHASES`. |
| Phases.PhaseCensus | src/components/BreathingAnimation/BreathingAnimation.types.ts:10-12 | There are five phase values. `START_PHASE` is the only one outside the cycle. The cycle has `NUM_PHASES` = 4 values. |
| Phases.Successor | src/components/BreathingAnimation/BreathingAnimationText/BreathingAnimationText.tsx:32 | `(p + 1) % NUM_PHASES` of a cycle phase is a cycle phase, never the start value. It is p + 1 below the last phase and wraps 3 to 0. |
| Phases.SuccessorPermutesCycle | src/components/BreathingAnimation/BreathingAnimationText/BreathingAnimationText.tsx:32 | The successor is injective on the cycle and has no fixed point. |
| Phases.SuccessorOrbit | src/components/BreathingAnimation/BreathingAnimation.types.ts:10-12 | Four successive steps from any cycle phase visit all four cycle phases and return to the start. |
| JsText.Decimal | src/components/BreathingAnimation/BreathingAnimationTimer/BreathingAnimationTimer.tsx:57 | `${n}` is a non-empty digit string with no leading zero. It is one character exactly when n < 10. |
| JsText.DecimalRoundTrip | src/components/BreathingAnimation/BreathingAnimationTimer/BreathingAnimationTimer.tsx:57 | Reading `${n}` back as decimal digits gives n. |
| JsText.PadStart | src/components/BreathingAnimation/BreathingAnimationTimer/BreathingAnimationTimer.tsx:57 | `padStart` has length max(\|s\|, width). |
| JsText.PadStartShape | src/components/BreathingAnimation/BreathingAnimationTimer/BreathingAnimationTimer.tsx:57 | The padded text ends with s unchanged, and only fill characters come before it. |
| JsText.ZeroPadValue | src/components/BreathingAnimation/BreathingAnimationTimer/BreathingAnimationTimer.tsx:57 | Zero padding keeps a digit string all digits and does not change the number it denotes. |
| ElapsedTimer.StagedDivision | src/components/BreathingAnimation/BreathingAnimationTimer/BreathingAnimationTimer.tsx:57 | Flooring d / `MS_IN_MIN` or d / `MS_IN_HR` equals flooring whole seconds by 60 or 3600. |
| ElapsedTimer.Split | src/components/BreathingAnimation/BreathingAnimationTimer/BreathingAnimationTimer.tsx:57 | The three numbers in the display have minutes and seconds below 60. h·3600 + m·60 + s equals the whole seconds d / 1000. |
| ElapsedTimer.SplitUnique | src/components/BreathingAnimation/BreathingAnimationTimer/BreathingAnimationTimer.tsx:57 | Any hours/minutes/seconds with minutes and seconds below 60 that account for d / 1000 seconds equal `Split(d)`. |
| ElapsedTimer.Field | src/components/BreathingAnimation/BreathingAnimationTimer/BreathingAnimationTimer.tsx:57 | A padded field has at least two digits, and exactly two below 100. |
| ElapsedTimer.FieldValue | src/components/BreathingAnimation/BreathingAnimationTimer/BreathingAnimationTimer.tsx:57 | A padded field denotes the number it was made from. |
| ElapsedTimer.JoinFields | src/components/BreathingAnimation/BreathingAnimationTimer/BreathingAnimationTimer.tsx:57 | Joining three digit fields with colons gives a text that splits back into those fields. The last two fields are two characters each. |
| ElapsedTimer.FieldTwoDigits | src/components/BreathingAnimation/BreathingAnimationTimer/BreathingAnimationTimer.tsx:57 | A field below 100 is its tens digit followed by its units digit. |
| ElapsedTimer.Render | src/components/BreathingAnimation/BreathingAnimationTimer/BreathingAnimationTimer.tsx:57 | The colon-joined fields are at least eight characters. For minutes and seconds below 60, parsing the text gives the clock back. |
| ElapsedTimer.Format | src/components/BreathingAnimation/BreathingAnimationTimer/BreathingAnimationTimer.tsx:57 | The display of d elapsed milliseconds parses back to `Split(d)`: hours d / 3600000, minutes and seconds the whole minutes and seconds mod 60. |
| ElapsedTimer.FormatZero | src/components/BreathingAnimation/BreathingAnimationTimer/BreathingAnimationTimer.tsx:25 | The display of 0 ms is the start text `00:00:00`. |
| ElapsedTimer.FormatShowsSplit | src/components/BreathingAnimation/BreathingAnimationTimer/BreathingAnimationTimer.tsx:57 | The display's three fields denote the hours, minutes and seconds of `Split(d)`. |
| ElapsedTimer.FormatFields | src/components/BreathingAnimation/BreathingAnimationTimer/BreathingAnimationTimer.tsx:57 | Minutes and seconds are two characters each and below 60. Hours denote d / 3600000 unwrapped. The three reconstruct d / 1000 seconds. |
| ElapsedTimer.FormatOfClock | src/components/BreathingAnimation/BreathingAnimationTimer/BreathingAnimationTimer.tsx:57 | Displaying the milliseconds of a normal clock shows exactly that clock. |
| ElapsedTimer.FormatDistinguishesSeconds | src/components/BreathingAnimation/BreathingAnimationTimer/BreathingAnimationTimer.tsx:57 | Two elapsed times show the same text if and only if they have the same whole seconds. |
| TimerExamples.FieldThreeDigits | src/components/BreathingAnimation/BreathingAnimationTimer/BreathingAnimationTimer.tsx:57 | A field from 100 to 999 is its three decimal digits, unpadded. |
| TimerExamples.FormatOneSecond | src/components/BreathingAnimation/BreathingAnimationTimer/BreathingAnimationTimer.test.tsx:80-83 | 1000 ms shows `00:00:01`. |
| TimerExamples.FormatTenSeconds | src/components/BreathingAnimation/BreathingAnimationTimer/BreathingAnimationTimer.test.tsx:123-126 | 10000 ms shows `00:00:10`. |
| TimerExamples.FormatOneMinute | src/components/BreathingAnimation/BreathingAnimationTimer/BreathingAnimationTimer.test.tsx:85-88 | 60000 ms shows `00:01:00`. |
| TimerExamples.FormatOneMinuteOneSecond | src/components/BreathingAnimation/BreathingAnimationTimer/BreathingAnimationTimer.tsx:57 | 61000 ms shows `00:01:01`. |
| TimerExamples.FormatOneHour | src/components/BreathingAnimation/BreathingAnimationTimer/BreathingAnimationTimer.test.tsx:90-93 | 3600000 ms shows `01:00:00`. |
| TimerExamples.FormatOneHourOneMinuteOneSecond | src/components/BreathingAnimation/BreathingAnimationTimer/BreathingAnimationTimer.test.tsx:95-98 | 3661000 ms shows `01:01:01`. |
| TimerExamples.FormatElevenHours | src/components/BreathingAnimation/BreathingAnimationTimer/BreathingAnimationTimer.test.tsx:100-103 | 39661000 ms shows `11:01:01`. |
| TimerExamples.FormatHundredElevenHours | src/components/BreathingAnimation/BreathingAnimationTimer/BreathingAnimationTimer.test.tsx:105-108 | 399661000 ms shows `111:01:01`. The hours field grows instead of wrapping. |
| TimerMachine.Mount | src/components/BreathingAnimation/BreathingAnimationTimer/BreathingAnimationTimer.tsx:38-40 | A freshly mounted timer is idle, shows `00:00:00`, and has its start time at the mount time. |
| TimerMachine.Start | src/components/BreathingAnimation/BreathingAnimationTimer/BreathingAnimationTimer.tsx:42-45 | `start` goes live with the start time set to now. The text is left as it was. |
| TimerMachine.Reset | src/components/BreathingAnimation/BreathingAnimationTimer/BreathingAnimationTimer.tsx:47-50 | `reset` goes idle and shows `00:00:00`. The start time is untouched. |
| TimerMachine.Tick | src/components/BreathingAnimation/BreathingAnimationTimer/BreathingAnimationTimer.tsx:53-59 | An idle tick changes nothing. A live tick shows the display of now − start and keeps the other fields. |
| TimerMachine.Run | src/components/BreathingAnimation/BreathingAnimationTimer/BreathingAnimationTimer.tsx:42-65 | With event times that never go backwards, the start time never lies after the last event. |
| TimerMachine.MountShowsElapsed | src/components/BreathingAnimation/BreathingAnimationTimer/BreathingAnimationTimer.tsx:25 | The mounted display is the display of some elapsed time. |
| TimerMachine.StartTextShowsElapsed | src/components/BreathingAnimation/BreathingAnimationTimer/BreathingAnimationTimer.tsx:25 | The start text is the display of an elapsed time (zero). |
| TimerMachine.StartKeepsElapsed | src/components/BreathingAnimation/BreathingAnimationTimer/BreathingAnimationTimer.tsx:42-45 | `start` keeps the display a display of some elapsed time. |
| TimerMachine.TickKeepsElapsed | src/components/BreathingAnimation/BreathingAnimationTimer/BreathingAnimationTimer.tsx:53-59 | A tick keeps the display a display of some elapsed time. |
| TimerMachine.StepShowsElapsed | src/components/BreathingAnimation/BreathingAnimationTimer/BreathingAnimationTimer.tsx:42-59 | `start`, `reset` and ticks each keep the display a display of some elapsed time. |
| TimerMachine.RunShowsElapsed | src/components/BreathingAnimation/BreathingAnimationTimer/BreathingAnimationTimer.tsx:38-65 | After any chronological events, the display is still the display of an elapsed time, and it parses as `HH:MM:SS`. |
| TimerMachine.LatestTickWins | src/components/BreathingAnimation/BreathingAnimationTimer/BreathingAnimationTimer.tsx:53-59 | Two ticks leave the state a single tick at the later time would. |
| TimerMachine.TickIdempotent | src/components/BreathingAnimation/BreathingAnimationTimer/BreathingAnimationTimer.tsx:53-59 | Repeating a tick at the same time changes nothing. |
| TimerMachine.TickShowsElapsed | src/components/BreathingAnimation/BreathingAnimationTimer/BreathingAnimationTimer.tsx:53-59 | A tick d ms after `start` shows a text that parses to `Split(d)`. |
| TimerMachine.KthTickShows | src/components/BreathingAnimation/BreathingAnimationTimer/BreathingAnimationTimer.tsx:52-60 | The k-th one-second callback after `start` shows k div 3600 hours, (k div 60) mod 60 minutes and k mod 60 seconds. |
| TimerMachine.IdleTicksChangeNothing | src/components/BreathingAnimation/BreathingAnimationTimer/BreathingAnimationTimer.tsx:54 | Any number of ticks leaves an idle timer exactly as it was. |
| TimerMachine.ResetHoldsStartText | src/components/BreathingAnimation/BreathingAnimationTimer/BreathingAnimationTimer.tsx:47-54 | After `reset`, ticks keep showing `00:00:00`. |
| TimerScenarios.ShowsAfter | src/components/BreathingAnimation/BreathingAnimationTimer/BreathingAnimationTimer.tsx:53-59 | A tick d ms after `start` shows whatever text d formats to. |
| TimerScenarios.FirstCallback | src/components/BreathingAnimation/BreathingAnimationTimer/BreathingAnimationTimer.test.tsx:73-83 | Mounting, then `start`, both show `00:00:00`. One second after `start`, the display is `00:00:01`. |
| TimerScenarios.LaterCallbacks | src/components/BreathingAnimation/BreathingAnimationTimer/BreathingAnimationTimer.test.tsx:85-108 | Callbacks at 60 s, 1 h, 1 h 1 m 1 s, 11 h 1 m 1 s and 111 h 1 m 1 s after `start` show the expected texts. |
| TimerScenarios.ResetAndRestart | src/components/BreathingAnimation/BreathingAnimationTimer/BreathingAnimationTimer.test.tsx:111-148 | Ten seconds after `start`, the start text is gone. `reset` brings it back, and later ticks keep it. Ten seconds after a new `start`, it is gone again. |
| PhaseText.JsRemainder | src/components/BreathingAnimation/BreathingAnimationText/BreathingAnimationText.tsx:32 | JavaScript `%` is NaN (None) exactly for a zero divisor. Otherwise it is smaller in magnitude than the divisor and has the dividend's sign. |
| PhaseText.JsRemainderOfNatural | src/components/BreathingAnimation/BreathingAnimationText/BreathingAnimationText.tsx:32 | On a natural dividend and positive divisor, JavaScript `%` is the mathematical remainder. |
| PhaseText.JsRemainderNegated | src/components/BreathingAnimation/BreathingAnimationText/BreathingAnimationText.tsx:32 | Negating the dividend negates JavaScript `%`. |
| PhaseText.JsRemainderDivisorSign | src/components/BreathingAnimation/BreathingAnimationText/BreathingAnimationText.tsx:32 | The divisor's sign does not change JavaScript `%`. |
| PhaseText.Classify | src/components/BreathingAnimation/BreathingAnimationText/BreathingAnimationText.tsx:29-36 | Every input gets exactly one subclass. `active` holds iff current == label. `after` holds iff not active and `(label + 1) % total` is current. |
| PhaseText.SubclassName | src/components/BreathingAnimation/BreathingAnimationText/BreathingAnimationText.tsx:31-35 | Every subclass has a non-empty name. |
| PhaseText.ClassName | src/components/BreathingAnimation/BreathingAnimationText/BreathingAnimationText.tsx:37 | The `className` is two space-separated classes: `BreathingAnimationText` first, then the subclass's name. |
| PhaseText.ClassNameDistinguishes | src/components/BreathingAnimation/BreathingAnimationText/BreathingAnimationText.tsx:37 | Two subclasses render the same `className` iff they are the same subclass. |
| PhaseText.LabelsAroundCurrent | src/components/BreathingAnimation/BreathingAnimationText/BreathingAnimationText.tsx:30-35 | For labels and current both in 0..n−1, a label is active iff it is current. It is after iff n ≥ 2 and it is (current + n − 1) mod n. |
| PhaseText.ExactlyOneActiveOneAfter | src/components/BreathingAnimation/BreathingAnimationText/BreathingAnimationText.tsx:30-35 | Among labels 0..n−1, exactly one is active. With n ≥ 2, exactly one is after, the one before the current phase. |
| PhaseText.OutsideCurrentAllBefore | src/components/BreathingAnimation/BreathingAnimationText/BreathingAnimationText.tsx:30-35 | A current phase outside 0..n−1, such as −1, makes every label 0..n−1 `before`. |
| PhaseText.AfterIsPredecessor | src/components/BreathingAnimation/BreathingAnimationText/BreathingAnimationText.tsx:32-33 | With four phases, a label is after iff its successor is current and it is not itself current. |
| PhaseText.FourPhaseTable | src/components/BreathingAnimation/BreathingAnimationText/BreathingAnimationText.test.tsx:69-95 | With four labels: label p is active, label (p+3) mod 4 is after, and the rest are before. Under the start phase, every label is before. |
| TextInput.Accepts | src/components/Settings/SettingInput/SettingTextInput/SettingTextInput.tsx:42 | With no validator every value is accepted. With one, a value is accepted iff the validator returns true. |
| TextInput.Change | src/components/Settings/SettingInput/SettingTextInput/SettingTextInput.tsx:37-46 | A change hands nothing over. Afterwards a submission waits iff the value is non-empty, and that submission is the new value, due 1000 ms later. |
| TextInput.Elapse | src/components/Settings/SettingInput/SettingTextInput/SettingTextInput.tsx:41-44 | With nothing due, nothing changes. A due submission is dropped from waiting, and its value is appended to the handled values iff the validator (default: accept) accepts it. |
| TextInput.Step | src/components/Settings/SettingInput/SettingTextInput/SettingTextInput.tsx:37-46 | One event hands over at most one value and keeps the earlier ones. A change first lets a due submission fire, then cancels what still waits. |
| TextInput.Run | src/components/Settings/SettingInput/SettingTextInput/SettingTextInput.tsx:37-46 | The handled values only grow: earlier ones are kept, and each event adds at most one. |
| TextInput.DueFiresBeforeChange | src/components/Settings/SettingInput/SettingTextInput/SettingTextInput.tsx:38-44 | A change made when the waiting value is already due does not lose it: the value is handed over, if accepted, before the change. |
| TextInput.RunSound | src/components/Settings/SettingInput/SettingTextInput/SettingTextInput.tsx:39-43 | After any events, every handled value is non-empty and accepted by the validator. |
| TextInput.ChangeCancels | src/components/Settings/SettingInput/SettingTextInput/SettingTextInput.tsx:38 | What waits after a change does not depend on what waited before. |
| TextInput.SubmitsAfterDelay | src/components/Settings/SettingInput/SettingTextInput/SettingTextInput.tsx:41-44 | After the delay, a non-empty value is handed over once and unchanged iff the validator accepts it. It always is with no validator. |
| TextInput.NothingBeforeDelay | src/components/Settings/SettingInput/SettingTextInput/SettingTextInput.tsx:44 | Before 1000 ms have passed, nothing fires. |
| TextInput.EmptyChangeSubmitsNothing | src/components/Settings/SettingInput/SettingTextInput/SettingTextInput.tsx:38-40 | A change to the empty value discards what waited, and no amount of waiting hands anything over. |
| TextInput.BurstKeepsLast | src/components/Settings/SettingInput/SettingTextInput/SettingTextInput.tsx:38-44 | For changes in time order, each less than 1000 ms after the one before, only the last value waits afterwards. The state is what the clock reaching the first change, then the last change alone, would give. |
| TextInput.BurstSubmitsOnlyLast | src/components/Settings/SettingInput/SettingTextInput/SettingTextInput.tsx:38-44 | After such a burst and waiting, the only value handed over besides what was due before the burst is the last one typed. It is handed over iff it is non-empty, 1000 ms have passed since it was typed, and it is accepted. |
| TextInput.SpacedChangesBothSubmitted | src/components/Settings/SettingInput/SettingTextInput/SettingTextInput.tsx:37-44 | Changes to "5" at 0 ms and "7" at 5000 ms, then the clock at 6000 ms, hand over "5" and then "7". |
| TextInput.LongValueSubmittedWhole | src/components/Settings/SettingInput/SettingTextInput/SettingTextInput.test.tsx:56-70 | A 1000-character value with no validator reaches the handler exactly once, unchanged. |

## Left out

- **The constants module.** `MS_IN_SEC`, `MS_IN_MIN`, `MS_IN_HR`, `SEC_IN_MIN` and `MIN_IN_HR` come from `src/constants`, which is not part of this model. They are fixed at 1000, 60000, 3600000, 60 and 60, the values the timer test's expected texts imply.
- **The breathing-cycle controller.** `BreathingAnimation.tsx` is a static stub, so there is nothing to check a pre-roll delay, phase advancing or the duration and colour setters against.
- **Timers, effects and rendering.** `setInterval`, `setTimeout`, `clearInterval`, `clearTimeout`, React state, `useImperativeHandle` and unmount cleanup are not modelled. Each callback is an explicit event with its time. `hidden` only toggles a CSS class.
- **Interval re-creation.** The timer's interval is re-created whenever `timerStart` or `active` changes. Callbacks therefore land at whole seconds after `start`, and `TimerMachine.KthTickShows` states the display at those moments. Ticks at arbitrary times are also allowed.
- TimerMachine.Tick: requires now ≥ `timerStart` while live. This treats `Date.now()` as never going backwards. A negative duration, which the source would format with minus signs, is not modelled.
- **When a submission is recorded.** The source calls the handler at the due time itself. The model records the call at the first event at or after that time: an `Elapsed` event stands for the timer callback. The order of the calls is the same.
- TextInput.Run: accepts events in any time order. The lemmas that depend on timing (`BurstKeepsLast`, `BurstSubmitsOnlyLast`) require their events in time order.
- **Number representation.** Timestamps, durations and phases are unbounded integers, not IEEE doubles. Past 2^53 ms, JavaScript would lose precision.
- **The `timeout` variable in `SettingTextInput.tsx`.** It is declared with `let` inside the render function (line 29). A re-render between two changes would lose the handle, and the older submission would then not be cancelled. The model assumes no re-render in between, which holds because the input's own changes do not re-render it.
- **`useTextStyle.ts` and the presentational components.** These are DOM measurement and markup, with no logic to state.
- **Tests that disagree with the code.** The start-phase test (`BreathingAnimationText.test.tsx:97-110`) expects no subclass at all. The code shown gives `before`, and the model follows the code (`PhaseText.OutsideCurrentAllBefore`). The same test file also omits `totalPhases`. In JavaScript, `x % undefined` is NaN, so no label could be `after`. The phase table (lines 69-95) matches the code only with `totalPhases` = 4, which `PhaseText.FourPhaseTable` uses. A missing `totalPhases` is not modelled, because the component's props declare it as a required number.
- PhaseText.JsRemainder: is defined on integers only. JavaScript `%` on non-integral or non-finite numbers is not modelled, because phases are integers.
